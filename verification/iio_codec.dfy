/** The bulk "all attributes" wire format of `iio_read_all_attr` and
    `iio_write_all_attr`: per attribute a 4-byte big-endian length header,
    then (for a non-negative length) the value padded to a 4-byte boundary. */
module IioCodec {
  import opened Common
  import opened IioTypes

  /** 2^32: lengths travel as 32-bit words. */
  const WORD: int := 0x1_0000_0000

  /** The smallest multiple of 4 that is at least `n`. The C computes it as
      `if (n & 0x3) n = ((n >> 2) + 1) << 2`, which for a non-negative `n`
      adds the `4 - n % 4` bytes missing to the next boundary. */
  function Align4(n: nat): (r: nat)
    ensures r % 4 == 0 && n <= r < n + 4
  {
    if n % 4 != 0 then n + (4 - n % 4) else n
  }

  /** `Align4` is the C expression `((n >> 2) + 1) << 2` on unaligned `n`. */
  lemma Align4IsShiftFormula(n: nat)
    ensures Align4(n) == if n % 4 != 0 then (n / 4 + 1) * 4 else n
  {
  }

  /** A 32-bit word as it lies in memory after `bswap_constant_32` on a
      little-endian CPU: most significant byte first. */
  function Be32(v: nat): (b: seq<octet>)
    requires v < WORD
    ensures |b| == 4
  {
    [v / 0x100_0000, v / 0x1_0000 % 0x100, v / 0x100 % 0x100, v % 0x100]
  }

  /** The 32-bit word four big-endian bytes hold. */
  function Be32Value(b: seq<octet>): (v: nat)
    requires |b| == 4
    ensures v < WORD
  {
    b[0] as int * 0x100_0000 + b[1] as int * 0x1_0000 + b[2] as int * 0x100 + b[3] as int
  }

  lemma Be32RoundTrip(v: nat)
    requires v < WORD
    ensures Be32Value(Be32(v)) == v
  {
    var q1, q2, q3 := v / 0x100, v / 0x1_0000, v / 0x100_0000;
    assert q2 == q1 / 0x100;
    assert q3 == q2 / 0x100;
    assert v == q1 * 0x100 + v % 0x100;
    assert q1 == q2 * 0x100 + q1 % 0x100;
    assert q2 == q3 * 0x100 + q2 % 0x100;
  }

  /** The 32-bit two's-complement word of a (32-bit) length. */
  function Word32(len: int): (w: nat)
    ensures w < WORD
    ensures 0 <= len < WORD ==> w == len
  {
    len % WORD
  }

  // ---------------------------------------------------------------------
  // Encoding (read direction)
  // ---------------------------------------------------------------------

  /** The first `size` bytes of `text` followed by zero bytes: what a value
      region holds once `sprintf` has copied the accessor's text and its
      terminating NUL. */
  function Fit(text: seq<octet>, size: nat): (v: seq<octet>)
    ensures |v| == size
  {
    seq(size, k requires 0 <= k < size => if k < |text| then text[k] else 0)
  }

  /** The bytes `iio_read_all_attr` emits for one attribute: the header is
      always there, even for a negative (error) length; a value region
      follows only for a non-negative length. */
  function Record(sh: Shown): seq<octet> {
    Be32(Word32(sh.len)) + (if sh.len >= 0 then Fit(sh.text, Align4(sh.len)) else [])
  }

  /** The bytes for a whole attribute list, records back to back. */
  function Encode(shows: seq<Shown>): seq<octet> {
    if |shows| == 0 then [] else Record(shows[0]) + Encode(shows[1..])
  }

  /** Bytes one record occupies: `4 + (len >= 0 ? align4(len) : 0)`. */
  function RecordSize(len: int): nat {
    4 + if len >= 0 then Align4(len) else 0
  }

  /** Sum of the record sizes of a list. */
  function EncodedSize(shows: seq<Shown>): nat {
    if |shows| == 0 then 0 else RecordSize(shows[0].len) + EncodedSize(shows[1..])
  }

  /** Every record starts with a header that decodes to the length the
      accessor returned (as a 32-bit word) and is followed by nothing when
      that length is negative. */
  lemma RecordHeader(sh: Shown)
    ensures Be32Value(Record(sh)[..4]) == Word32(sh.len)
  {
    assert Record(sh)[..4] == Be32(Word32(sh.len));
    Be32RoundTrip(Word32(sh.len));
  }

  lemma RecordLength(sh: Shown)
    ensures |Record(sh)| == RecordSize(sh.len)
    ensures sh.len < 0 ==> |Record(sh)| == 4
  {
  }

  lemma {:induction false} EncodeLength(shows: seq<Shown>)
    ensures |Encode(shows)| == EncodedSize(shows)
  {
    if |shows| > 0 {
      RecordLength(shows[0]);
      EncodeLength(shows[1..]);
    }
  }

  /** What each `show` accessor reports: every accessor receives the full
      buffer length, as in the source. */
  function Shows(attrs: seq<Attribute>, ch: Option<ChInfo>, len: nat): (r: seq<Shown>)
    ensures |r| == |attrs|
    ensures forall i | 0 <= i < |attrs| :: r[i] == attrs[i].show(ch, len)
  {
    seq(|attrs|, i requires 0 <= i < |attrs| => attrs[i].show(ch, len))
  }

  /** A status code and the bytes placed in the caller's buffer. */
  datatype ReadReply = ReadReply(ret: int, out: seq<octet>)

  /** `iio_read_all_attr`: FAILURE for a NULL attribute list or a NULL buffer;
      otherwise the encoded list, and the number of bytes it occupies. */
  function ReadAllAttr(attrs: AttrList, hasBuf: bool, len: nat, ch: Option<ChInfo>): (r: ReadReply)
    ensures r.ret == FAILURE <==> attrs.None? || !hasBuf
    ensures r.ret != FAILURE ==>
      r.ret == EncodedSize(Shows(attrs.value, ch, len)) && |r.out| == r.ret
  {
    if attrs.None? || !hasBuf then ReadReply(FAILURE, [])
    else
      var shows := Shows(attrs.value, ch, len);
      EncodeLength(shows);
      ReadReply(EncodedSize(shows), Encode(shows))
  }

  // ---------------------------------------------------------------------
  // Decoding (write direction)
  // ---------------------------------------------------------------------

  /** The values found for the attributes and the cursor after the last
      record. */
  datatype Decoded = Decoded(values: seq<seq<octet>>, end: nat)

  /** The values of `n` records starting at `j`: each record is a header
      holding the length, then exactly that many value bytes; the cursor
      then moves to the next 4-byte boundary. None when a header or a value
      would reach past the end of the buffer. */
  function DecodeFrom(buf: seq<octet>, j: nat, n: nat): (r: Option<Decoded>)
    ensures r.Some? ==> |r.value.values| == n && j <= r.value.end
    decreases n
  {
    if n == 0 then Some(Decoded([], j))
    else if j + 4 > |buf| then None
    else
      var len := Be32Value(buf[j..j + 4]);
      if j + 4 + len > |buf| then None
      else
        match DecodeFrom(buf, Align4(j + 4 + len), n - 1)
        case None => None
        case Some(d) => Some(Decoded([buf[j + 4..j + 4 + len]] + d.values, d.end))
  }

  /** A status code, the value each attribute's `store` receives (in list
      order; their own return values are discarded) and the cursor reached. */
  datatype WriteReply = WriteReply(ret: int, stores: seq<seq<octet>>, consumed: nat)

  /** `iio_write_all_attr` with the length read from the buffer and checked
      against its end: FAILURE for a NULL list or buffer, -EINVAL (and no
      accessor called) when a record overruns the buffer, otherwise the
      decoded values go to the attributes in order and the caller's length
      is returned. */
  function WriteAllAttr(attrs: AttrList, buf: Option<seq<octet>>): (r: WriteReply)
    ensures r.ret == FAILURE <==> attrs.None? || buf.None?
    ensures r.ret == -EINVAL <==>
      attrs.Some? && buf.Some? && DecodeFrom(buf.value, 0, |attrs.value|).None?
    ensures r.ret != FAILURE && r.ret != -EINVAL ==>
      r.ret == |buf.value| && |r.stores| == |attrs.value| && r.consumed >= 0
    ensures r.ret < 0 ==> r.stores == []
  {
    if attrs.None? || buf.None? then WriteReply(FAILURE, [], 0)
    else
      match DecodeFrom(buf.value, 0, |attrs.value|)
      case None => WriteReply(-EINVAL, [], 0)
      case Some(d) => WriteReply(|buf.value|, d.values, d.end)
  }

  /** The value a record for `sh` carries: the accessor's text cut (or
      zero-filled) to the length it returned; nothing for a negative length. */
  function Kept(sh: Shown): (v: seq<octet>)
    ensures sh.len >= 0 ==> |v| == sh.len
    ensures sh.len < 0 ==> v == []
  {
    Fit(sh.text, if sh.len < 0 then 0 else sh.len)
  }

  /** What the accessors' texts become after a read and a write. */
  function Values(shows: seq<Shown>): (vs: seq<seq<octet>>)
    ensures |vs| == |shows|
  {
    if |shows| == 0 then [] else [Kept(shows[0])] + Values(shows[1..])
  }

  /** The i-th value is the i-th accessor's text cut (or zero-filled) to
      the length it returned. */
  lemma {:induction false} ValuesAt(shows: seq<Shown>)
    ensures forall i | 0 <= i < |shows| :: Values(shows)[i] == Kept(shows[i])
    decreases |shows|
  {
    if |shows| > 0 {
      ValuesAt(shows[1..]);
      assert forall i | 1 <= i < |shows| :: Values(shows)[i] == Values(shows[1..])[i - 1];
    }
  }

  /** Every accessor returned a length that fits the 32-bit header. */
  predicate LengthsFit(shows: seq<Shown>)
    decreases |shows|
  {
    |shows| == 0 || (0 <= shows[0].len < WORD && LengthsFit(shows[1..]))
  }

  lemma {:induction false} LengthsFitAll(shows: seq<Shown>)
    requires forall i | 0 <= i < |shows| :: 0 <= shows[i].len < WORD
    ensures LengthsFit(shows)
    decreases |shows|
  {
    if |shows| > 0 {
      assert forall i | 0 <= i < |shows[1..]| :: shows[1..][i] == shows[i + 1];
      LengthsFitAll(shows[1..]);
    }
  }

  lemma Align4Shift(j: nat, len: nat)
    requires j % 4 == 0
    ensures Align4(j + 4 + len) == j + 4 + Align4(len)
  {
    var q := j / 4;
    assert j == 4 * q;
    assert (4 * (q + 1) + len) % 4 == len % 4;
  }

  /** A record that starts on a 4-byte boundary ends on one. */
  lemma NextAligned(j: nat, len: int)
    requires j % 4 == 0
    ensures (j + RecordSize(len)) % 4 == 0
  {
    var q, p := j / 4, RecordSize(len) / 4;
    assert j == 4 * q;
    assert RecordSize(len) == 4 * p;
    assert j + RecordSize(len) == 4 * (q + p);
  }

  /** What a reader finds at position `j` of `buf` for a record of `sh`
      with a non-negative length: a header holding the length, then the
      value, within a record of `RecordSize` bytes. */
  predicate RecordAt(buf: seq<octet>, j: nat, sh: Shown) {
    0 <= sh.len && j + RecordSize(sh.len) <= |buf| &&
    Be32Value(buf[j..j + 4]) == sh.len && buf[j + 4..j + 4 + sh.len] == Kept(sh)
  }

  /** `buf` holds, from position `j` on, the records of `shows` back to back. */
  predicate EncodedAt(buf: seq<octet>, j: nat, shows: seq<Shown>)
    decreases |shows|
  {
    |shows| == 0 ||
    (RecordAt(buf, j, shows[0]) && EncodedAt(buf, j + RecordSize(shows[0].len), shows[1..]))
  }

  /** The bytes of a record with a length in range, wherever they sit in a
      buffer, read as `RecordAt` describes. */
  lemma RecordReads(buf: seq<octet>, j: nat, sh: Shown)
    requires 0 <= sh.len < WORD
    requires j + RecordSize(sh.len) <= |buf| && buf[j..j + RecordSize(sh.len)] == Record(sh)
    ensures RecordAt(buf, j, sh)
  {
    HeaderAt(buf, j, sh);
    ValueAt(buf, j, sh);
  }

  lemma HeaderAt(buf: seq<octet>, j: nat, sh: Shown)
    requires 0 <= sh.len < WORD
    requires j + RecordSize(sh.len) <= |buf| && buf[j..j + RecordSize(sh.len)] == Record(sh)
    ensures j + 4 <= |buf| && Be32Value(buf[j..j + 4]) == sh.len
  {
    RecordHeader(sh);
    assert buf[j..j + 4] == Record(sh)[..4];
  }

  lemma ValueAt(buf: seq<octet>, j: nat, sh: Shown)
    requires 0 <= sh.len < WORD
    requires j + RecordSize(sh.len) <= |buf| && buf[j..j + RecordSize(sh.len)] == Record(sh)
    ensures j + 4 + sh.len <= |buf| && buf[j + 4..j + 4 + sh.len] == Kept(sh)
  {
    var r := Record(sh);
    assert r[4..] == Fit(sh.text, Align4(sh.len));
    assert buf[j + 4..j + 4 + sh.len] == r[4..][..sh.len];
  }

  /** A slice holding `a + b` holds `a`, then `b`. */
  lemma SliceSplit(buf: seq<octet>, j: nat, a: seq<octet>, b: seq<octet>)
    requires j + |a| + |b| <= |buf| && buf[j..j + |a| + |b|] == a + b
    ensures buf[j..j + |a|] == a && buf[j + |a|..j + |a| + |b|] == b
  {
    assert buf[j..j + |a|] == buf[j..j + |a| + |b|][..|a|];
    assert buf[j + |a|..j + |a| + |b|] == buf[j..j + |a| + |b|][|a|..];
  }

  /** The encoder's output, wherever it sits in a buffer, is laid out as
      `EncodedAt` describes. */
  lemma {:induction false} EncodeIsEncodedAt(buf: seq<octet>, j: nat, shows: seq<Shown>)
    requires LengthsFit(shows)
    requires j + |Encode(shows)| <= |buf| && buf[j..j + |Encode(shows)|] == Encode(shows)
    ensures EncodedAt(buf, j, shows)
    decreases |shows|
  {
    if |shows| > 0 {
      var sh, rest := shows[0], shows[1..];
      assert Encode(shows) == Record(sh) + Encode(rest);
      SliceSplit(buf, j, Record(sh), Encode(rest));
      RecordLength(sh);
      EncodeIsEncodedAt(buf, j + |Record(sh)|, rest);
      RecordReads(buf, j, sh);
    }
  }

  /** One step of the decoder over a record at a 4-aligned position: the
      record's value is taken and decoding goes on right after the record. */
  lemma DecodeRecord(buf: seq<octet>, j: nat, sh: Shown, k: nat, m: nat, rest: Decoded)
    requires j % 4 == 0 && RecordAt(buf, j, sh) && k == j + RecordSize(sh.len)
    requires DecodeFrom(buf, k, m) == Some(rest)
    ensures DecodeFrom(buf, j, m + 1) == Some(Decoded([Kept(sh)] + rest.values, rest.end))
  {
    Align4Shift(j, sh.len);
  }

  /** Decoding the first record of a list and then the rest decodes the
      whole list. */
  lemma DecodeCons(buf: seq<octet>, j: nat, shows: seq<Shown>)
    requires |shows| > 0
    requires DecodeFrom(buf, j, |shows[1..]| + 1) ==
      Some(Decoded([Kept(shows[0])] + Values(shows[1..]), j + RecordSize(shows[0].len) + EncodedSize(shows[1..])))
    ensures DecodeFrom(buf, j, |shows|) == Some(Decoded(Values(shows), j + EncodedSize(shows)))
  {
    assert |shows| == |shows[1..]| + 1;
    assert Values(shows) == [Kept(shows[0])] + Values(shows[1..]);
    assert EncodedSize(shows) == RecordSize(shows[0].len) + EncodedSize(shows[1..]);
  }

  /** The inductive step of `DecodeEncoded`: the first record, then what
      the rest decodes to. */
  lemma DecodeEncodedStep(buf: seq<octet>, j: nat, shows: seq<Shown>, k: nat)
    requires |shows| > 0 && j % 4 == 0 && RecordAt(buf, j, shows[0])
    requires k == j + RecordSize(shows[0].len)
    requires DecodeFrom(buf, k, |shows[1..]|) == Some(Decoded(Values(shows[1..]), k + EncodedSize(shows[1..])))
    ensures DecodeFrom(buf, j, |shows|) == Some(Decoded(Values(shows), j + EncodedSize(shows)))
  {
    var rest := shows[1..];
    DecodeRecord(buf, j, shows[0], k, |rest|, Decoded(Values(rest), k + EncodedSize(rest)));
    DecodeCons(buf, j, shows);
  }

  /** Records laid out from a 4-aligned position decode back to their
      values, each with its declared length, and the cursor ends right after
      the last record. */
  lemma {:induction false} DecodeEncoded(buf: seq<octet>, j: nat, shows: seq<Shown>)
    requires j % 4 == 0 && EncodedAt(buf, j, shows)
    ensures DecodeFrom(buf, j, |shows|) == Some(Decoded(Values(shows), j + EncodedSize(shows)))
    decreases |shows|
  {
    if |shows| > 0 {
      var k := j + RecordSize(shows[0].len);
      NextAligned(j, shows[0].len);
      DecodeEncoded(buf, k, shows[1..]);
      DecodeEncodedStep(buf, j, shows, k);
    }
  }

  /** `DecodeEncoded` for a buffer that starts with the records. */
  lemma DecodeEncodedAtStart(buf: seq<octet>, shows: seq<Shown>)
    requires EncodedAt(buf, 0, shows)
    ensures DecodeFrom(buf, 0, |shows|) == Some(Decoded(Values(shows), EncodedSize(shows)))
  {
    DecodeEncoded(buf, 0, shows);
  }

  /** Decoding what the encoder wrote gives every value back with its
      declared length and ends right after the last record. */
  lemma DecodeEncode(shows: seq<Shown>)
    requires forall i | 0 <= i < |shows| :: 0 <= shows[i].len < WORD
    ensures DecodeFrom(Encode(shows), 0, |shows|) == Some(Decoded(Values(shows), EncodedSize(shows)))
  {
    LengthsFitAll(shows);
    assert Encode(shows)[0..|Encode(shows)|] == Encode(shows);
    EncodeIsEncodedAt(Encode(shows), 0, shows);
    DecodeEncodedAtStart(Encode(shows), shows);
  }

  /** The bulk read and the bulk write agree: writing back what a read
      produced hands every attribute (of a list of the same length) exactly
      the declared length of the value that was read, consumes exactly the
      bytes read, and returns the caller's length. */
  lemma BulkRoundTrip(attrs: seq<Attribute>, ch: Option<ChInfo>, len: nat, targets: seq<Attribute>)
    requires |targets| == |attrs|
    requires forall i | 0 <= i < |attrs| :: 0 <= attrs[i].show(ch, len).len < WORD
    ensures ReadAllAttr(Some(attrs), true, len, ch).ret >= 0
    ensures WriteAllAttr(Some(targets), Some(ReadAllAttr(Some(attrs), true, len, ch).out)) ==
      WriteReply(ReadAllAttr(Some(attrs), true, len, ch).ret,
        Values(Shows(attrs, ch, len)), ReadAllAttr(Some(attrs), true, len, ch).ret)
  {
    var shows := Shows(attrs, ch, len);
    EncodeLength(shows);
    DecodeEncode(shows);
  }

  // ---------------------------------------------------------------------
  // The header as iio.c:385 computes it
  // ---------------------------------------------------------------------

  /** `bswap_constant_32`: the four bytes of a word in reverse order. */
  function Bswap32(v: nat): (r: nat)
    requires v < WORD
    ensures r < WORD
  {
    (v % 0x100) * 0x100_0000 + (v / 0x100 % 0x100) * 0x1_0000 +
    (v / 0x1_0000 % 0x100) * 0x100 + v / 0x100_0000
  }

  /** Assignment to an `int16_t`: the low 16 bits, read as two's complement. */
  function Int16(x: int): (r: int)
    ensures -0x8000 <= r < 0x8000
  {
    var w := x % 0x1_0000;
    if w >= 0x8000 then w - 0x1_0000 else w
  }

  /** The length `iio_write_all_attr` as written hands to `store` for the
      record at offset `j` of a buffer at address `addr`: the byte-swapped
      ADDRESS `buf + j`, truncated to `int16_t`. The buffer's contents play
      no part. */
  function HeaderAsWritten(addr: nat, j: nat): int {
    Int16(Bswap32((addr + j) % WORD))
  }

  /** Concrete case: one attribute whose value is "hello" (5 bytes) encodes
      to 12 bytes whose header says 5. The intended decoding passes those 5
      bytes on; with the buffer at address 0x20000000 (a typical SRAM
      address) the code as written passes a length of 32, more than the
      whole buffer holds. */
  lemma HeaderAsWrittenMisreads()
    ensures var hello: seq<octet> := [0x68, 0x65, 0x6C, 0x6C, 0x6F];
      var buf := Encode([Shown(5, hello)]);
      |buf| == 12 &&
      DecodeFrom(buf, 0, 1) == Some(Decoded([hello], 12)) &&
      HeaderAsWritten(0x2000_0000, 0) == 32 && 32 > |buf|
  {
    var hello: seq<octet> := [0x68, 0x65, 0x6C, 0x6C, 0x6F];
    var shows := [Shown(5, hello)];
    DecodeEncode(shows);
    EncodeLength(shows);
    assert EncodedSize(shows) == 12;
    assert Kept(shows[0]) == hello;
    assert Values(shows) == [hello];
    assert Bswap32(0x2000_0000) == 0x20;
  }
}
