/** Name resolution of the IIO layer: the channel number hidden in a channel
    name (`iio_get_channel_number`) and the first-match scans over channels,
    attributes and registered interfaces (`iio_get_channel_id`,
    `iio_get_attribute_id`, `iio_get_interface`). */
module IioNames {
  import opened Common
  import opened IioTypes

  // ---------------------------------------------------------------------
  // Channel numbers
  // ---------------------------------------------------------------------

  predicate IsDigit(c: char) {
    '0' <= c <= '9'
  }

  predicate AllDigits(s: string, from: nat, to: nat)
    requires from <= to <= |s|
  {
    forall k | from <= k < to :: IsDigit(s[k])
  }

  function DigitValue(c: char): nat
    requires IsDigit(c)
  {
    (c as int) - ('0' as int)
  }

  /** The decimal value of a string of digits, most significant digit first. */
  function DigitsValue(ds: string): nat
    requires AllDigits(ds, 0, |ds|)
  {
    if |ds| == 0 then 0 else DigitsValue(ds[..|ds| - 1]) * 10 + DigitValue(ds[|ds| - 1])
  }

  /** The number of digits `strtol(s + p, &end, 10)` consumes when `s[p]` is
      a digit: the whole run of digits starting at `p`. */
  function RunLength(s: string, p: nat): (n: nat)
    requires p <= |s|
    ensures p + n <= |s| && AllDigits(s, p, p + n)
    ensures p + n == |s| || !IsDigit(s[p + n])
    decreases |s| - p
  {
    if p < |s| && IsDigit(s[p]) then 1 + RunLength(s, p + 1) else 0
  }

  /** The loop of `iio_get_channel_number` from position `p` with the number
      found so far: a digit starts a `strtol` that swallows the whole run and
      replaces the number; any other character is skipped. */
  function Scan(s: string, p: nat, chNum: int): int
    requires p <= |s|
    decreases |s| - p
  {
    if p == |s| then chNum
    else if IsDigit(s[p]) then
      var n := RunLength(s, p);
      Scan(s, p + n, DigitsValue(s[p..p + n]))
    else Scan(s, p + 1, chNum)
  }

  /** `iio_get_channel_number`: starts from FAILURE and scans the whole name. */
  function ChannelNumber(name: string): int {
    Scan(name, 0, FAILURE)
  }

  /** One past the last digit of `s`, or 0 when `s` holds no digit. */
  function LastRunEnd(s: string): (e: nat)
    ensures e <= |s|
    ensures e > 0 ==> IsDigit(s[e - 1])
    ensures forall k | e <= k < |s| :: !IsDigit(s[k])
  {
    if |s| == 0 then 0
    else if IsDigit(s[|s| - 1]) then |s|
    else LastRunEnd(s[..|s| - 1])
  }

  /** Where the run of digits that ends at `e` begins. */
  function RunStart(s: string, e: nat): (b: nat)
    requires e <= |s|
    ensures b <= e && AllDigits(s, b, e)
    ensures b == 0 || !IsDigit(s[b - 1])
  {
    if e == 0 || !IsDigit(s[e - 1]) then e else RunStart(s, e - 1)
  }

  /** The channel number a name denotes, defined independently of the scan:
      the decimal value of its LAST maximal run of digits ("altvoltage0" is
      0, "voltage2" is 2, "in12b3" is 3), or FAILURE when it has no digit. */
  function LastNumber(s: string): int {
    var e := LastRunEnd(s);
    if e == 0 then FAILURE else DigitsValue(s[RunStart(s, e)..e])
  }

  /** A run of digits that starts after a non-digit (or at 0) and ends at `q`
      starts where `RunStart` says. */
  lemma {:induction false} RunStartUnique(s: string, p: nat, q: nat)
    requires p <= q <= |s| && AllDigits(s, p, q)
    requires p == 0 || !IsDigit(s[p - 1])
    ensures RunStart(s, q) == p
    decreases q - p
  {
    if q > p {
      assert IsDigit(s[q - 1]);
      RunStartUnique(s, p, q - 1);
    }
  }

  /** The scan from a position that is not inside a run of digits yields the
      last number of the whole name if a digit lies ahead, and keeps the
      number it has otherwise. */
  lemma {:induction false} ScanFinds(s: string, p: nat, chNum: int)
    requires p <= |s|
    requires p == 0 || p == |s| || !IsDigit(s[p - 1]) || !IsDigit(s[p])
    ensures Scan(s, p, chNum) == if LastRunEnd(s) > p then LastNumber(s) else chNum
    decreases |s| - p
  {
    var e := LastRunEnd(s);
    if p == |s| {
    } else if IsDigit(s[p]) {
      var n := RunLength(s, p);
      var q := p + n;
      ScanFinds(s, q, DigitsValue(s[p..q]));
      if e <= q {
        assert e == q;
        RunStartUnique(s, p, q);
      }
    } else {
      assert e != p + 1;
      ScanFinds(s, p + 1, chNum);
    }
  }

  /** `iio_get_channel_number` returns the value of the last run of digits of
      the name, and FAILURE exactly when the name holds no digit. */
  lemma ChannelNumberIsLastNumber(name: string)
    ensures ChannelNumber(name) == LastNumber(name)
    ensures ChannelNumber(name) == FAILURE <==> forall k | 0 <= k < |name| :: !IsDigit(name[k])
  {
    ScanFinds(name, 0, FAILURE);
    var e := LastRunEnd(name);
    if e > 0 {
      assert IsDigit(name[e - 1]);
    }
  }

  function DigitChar(d: nat): (c: char)
    requires d < 10
    ensures IsDigit(c) && DigitValue(c) == d
  {
    (('0' as int) + d) as char
  }

  /** The decimal spelling of `n`, without leading zeros. */
  function Decimal(n: nat): (ds: string)
    ensures |ds| >= 1 && AllDigits(ds, 0, |ds|)
  {
    if n < 10 then [DigitChar(n)] else Decimal(n / 10) + [DigitChar(n % 10)]
  }

  lemma {:induction false} DecimalValue(n: nat)
    ensures DigitsValue(Decimal(n)) == n
  {
    if n >= 10 {
      var ds := Decimal(n);
      assert ds[..|ds| - 1] == Decimal(n / 10);
      DecimalValue(n / 10);
    }
  }

  /** A channel name made of a prefix that does not end in a digit followed
      by the decimal spelling of `n` ("voltage" and 2) denotes channel `n`. */
  lemma IndexedName(prefix: string, n: nat)
    requires prefix == [] || !IsDigit(prefix[|prefix| - 1])
    ensures ChannelNumber(prefix + Decimal(n)) == n
  {
    var s := prefix + Decimal(n);
    ChannelNumberIsLastNumber(s);
    assert LastRunEnd(s) == |s|;
    RunStartUnique(s, |prefix|, |s|);
    assert s[|prefix|..|s|] == Decimal(n);
    DecimalValue(n);
  }

  // ---------------------------------------------------------------------
  // First-match lookups
  // ---------------------------------------------------------------------

  /** The first index of `s` whose element satisfies `p`, as the C loops
      `while (list[i]) { if (match) return i; i++; }` find it. */
  function FirstIndex<T>(s: seq<T>, p: T -> bool): (r: Option<nat>)
    ensures r.Some? ==> r.value < |s| && p(s[r.value])
    ensures r.Some? ==> forall k | 0 <= k < r.value :: !p(s[k])
    ensures r.None? ==> forall k | 0 <= k < |s| :: !p(s[k])
  {
    if |s| == 0 then None
    else if p(s[0]) then Some(0)
    else
      match FirstIndex(s[1..], p)
      case None => None
      case Some(k) => Some(k + 1)
  }

  predicate ChannelMatches(c: Channel, name: string, chOut: bool) {
    c.name == name && c.chOut == chOut
  }

  /** `iio_get_channel_id`: the index of the first channel with that name AND
      that direction; -EINVAL for an empty list, -ENOENT when none matches. */
  function ChannelId(name: string, channels: seq<Channel>, chOut: bool): (r: int)
    ensures r == -EINVAL <==> |channels| == 0
    ensures r == -ENOENT <==>
      |channels| > 0 && forall k | 0 <= k < |channels| :: !ChannelMatches(channels[k], name, chOut)
    ensures r >= 0 || r == -EINVAL || r == -ENOENT
    ensures r >= 0 ==>
      r < |channels| && ChannelMatches(channels[r], name, chOut) &&
      forall k | 0 <= k < r :: !ChannelMatches(channels[k], name, chOut)
  {
    if |channels| == 0 then -EINVAL
    else
      match FirstIndex(channels, c => ChannelMatches(c, name, chOut))
      case None => -ENOENT
      case Some(i) => i
  }

  /** `iio_get_attribute_id`: the index of the first attribute with that
      name; -EINVAL for an empty list, -ENOENT when none matches. */
  function AttributeId(name: string, attrs: seq<Attribute>): (r: int)
    ensures r == -EINVAL <==> |attrs| == 0
    ensures r == -ENOENT <==> |attrs| > 0 && forall k | 0 <= k < |attrs| :: attrs[k].name != name
    ensures r >= 0 || r == -EINVAL || r == -ENOENT
    ensures r >= 0 ==>
      r < |attrs| && attrs[r].name == name && forall k | 0 <= k < r :: attrs[k].name != name
  {
    if |attrs| == 0 then -EINVAL
    else
      match FirstIndex(attrs, (a: Attribute) => a.name == name)
      case None => -ENOENT
      case Some(i) => i
  }

  /** Position of the first interface registered under `name`. */
  function InterfaceIndex(reg: Registry, name: string): (r: Option<nat>)
    ensures r.Some? ==> r.value < |reg| && reg[r.value].name == name
    ensures r.Some? ==> forall k | 0 <= k < r.value :: reg[k].name != name
    ensures r.None? <==> forall k | 0 <= k < |reg| :: reg[k].name != name
  {
    FirstIndex(reg, (i: Interface) => i.name == name)
  }

  /** `iio_get_interface`: the first interface registered under `name`, or
      NULL (also before anything was registered). */
  function GetInterface(reg: Registry, name: string): (r: Option<Interface>)
    ensures r.None? <==> forall k | 0 <= k < |reg| :: reg[k].name != name
    ensures r.Some? ==> r.value.name == name
    ensures r.Some? ==>
      exists k | 0 <= k < |reg| :: reg[k] == r.value && (forall j | 0 <= j < k :: reg[j].name != name)
  {
    match InterfaceIndex(reg, name)
    case None => None
    case Some(k) => Some(reg[k])
  }

  /** `iio_supported_dev`: some interface carries that name. */
  predicate Supported(reg: Registry, name: string) {
    GetInterface(reg, name).Some?
  }
}
