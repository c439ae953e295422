/** The connection multiplexer of the IIO layer over a network link: a
    bounded FIFO of accepted client sockets (a circular buffer of
    `MAX_SOCKET_TO_HANDLE` pointers), the slot of the socket currently
    served, and the `-1` sentinel it holds once that client disconnected
    (`_push_sock`, `_pop_sock`, `_get_next_socket`, `network_read`,
    `iio_step`). The transport is a finite script of outcomes; a script that
    runs out while the code would still be waiting means the call blocks. */
module IioMux {
  import opened Common

  /** `MAX_SOCKET_TO_HANDLE`: how many sockets the queue holds. */
  const MAX_SOCKET_TO_HANDLE: nat := 4

  /** A client socket. Sockets are distinct from NULL and from the `-1`
      sentinel, which the slot represents separately. */
  type Sock = nat

  /** `current_sock`: NULL, a live client, or the `-1` sentinel. */
  datatype Cur = Empty | Active(s: Sock) | Disconnected

  /** The multiplexer state: waiting clients, oldest first, and the slot. */
  datatype Mux = Mux(queue: seq<Sock>, cur: Cur)

  type NegInt = x: int | x < 0 witness -1

  /** What `socket_accept` reports: a new client, or a negative code
      (-EAGAIN when no client is waiting). */
  datatype AcceptOutcome = Accepted(s: Sock) | Refused(code: NegInt)

  /** What `socket_recv` reports: some bytes, or a negative code
      (-ENOTCONN when the client went away). */
  datatype RecvOutcome = Got(bytes: seq<octet>) | RecvFailed(code: NegInt)

  /** A call either returns a value within the script or is still waiting
      when the script ends. */
  datatype Run<T> = Returned(value: T) | Blocked

  // ---------------------------------------------------------------------
  // The queue
  // ---------------------------------------------------------------------

  /** The code `cb_write` gives when the buffer has no room, and the one
      `cb_read` gives when it is empty. */
  const QUEUE_FULL: int := -ENOSPC
  const QUEUE_EMPTY: int := -EAGAIN

  datatype Pushed = Pushed(ret: int, mux: Mux)

  /** `_push_sock`: the socket goes to the back of the queue, or the queue
      is full and nothing changes. */
  function Push(m: Mux, s: Sock): (r: Pushed)
    ensures r.ret == SUCCESS || r.ret == QUEUE_FULL
    ensures r.ret == QUEUE_FULL <==> |m.queue| >= MAX_SOCKET_TO_HANDLE
    ensures r.ret == QUEUE_FULL ==> r.mux == m
    ensures r.ret == SUCCESS ==> r.mux == Mux(m.queue + [s], m.cur)
  {
    if |m.queue| >= MAX_SOCKET_TO_HANDLE then Pushed(QUEUE_FULL, m)
    else Pushed(SUCCESS, m.(queue := m.queue + [s]))
  }

  datatype Popped = Popped(ret: int, mux: Mux, s: Option<Sock>)

  /** `_pop_sock`: the oldest socket leaves the queue. */
  function Pop(m: Mux): (r: Popped)
    ensures r.ret == QUEUE_EMPTY <==> |m.queue| == 0
    ensures r.ret == QUEUE_EMPTY ==> r.mux == m && r.s.None?
    ensures r.ret != QUEUE_EMPTY ==>
      r.ret == SUCCESS && r.s == Some(m.queue[0]) && r.mux == Mux(m.queue[1..], m.cur)
  {
    if |m.queue| == 0 then Popped(QUEUE_EMPTY, m, None)
    else Popped(SUCCESS, m.(queue := m.queue[1..]), Some(m.queue[0]))
  }

  /** `_nb_active_sockets`: how many clients wait. */
  function ActiveSockets(m: Mux): nat {
    |m.queue|
  }

  // ---------------------------------------------------------------------
  // Acquiring a connection
  // ---------------------------------------------------------------------

  /** The result of `_get_next_socket`, with the outcomes not consumed. */
  datatype Acquired = Acquired(ret: int, mux: Mux, rest: seq<AcceptOutcome>)

  /** After the accept loop: the oldest waiting socket becomes current; if
      the pop fails the slot is cleared. */
  function TakeNext(m: Mux, rest: seq<AcceptOutcome>): (a: Acquired)
    ensures |m.queue| > 0 ==> a == Acquired(SUCCESS, Mux(m.queue[1..], Active(m.queue[0])), rest)
    ensures |m.queue| == 0 ==> a == Acquired(QUEUE_EMPTY, Mux([], Empty), rest)
  {
    var p := Pop(m);
    if IsError(p.ret) then Acquired(p.ret, p.mux.(cur := Empty), rest)
    else Acquired(SUCCESS, p.mux.(cur := Active(p.s.value)), rest)
  }

  /** `_get_next_socket`: accept clients and queue them until accept would
      block; while no client waits at all, keep waiting; an accept or push
      error is returned at once; then serve the oldest client. */
  function GetNextSocket(m: Mux, script: seq<AcceptOutcome>): (r: Run<Acquired>)
    ensures r.Returned? ==> |r.value.rest| < |script| && r.value.rest == script[|script| - |r.value.rest|..]
    ensures r.Returned? ==> r.value.ret == SUCCESS || r.value.ret < 0
    ensures r.Returned? && r.value.ret == SUCCESS ==> r.value.mux.cur.Active?
    ensures r.Returned? && r.value.ret < 0 ==> r.value.mux.cur == m.cur || r.value.mux.cur == Empty
    decreases |script|
  {
    if |script| == 0 then Blocked
    else
      match script[0]
      case Refused(code) =>
        if code == -EAGAIN then
          if ActiveSockets(m) == 0 then GetNextSocket(m, script[1..])
          else Returned(TakeNext(m, script[1..]))
        else Returned(Acquired(code, m, script[1..]))
      case Accepted(s) =>
        var p := Push(m, s);
        if IsError(p.ret) then Returned(Acquired(p.ret, p.mux, script[1..]))
        else GetNextSocket(p.mux, script[1..])
  }

  /** The sockets a list of accept outcomes delivers, in order. */
  function Sockets(outs: seq<AcceptOutcome>): seq<Sock> {
    if |outs| == 0 then []
    else (if outs[0].Accepted? then [outs[0].s] else []) + Sockets(outs[1..])
  }

  /** The sockets among the first `n` outcomes: those of the first one,
      then those among the next `n - 1`. */
  lemma SocketsOfPrefix(script: seq<AcceptOutcome>, n: nat)
    requires 1 <= n <= |script|
    ensures Sockets(script[..n]) ==
      (if script[0].Accepted? then [script[0].s] else []) + Sockets(script[1..][..n - 1])
  {
    assert script[..n][1..] == script[1..][..n - 1];
  }

  /** The client made current is the one that has waited longest: the head
      of the queue as it was, followed by the clients accepted during the
      call in order of arrival; the rest stay queued in that order. */
  lemma {:induction false} GetNextSocketIsFifo(m: Mux, script: seq<AcceptOutcome>)
    requires GetNextSocket(m, script).Returned? && GetNextSocket(m, script).value.ret == SUCCESS
    ensures var a := GetNextSocket(m, script).value;
      var all := m.queue + Sockets(script[..|script| - |a.rest|]);
      |all| > 0 && a.mux == Mux(all[1..], Active(all[0]))
    decreases |script|
  {
    var tail := script[1..];
    match script[0]
    case Refused(code) =>
      if ActiveSockets(m) == 0 {
        GetNextSocketIsFifo(m, tail);
        FifoWaited(m, script);
      } else {
        FifoServed(m, script);
      }
    case Accepted(s) =>
      var p := Push(m, s);
      GetNextSocketIsFifo(p.mux, tail);
      FifoQueued(m, script);
  }

  /** The step of `GetNextSocketIsFifo` over a would-block with no client
      waiting: nothing changes and the call goes on. */
  lemma FifoWaited(m: Mux, script: seq<AcceptOutcome>)
    requires |script| > 0 && script[0] == Refused(-EAGAIN) && |m.queue| == 0
    requires GetNextSocket(m, script[1..]).Returned?
    requires var a := GetNextSocket(m, script[1..]).value;
      var all := m.queue + Sockets(script[1..][..|script[1..]| - |a.rest|]);
      |all| > 0 && a.mux == Mux(all[1..], Active(all[0]))
    ensures GetNextSocket(m, script) == GetNextSocket(m, script[1..])
    ensures var a := GetNextSocket(m, script).value;
      var all := m.queue + Sockets(script[..|script| - |a.rest|]);
      |all| > 0 && a.mux == Mux(all[1..], Active(all[0]))
  {
    var a := GetNextSocket(m, script).value;
    SocketsOfPrefix(script, |script| - |a.rest|);
  }

  /** The step of `GetNextSocketIsFifo` over a would-block with clients
      waiting: the oldest is served. */
  lemma FifoServed(m: Mux, script: seq<AcceptOutcome>)
    requires |script| > 0 && script[0].Refused? && |m.queue| > 0
    requires GetNextSocket(m, script).Returned? && GetNextSocket(m, script).value.ret == SUCCESS
    ensures var a := GetNextSocket(m, script).value;
      var all := m.queue + Sockets(script[..|script| - |a.rest|]);
      |all| > 0 && a.mux == Mux(all[1..], Active(all[0]))
  {
    var a := GetNextSocket(m, script).value;
    assert a == TakeNext(m, script[1..]);
    SocketsOfPrefix(script, 1);
    assert Sockets(script[1..][..0]) == [];
  }

  /** The step of `GetNextSocketIsFifo` over an accepted client: it joins
      the back of the queue and the call goes on. */
  lemma FifoQueued(m: Mux, script: seq<AcceptOutcome>)
    requires |script| > 0 && script[0].Accepted?
    requires GetNextSocket(m, script).Returned? && GetNextSocket(m, script).value.ret == SUCCESS
    requires var p := Push(m, script[0].s);
      GetNextSocket(p.mux, script[1..]).Returned? &&
      var a := GetNextSocket(p.mux, script[1..]).value;
      var all := p.mux.queue + Sockets(script[1..][..|script[1..]| - |a.rest|]);
      |all| > 0 && a.mux == Mux(all[1..], Active(all[0]))
    ensures var a := GetNextSocket(m, script).value;
      var all := m.queue + Sockets(script[..|script| - |a.rest|]);
      |all| > 0 && a.mux == Mux(all[1..], Active(all[0]))
  {
    var p := Push(m, script[0].s);
    assert p.ret == SUCCESS && p.mux.queue == m.queue + [script[0].s];
    var a := GetNextSocket(p.mux, script[1..]).value;
    assert GetNextSocket(m, script) == Returned(a);
    QueuedFirst(m.queue, script, |script| - |a.rest|);
  }

  /** The clients known after queueing the first accepted one and reading
      `n - 1` more outcomes are those known before reading all `n`. */
  lemma QueuedFirst(q: seq<Sock>, script: seq<AcceptOutcome>, n: nat)
    requires 1 <= n <= |script| && script[0].Accepted?
    ensures q + Sockets(script[..n]) == (q + [script[0].s]) + Sockets(script[1..][..n - 1])
  {
    SocketsOfPrefix(script, n);
  }

  /** A fifth client arriving while four wait is refused with the queue's
      error and the state is left as it was; accepting it is not retried. */
  lemma FifthClientRefused(q: seq<Sock>, cur: Cur, s: Sock, rest: seq<AcceptOutcome>)
    requires |q| == MAX_SOCKET_TO_HANDLE
    ensures GetNextSocket(Mux(q, cur), [Accepted(s)] + rest) == Returned(Acquired(QUEUE_FULL, Mux(q, cur), rest))
  {
    assert ([Accepted(s)] + rest)[1..] == rest;
  }

  /** With no client waiting, the call does not return before a client
      arrives: would-block outcomes alone keep it waiting. */
  lemma WaitsForFirstClient(cur: Cur, k: nat)
    ensures GetNextSocket(Mux([], cur), seq(k, _ => Refused(-EAGAIN))) == Blocked
  {
    if k > 0 {
      var script := seq(k, _ => Refused(-EAGAIN));
      assert script[1..] == seq(k - 1, _ => Refused(-EAGAIN));
      WaitsForFirstClient(cur, k - 1);
    }
  }

  // ---------------------------------------------------------------------
  // The invariant of the multiplexer
  // ---------------------------------------------------------------------

  predicate Distinct(q: seq<Sock>) {
    forall i, j | 0 <= i < j < |q| :: q[i] != q[j]
  }

  /** How many clients the multiplexer holds: the waiting ones and the
      current one. */
  function Clients(m: Mux): nat {
    |m.queue| + if m.cur.Active? then 1 else 0
  }

  /** At most `MAX_SOCKET_TO_HANDLE` clients are held, counting the current
      one, none twice, and the current one is not also waiting. */
  predicate Inv(m: Mux) {
    Clients(m) <= MAX_SOCKET_TO_HANDLE && Distinct(m.queue) &&
    (m.cur.Active? ==> m.cur.s !in m.queue)
  }

  /** The clients a script delivers are new: each once, and none already
      queued or current. */
  predicate Fresh(m: Mux, script: seq<AcceptOutcome>) {
    var ss := Sockets(script);
    Distinct(ss) && forall k | 0 <= k < |ss| :: ss[k] !in m.queue && m.cur != Active(ss[k])
  }

  /** Acquiring a client from an empty slot keeps the invariant, provided
      the clients accepted are new. */
  lemma {:induction false} GetNextSocketKeepsInv(m: Mux, script: seq<AcceptOutcome>)
    requires Inv(m) && !m.cur.Active? && Fresh(m, script)
    ensures GetNextSocket(m, script).Returned? ==> Inv(GetNextSocket(m, script).value.mux)
    decreases |script|
  {
    if |script| > 0 {
      var tail := script[1..];
      match script[0]
      case Refused(code) =>
        assert Sockets(script) == Sockets(tail);
        if code == -EAGAIN && ActiveSockets(m) == 0 {
          GetNextSocketKeepsInv(m, tail);
        }
      case Accepted(s) =>
        var ss := Sockets(script);
        assert ss == [s] + Sockets(tail);
        var p := Push(m, s);
        if p.ret == SUCCESS {
          assert forall k | 0 <= k < |Sockets(tail)| :: Sockets(tail)[k] == ss[k + 1];
          assert ss[0] == s;
          GetNextSocketKeepsInv(p.mux, tail);
        }
    }
  }

  // ---------------------------------------------------------------------
  // Reading from the current client
  // ---------------------------------------------------------------------

  /** The receive loop's outcome: the bytes gathered, the failure that
      stopped it if any, and the outcomes not consumed. */
  datatype Received = Received(got: seq<octet>, failure: Option<NegInt>, rest: seq<RecvOutcome>)

  /** The `do { recv(len - i) } while (i < len)` loop: each receive asks
      for what is still missing (so delivers no more than that); a failure
      ends the loop. The loop body runs at least once, even for `len == 0`. */
  function RecvLoop(len: nat, got: seq<octet>, script: seq<RecvOutcome>): (r: Run<Received>)
    requires |got| <= len
    ensures r.Returned? ==> |r.value.got| <= len && |r.value.rest| < |script|
    ensures r.Returned? && r.value.failure.None? ==> |r.value.got| == len
    decreases |script|
  {
    if |script| == 0 then Blocked
    else
      match script[0]
      case RecvFailed(code) => Returned(Received(got, Some(code), script[1..]))
      case Got(bytes) =>
        var want := len - |got|;
        var take := if |bytes| <= want then bytes else bytes[..want];
        var got2 := got + take;
        if |got2| < len then RecvLoop(len, got2, script[1..])
        else Returned(Received(got2, None, script[1..]))
  }

  /** All bytes a list of receive outcomes delivers, in order. */
  function Bytes(outs: seq<RecvOutcome>): seq<octet> {
    if |outs| == 0 then []
    else (if outs[0].Got? then outs[0].bytes else []) + Bytes(outs[1..])
  }

  /** The loop gathers the bytes the transport delivered, in order: all of
      them when a failure stopped it, the first `len` otherwise. */
  lemma {:induction false} RecvLoopGathers(len: nat, got: seq<octet>, script: seq<RecvOutcome>)
    requires |got| <= len && RecvLoop(len, got, script).Returned?
    ensures var rv := RecvLoop(len, got, script).value;
      var delivered := got + Bytes(script[..|script| - |rv.rest|]);
      (rv.failure.Some? ==> rv.got == delivered) &&
      (rv.failure.None? ==> |delivered| >= len && rv.got == delivered[..len])
    decreases |script|
  {
    var rv := RecvLoop(len, got, script).value;
    var n := |script| - |rv.rest|;
    var tail := script[1..];
    assert script[..n] == [script[0]] + tail[..n - 1];
    assert Bytes(script[..n]) ==
      (if script[0].Got? then script[0].bytes else []) + Bytes(tail[..n - 1]);
    match script[0]
    case RecvFailed(code) =>
      assert n == 1;
      assert Bytes(tail[..0]) == [];
    case Got(bytes) =>
      var want := len - |got|;
      var take := if |bytes| <= want then bytes else bytes[..want];
      var got2 := got + take;
      if |got2| < len {
        RecvLoopGathers(len, got2, tail);
        assert take == bytes;
        assert got + Bytes(script[..n]) == got2 + Bytes(tail[..n - 1]);
      } else {
        assert n == 1;
        var delivered := got + Bytes(script[..n]);
        assert delivered == got + bytes + Bytes(tail[..0]);
        assert delivered[..len] == got2;
      }
  }

  /** The byte `*` the code leaves at the start of the buffer on a
      receive failure. */
  const STAR: octet := 0x2A

  /** The result of `network_read`: the return value, the bytes the call
      left at the start of the caller's buffer, the new state and the
      outcomes not consumed. */
  datatype ReadOut = ReadOut(ret: int, data: seq<octet>, mux: Mux,
                             accepts: seq<AcceptOutcome>, recvs: seq<RecvOutcome>)

  /** The bytes of the buffer a read defines: what was received, with the
      first byte replaced by `*` if a receive failed (also when nothing was
      received). */
  function Marked(got: seq<octet>, failed: bool): (d: seq<octet>)
    ensures failed ==> |d| == (if |got| == 0 then 1 else |got|) && d[0] == STAR
    ensures failed && |got| > 0 ==> d[1..] == got[1..]
    ensures !failed ==> d == got
  {
    if !failed then got
    else if |got| == 0 then [STAR]
    else [STAR] + got[1..]
  }

  /** Reading from the current client: the number of bytes gathered is
      returned even after a failure, and a read that returns less than `len`
      has marked the buffer; -ENOTCONN, and only it, drops the client and
      leaves the sentinel in the slot. */
  function Receive(m: Mux, len: nat, accepts: seq<AcceptOutcome>, recvs: seq<RecvOutcome>): (r: Run<ReadOut>)
    requires m.cur.Active?
    ensures r.Blocked? <==> RecvLoop(len, [], recvs).Blocked?
    ensures r.Returned? ==> 0 <= r.value.ret <= len && r.value.mux.queue == m.queue
    ensures r.Returned? && r.value.ret < len ==> |r.value.data| >= 1 && r.value.data[0] == STAR
    ensures r.Returned? ==>
      r.value.mux.cur == (if RecvLoop(len, [], recvs).value.failure == Some(-ENOTCONN) then Disconnected else m.cur)
  {
    match RecvLoop(len, [], recvs)
    case Blocked => Blocked
    case Returned(rv) =>
      var m2 := if rv.failure == Some(-ENOTCONN) then m.(cur := Disconnected) else m;
      Returned(ReadOut(|rv.got|, Marked(rv.got, rv.failure.Some?), m2, accepts, rv.rest))
  }

  /** `network_read`: -1 at once when the slot holds the sentinel; with an
      empty slot a client is acquired first (its errors are returned, the
      slot left empty); then the current client is read. */
  function NetworkRead(m: Mux, len: nat, accepts: seq<AcceptOutcome>, recvs: seq<RecvOutcome>): (r: Run<ReadOut>)
    ensures m.cur == Disconnected ==> r == Returned(ReadOut(-1, [], m, accepts, recvs))
    ensures r.Returned? ==> r.value.ret <= len
    ensures r.Returned? && m.cur != Disconnected ==>
      (r.value.ret < 0 <==> r.value.mux.cur == Empty) &&
      (r.value.ret < 0 ==> r.value.data == [] && r.value.recvs == recvs)
    ensures m.cur.Active? ==> r == Receive(m, len, accepts, recvs)
  {
    if m.cur == Disconnected then Returned(ReadOut(-1, [], m, accepts, recvs))
    else if m.cur == Empty then
      match GetNextSocket(m, accepts)
      case Blocked => Blocked
      case Returned(a) =>
        if IsError(a.ret) then Returned(ReadOut(a.ret, [], a.mux, a.rest, recvs))
        else Receive(a.mux, len, a.rest, recvs)
    else Receive(m, len, accepts, recvs)
  }

  /** A read keeps the invariant, provided the clients accepted are new. */
  lemma NetworkReadKeepsInv(m: Mux, len: nat, accepts: seq<AcceptOutcome>, recvs: seq<RecvOutcome>)
    requires Inv(m) && Fresh(m, accepts)
    ensures NetworkRead(m, len, accepts, recvs).Returned? ==> Inv(NetworkRead(m, len, accepts, recvs).value.mux)
  {
    if m.cur == Empty {
      GetNextSocketKeepsInv(m, accepts);
    }
  }

  // ---------------------------------------------------------------------
  // Stepping
  // ---------------------------------------------------------------------

  /** `iio_step` up to the point where it hands over to the command
      reader: a live current client goes back to the end of the queue (a
      full queue makes the step fail with nothing changed); the slot is
      then cleared, dropping the sentinel. SUCCESS here means the command
      reader runs next. */
  function Step(m: Mux): (r: Pushed)
    ensures r.ret == SUCCESS || r.ret == QUEUE_FULL
    ensures r.ret == SUCCESS ==> r.mux.cur == Empty
    ensures r.ret == SUCCESS ==> r.mux.queue == m.queue + (if m.cur.Active? then [m.cur.s] else [])
    ensures r.ret == QUEUE_FULL <==> m.cur.Active? && |m.queue| >= MAX_SOCKET_TO_HANDLE
    ensures r.ret == QUEUE_FULL ==> r.mux == m
  {
    if m.cur.Active? then
      var p := Push(m, m.cur.s);
      if IsError(p.ret) then p else Pushed(SUCCESS, p.mux.(cur := Empty))
    else Pushed(SUCCESS, m.(cur := Empty))
  }

  /** Under the invariant a step never fails: there is always room to put
      the current client back, and the invariant still holds afterwards. */
  lemma StepKeepsInv(m: Mux)
    requires Inv(m)
    ensures Step(m).ret == SUCCESS && Inv(Step(m).mux)
  {
  }

  /** Clients are served in turn: after a step, a read that finds no new
      client serves the one that has waited longest, and the client just
      served goes to the back of the line. */
  lemma RoundRobin(q: seq<Sock>, s: Sock, len: nat, accepts: seq<AcceptOutcome>, recvs: seq<RecvOutcome>)
    requires Inv(Mux(q, Active(s)))
    ensures var m := Step(Mux(q, Active(s))).mux;
      m == Mux(q + [s], Empty) &&
      NetworkRead(m, len, [Refused(-EAGAIN)] + accepts, recvs) ==
        Receive(Mux((q + [s])[1..], Active((q + [s])[0])), len, accepts, recvs)
  {
    assert ([Refused(-EAGAIN)] + accepts)[1..] == accepts;
  }

  /** The sentinel stays until the next step: reads return -1 and consume
      nothing, and the step clears the slot without queueing anything. */
  lemma DisconnectedUntilStep(q: seq<Sock>, len: nat, accepts: seq<AcceptOutcome>, recvs: seq<RecvOutcome>)
    ensures NetworkRead(Mux(q, Disconnected), len, accepts, recvs) ==
      Returned(ReadOut(-1, [], Mux(q, Disconnected), accepts, recvs))
    ensures Step(Mux(q, Disconnected)) == Pushed(SUCCESS, Mux(q, Empty))
  {
  }

  /** A client that goes away mid-read: the bytes gathered so far are
      returned with the buffer marked, and the slot holds the sentinel. */
  lemma NotConnectedScenario(s: Sock, q: seq<Sock>, accepts: seq<AcceptOutcome>)
    ensures NetworkRead(Mux(q, Active(s)), 8, accepts, [Got([1, 2, 3]), RecvFailed(-ENOTCONN)]) ==
      Returned(ReadOut(3, [STAR, 2, 3], Mux(q, Disconnected), accepts, []))
  {
    var three: seq<octet> := [1, 2, 3];
    var script: seq<RecvOutcome> := [Got(three), RecvFailed(-ENOTCONN)];
    assert script[1..] == [RecvFailed(-ENOTCONN)];
    assert [] + three == three;
    assert RecvLoop(8, three, script[1..]) == Returned(Received(three, Some(-ENOTCONN), []));
    assert RecvLoop(8, [], script) == Returned(Received(three, Some(-ENOTCONN), []));
    assert Marked(three, true) == [STAR, 2, 3];
  }
}
