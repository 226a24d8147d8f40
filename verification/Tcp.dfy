/** One TCP connection (kernel/src/net/tcp.rs): its state, sequence numbers, receive buffer and retransmission
    counter. Packets are their header fields and payload; the clock is a parameter. */
module Tcp {
  import opened Wrappers

  const MOD32: nat := 0x1_0000_0000
  const MOD64: nat := 0x1_0000_0000_0000_0000
  const BUFFER: nat := 4096
  const HEADER: nat := 20
  const PACKET: nat := 200
  const WINDOW: nat := 65535
  const MAX_RETRIES: nat := 5
  const MIN_TIMEOUT: nat := 1000
  const MAX_TIMEOUT: nat := 30000

  datatype Phase =
    | Closed | Listen | SynSent | SynReceived | Established
    | FinWait1 | FinWait2 | CloseWait | Closing | LastAck | TimeWait

  datatype Flags = Flags(fin: bool, syn: bool, rst: bool, psh: bool, ack: bool)

  const SYN := Flags(false, true, false, false, false)
  const ACK := Flags(false, false, false, false, true)
  const ACK_PSH := Flags(false, false, false, true, true)
  const FIN_ACK := Flags(true, false, false, false, true)

  datatype Packet = Packet(num: nat, ack: nat, flags: Flags, window: nat, payload: seq<bv8>)

  datatype Conn = Conn(phase: Phase, sendSeq: nat, sendUnack: nat, recvSeq: nat, sendWindow: nat, timeout: nat,
                       lastActivity: nat, retries: nat, received: seq<bv8>)

  // What can happen to a connection; `now` is the tick counter.
  datatype Op = Segment(flags: Flags, num: nat, ack: nat, window: nat, payload: seq<bv8>, now: nat)
              | Send(data: seq<bv8>)
              | Close
              | Retransmit(now: nat)

  function Wrap(n: nat): nat { n % MOD32 }

  function InFlight(c: Conn): nat { (c.sendSeq + MOD32 - c.sendUnack % MOD32) % MOD32 }

  // advertised_recv_window
  function Advertised(c: Conn): nat {
    var left := if |c.received| <= BUFFER then BUFFER - |c.received| else 0;
    if left < BUFFER / 4 then left else WINDOW
  }

  // build_tcp_packet: nothing if it does not fit the 200-byte buffer.
  function Built(p: Packet): Option<Packet> { if HEADER + |p.payload| <= PACKET then Some(p) else None }

  function NewConn(isn: nat): Conn { Conn(Closed, isn, 0, 0, WINDOW, MIN_TIMEOUT, 0, 0, []) }

  // build_syn on a closed connection
  function Opened(c: Conn, now: nat): (Conn, Option<Packet>) {
    if c.phase != Closed then (c, None)
    else (c.(phase := SynSent, sendUnack := c.sendSeq, sendSeq := Wrap(c.sendSeq + 1), lastActivity := now),
          Built(Packet(c.sendSeq, 0, SYN, WINDOW, [])))
  }

  function Min(a: nat, b: nat): nat { if a < b then a else b }

  // The payload appended as far as the buffer goes.
  function Buffered(buf: seq<bv8>, payload: seq<bv8>): (r: seq<bv8>)
    requires |buf| <= BUFFER
    ensures |r| <= BUFFER
  {
    buf + payload[..Min(|payload|, BUFFER - |buf|)]
  }

  // process_segment in Established: acknowledgement, data, end of data.
  function Acked(c: Conn, op: Op): Conn
    requires op.Segment?
  {
    if !op.flags.ack then c
    else c.(sendUnack := op.ack, retries := 0, sendWindow := if op.window > 0 then op.window else c.sendWindow)
  }

  function Arrived(c: Conn, op: Op): (Conn, Option<Packet>)
    requires op.Segment? && |c.received| <= BUFFER
  {
    var c1 := Acked(c, op);
    var c2 := if op.payload == [] then c1
              else c1.(received := Buffered(c1.received, op.payload), recvSeq := Wrap(c1.recvSeq + |op.payload|));
    var r2 := if op.payload == [] then None else Built(Packet(c2.sendSeq, c2.recvSeq, ACK, Advertised(c2), []));
    if op.flags.fin then
      var c3 := c2.(recvSeq := Wrap(c2.recvSeq + 1), phase := CloseWait);
      (c3, Built(Packet(c3.sendSeq, c3.recvSeq, ACK, WINDOW, [])))
    else (c2, r2)
  }

  // The peer's FIN while we wait to finish.
  function Finished(c: Conn, op: Op): (Conn, Option<Packet>)
    requires op.Segment?
  {
    if op.flags.fin then
      var c1 := c.(recvSeq := Wrap(c.recvSeq + 1));
      (c1.(phase := TimeWait), Built(Packet(c1.sendSeq, c1.recvSeq, ACK, Advertised(c1), [])))
    else (c, None)
  }

  // Our FIN.
  function Finishing(c: Conn, phase: Phase): (Conn, Option<Packet>) {
    (c.(sendSeq := Wrap(c.sendSeq + 1), phase := phase),
     Built(Packet(c.sendSeq, c.recvSeq, FIN_ACK, Advertised(c), [])))
  }

  // process_segment
  function Processed(c0: Conn, op: Op): (Conn, Option<Packet>)
    requires op.Segment? && |c0.received| <= BUFFER
  {
    var c := c0.(lastActivity := op.now);
    match c.phase
    case SynSent =>
      if op.flags.syn && op.flags.ack then
        var c1 := c.(recvSeq := Wrap(op.num + 1), phase := Established);
        (c1, Built(Packet(c1.sendSeq, c1.recvSeq, ACK, WINDOW, [])))
      else if op.flags.rst then (c.(phase := Closed), None)
      else (c, None)
    case SynReceived => (if op.flags.ack then c.(recvSeq := op.num, phase := Established) else c, None)
    case Established => Arrived(c, op)
    case CloseWait => Finishing(c, LastAck)
    case FinWait1 => Finished(if op.flags.ack then c.(sendUnack := op.ack, phase := FinWait2) else c, op)
    case FinWait2 => Finished(c, op)
    case LastAck => (if op.flags.ack then c.(phase := Closed) else c, None)
    case Closing => (if op.flags.ack then c.(phase := TimeWait) else c, None)
    case TimeWait => (c, None)
    case Listen => (c, None)
    case Closed => (c, None)
  }

  // send_data
  function Sent(c: Conn, data: seq<bv8>): (Conn, Option<Packet>) {
    if c.phase != Established then (c, None) else
    var flight := InFlight(c);
    var available := if c.sendWindow > flight then c.sendWindow - flight else 0;
    if available == 0 then (c, None) else
    var chunk := data[..Min(|data|, available)];
    match Built(Packet(c.sendSeq, c.recvSeq, ACK_PSH, Advertised(c), chunk))
    case None => (c, None)
    case Some(p) => (c.(sendSeq := Wrap(c.sendSeq + |chunk|)), Some(p))
  }

  // close
  function Shut(c: Conn): (Conn, Option<Packet>) {
    if c.phase == Established || c.phase == CloseWait then Finishing(c, FinWait1) else (c.(phase := Closed), None)
  }

  // check_retransmit
  function Retried(c: Conn, now: nat): (Conn, Option<Packet>) {
    if c.phase != Established || InFlight(c) == 0 then (c, None)
    else if (now + MOD64 - c.lastActivity % MOD64) % MOD64 < c.timeout / 10 then (c, None)
    else if c.retries + 1 > MAX_RETRIES then (c.(retries := c.retries + 1, phase := Closed), None)
    else
      var c1 := c.(retries := c.retries + 1, timeout := Min(c.timeout * 2, MAX_TIMEOUT), lastActivity := now);
      (c1, Built(Packet(c1.sendUnack, c1.recvSeq, ACK, Advertised(c1), [])))
  }

  function Step(c: Conn, op: Op): (Conn, Option<Packet>)
    requires |c.received| <= BUFFER
  {
    match op
    case Segment(_, _, _, _, _, _) => Processed(c, op)
    case Send(data) => Sent(c, data)
    case Close => Shut(c)
    case Retransmit(now) => Retried(c, now)
  }

  // ---------------------------------------------------------------- one step

  predicate IsData(r: Option<Packet>) { r.Some? && r.value.flags.psh }
  predicate IsFin(r: Option<Packet>) { r.Some? && r.value.flags.fin }

  // How much of the sequence space an answer takes.
  function Span(r: Option<Packet>): nat { if IsFin(r) then 1 else if IsData(r) then |r.value.payload| else 0 }

  // Phases before our FIN and phases after it.
  predicate Open(p: Phase) { p == SynSent || p == SynReceived || p == Established || p == CloseWait }
  predicate Done(p: Phase) { p == Closed || p == FinWait1 || p == FinWait2 || p == LastAck || p == TimeWait }

  ghost predicate Inv(c: Conn) {
    && (Open(c.phase) || Done(c.phase)) && |c.received| <= BUFFER && c.sendSeq < MOD32
    && MIN_TIMEOUT <= c.timeout <= MAX_TIMEOUT && (c.phase == Established ==> c.retries <= MAX_RETRIES)
    && (c.phase == SynSent || c.phase == SynReceived ==> c.retries == 0)
  }

  // Data goes out only before our FIN, the FIN only once, each numbered with the next unused sequence number.
  ghost predicate StepOk(c: Conn, c': Conn, r: Option<Packet>) {
    && Inv(c') && c'.sendSeq == Wrap(c.sendSeq + Span(r))
    && (IsData(r) || IsFin(r) ==> Open(c.phase) && r.value.num == c.sendSeq && !(IsData(r) && IsFin(r)))
    && (IsFin(r) ==> Done(c'.phase)) && (Done(c.phase) ==> Done(c'.phase))
  }

  lemma SegmentKeeps(c: Conn, op: Op)
    requires Inv(c) && op.Segment?
    ensures var (c', r) := Processed(c, op); StepOk(c, c', r)
  {
  }

  lemma SendKeeps(c: Conn, data: seq<bv8>)
    requires Inv(c)
    ensures var (c', r) := Sent(c, data); StepOk(c, c', r)
  {
  }

  lemma RetryKeeps(c: Conn, now: nat)
    requires Inv(c)
    ensures var (c', r) := Retried(c, now); StepOk(c, c', r)
  {
  }

  lemma StepKeeps(c: Conn, op: Op)
    requires Inv(c)
    ensures var (c', r) := Step(c, op); StepOk(c, c', r)
  {
    hide StepOk, Processed, Sent, Retried;
    match op
    case Segment(f, n, a, w, p, now) => SegmentKeeps(c, op);
    case Send(data) => SendKeeps(c, data);
    case Close => CloseKeeps(c);
    case Retransmit(now) => RetryKeeps(c, now);
  }

  lemma CloseKeeps(c: Conn)
    requires Inv(c)
    ensures var (c', r) := Shut(c); StepOk(c, c', r)
  {
  }

  /** What is sent fits the peer's window: after send_data no more is in flight than it allows. */
  lemma WindowRespected(c: Conn, data: seq<bv8>)
    requires Inv(c) && c.sendUnack < MOD32 && c.sendWindow <= WINDOW && Sent(c, data).1.Some?
    ensures InFlight(Sent(c, data).0) == InFlight(c) + |Sent(c, data).1.value.payload| <= c.sendWindow
  {
  }

  // ---------------------------------------------------------------- whole runs

  ghost function Final(c: Conn, ops: seq<Op>): (r: Conn)
    requires Inv(c)
    ensures Inv(r)
    decreases |ops|
  {
    StepKeepsAll();
    if ops == [] then c else Final(Step(c, ops[0]).0, ops[1..])
  }

  ghost function Answers(c: Conn, ops: seq<Op>): (r: seq<Option<Packet>>)
    requires Inv(c)
    ensures |r| == |ops|
    decreases |ops|
  {
    StepKeepsAll();
    if ops == [] then [] else [Step(c, ops[0]).1] + Answers(Step(c, ops[0]).0, ops[1..])
  }

  lemma StepKeepsAll()
    ensures forall c, op :: Inv(c) ==> Inv(Step(c, op).0)
  {
    forall c, op | Inv(c) ensures Inv(Step(c, op).0) { StepKeeps(c, op); }
  }

  // Payload bytes sent, and FINs sent.
  function Bytes(rs: seq<Option<Packet>>): nat {
    if rs == [] then 0 else (if IsData(rs[0]) then |rs[0].value.payload| else 0) + Bytes(rs[1..])
  }
  function Fins(rs: seq<Option<Packet>>): nat {
    if rs == [] then 0 else (if IsFin(rs[0]) then 1 else 0) + Fins(rs[1..])
  }

  lemma WrapPlus(x: nat, y: nat)
    ensures Wrap(Wrap(x) + y) == Wrap(x + y)
  {
  }

  // After our FIN neither data nor another FIN.
  lemma {:induction false} NothingAfterFin(c: Conn, ops: seq<Op>)
    requires Inv(c) && Done(c.phase)
    ensures forall i :: 0 <= i < |ops| ==> !IsData(Answers(c, ops)[i]) && !IsFin(Answers(c, ops)[i])
    ensures Bytes(Answers(c, ops)) == 0 && Fins(Answers(c, ops)) == 0
    decreases |ops|
  {
    if ops == [] {
    } else {
      StepKeeps(c, ops[0]);
      NothingAfterFin(Step(c, ops[0]).0, ops[1..]);
    }
  }

  ghost predicate InOrder(rs: seq<Option<Packet>>) {
    forall i, j :: 0 <= i < j < |rs| && IsFin(rs[i]) ==> !IsData(rs[j]) && !IsFin(rs[j])
  }

  // Every data packet and the FIN carry the number of the first byte not sent before.
  ghost predicate Numbered(rs: seq<Option<Packet>>, from: nat) {
    forall i :: 0 <= i < |rs| && (IsData(rs[i]) || IsFin(rs[i])) ==>
      rs[i].value.num == Wrap(from + Bytes(rs[..i]) + Fins(rs[..i]))
  }

  lemma NumberedMore(r: Option<Packet>, rs: seq<Option<Packet>>, from: nat)
    requires Numbered(rs, Wrap(from + Span(r))) && (IsData(r) || IsFin(r) ==> r.value.num == Wrap(from))
    requires !(IsData(r) && IsFin(r))
    ensures Numbered([r] + rs, from)
  {
    var all := [r] + rs;
    forall i | 0 <= i < |all| && (IsData(all[i]) || IsFin(all[i]))
      ensures all[i].value.num == Wrap(from + Bytes(all[..i]) + Fins(all[..i]))
    {
      if i > 0 {
        assert all[..i][1..] == rs[..i - 1] && all[i] == rs[i - 1];
        WrapPlus(from + Span(r), Bytes(rs[..i - 1]) + Fins(rs[..i - 1]));
      }
    }
  }

  lemma {:induction false} RunFrom(c: Conn, ops: seq<Op>)
    requires Inv(c)
    ensures var rs := Answers(c, ops);
            && Final(c, ops).sendSeq == Wrap(c.sendSeq + Bytes(rs) + Fins(rs))
            && Fins(rs) <= 1 && InOrder(rs) && Numbered(rs, c.sendSeq)
    decreases |ops|
  {
    hide Step, StepOk, Numbered;
    if ops == [] {
      NumberedNone(c.sendSeq);
    } else {
      StepKeeps(c, ops[0]);
      StepFacts(c, Step(c, ops[0]).0, Step(c, ops[0]).1);
      var c1, r := Step(c, ops[0]).0, Step(c, ops[0]).1;
      var rest := Answers(c1, ops[1..]);
      RunFrom(c1, ops[1..]);
      WrapPlus(c.sendSeq + Span(r), Bytes(rest) + Fins(rest));
      NumberedMore(r, rest, c.sendSeq);
      if IsFin(r) { NothingAfterFin(c1, ops[1..]); }
    }
  }

  lemma NumberedNone(from: nat)
    ensures Numbered([], from)
  {
  }

  lemma StepFacts(c: Conn, c': Conn, r: Option<Packet>)
    requires StepOk(c, c', r) && Inv(c)
    ensures Inv(c') && c'.sendSeq == Wrap(c.sendSeq + Span(r)) && c.sendSeq == Wrap(c.sendSeq)
    ensures IsData(r) || IsFin(r) ==> r.value.num == c.sendSeq && !(IsData(r) && IsFin(r))
    ensures IsFin(r) ==> Done(c'.phase)
  {
  }

  /** A connection opened with initial number `isn`: whatever then arrives and is asked of it, its next number is
      isn + 1 + bytes sent + FINs sent, there is at most one FIN, no data follows it, and the packets number the
      stream without gap or overlap. */
  lemma SequenceNumbers(isn: nat, now: nat, ops: seq<Op>)
    requires isn < MOD32
    ensures var c := Opened(NewConn(isn), now).0;
            && Inv(c) && var rs := Answers(c, ops);
            && Final(c, ops).sendSeq == Wrap(isn + 1 + Bytes(rs) + Fins(rs))
            && Fins(rs) <= 1 && InOrder(rs) && Numbered(rs, isn + 1)
  {
    hide Numbered, InOrder;
    var c := Opened(NewConn(isn), now).0;
    RunFrom(c, ops);
    var rs := Answers(c, ops);
    WrapPlus(isn + 1, Bytes(rs) + Fins(rs));
    NumberedWrapped(rs, isn + 1);
  }

  lemma NumberedWrapped(rs: seq<Option<Packet>>, from: nat)
    requires Numbered(rs, Wrap(from))
    ensures Numbered(rs, from)
  {
    forall i | 0 <= i < |rs| && (IsData(rs[i]) || IsFin(rs[i]))
      ensures rs[i].value.num == Wrap(from + Bytes(rs[..i]) + Fins(rs[..i])) {
      WrapPlus(from, Bytes(rs[..i]) + Fins(rs[..i]));
    }
  }

  // ---------------------------------------------------------------- receiving

  // The payloads that arrive while the connection is established.
  ghost function Delivered(c: Conn, ops: seq<Op>): seq<bv8>
    requires Inv(c)
    decreases |ops|
  {
    StepKeepsAll();
    if ops == [] then []
    else
      var now := if c.phase == Established && ops[0].Segment? then ops[0].payload else [];
      now + Delivered(Step(c, ops[0]).0, ops[1..])
  }

  function Cut(s: seq<bv8>): seq<bv8> { s[..Min(|s|, BUFFER)] }

  lemma StepReceives(c: Conn, op: Op)
    requires Inv(c)
    ensures Step(c, op).0.received == Cut(c.received + if c.phase == Established && op.Segment? then op.payload else [])
  {
    assert c.received + [] == c.received;
  }

  lemma CutMore(a: seq<bv8>, b: seq<bv8>, d: seq<bv8>)
    ensures Cut(Cut(a + b) + d) == Cut(a + (b + d))
  {
  }

  /** The receive buffer is the first 4096 bytes of all payloads that arrived while established. */
  lemma {:induction false} ReceiveBuffer(c: Conn, ops: seq<Op>)
    requires Inv(c)
    ensures Final(c, ops).received == Cut(c.received + Delivered(c, ops))
    decreases |ops|
  {
    hide Step, Cut;
    if ops == [] {
      CutShort(c.received);
    } else {
      StepKeepsAll();
      StepReceives(c, ops[0]);
      ReceiveBuffer(Step(c, ops[0]).0, ops[1..]);
      CutMore(c.received, if c.phase == Established && ops[0].Segment? then ops[0].payload else [],
              Delivered(Step(c, ops[0]).0, ops[1..]));
    }
  }

  lemma CutShort(s: seq<bv8>)
    requires |s| <= BUFFER
    ensures Cut(s + []) == s
  {
  }

  /** All payload acknowledged so far is in the buffer exactly if it fits: what is cut off is acknowledged all the
      same. */
  lemma AcknowledgedIsKeptIff(c: Conn, ops: seq<Op>)
    requires Inv(c)
    ensures Final(c, ops).received == c.received + Delivered(c, ops)
            <==> |c.received| + |Delivered(c, ops)| <= BUFFER
  {
    ReceiveBuffer(c, ops);
    var all := c.received + Delivered(c, ops);
    assert |all| <= BUFFER ==> Cut(all) == all;
    assert |all| > BUFFER ==> |Cut(all)| < |all|;
  }

  // ---------------------------------------------------------------- the peer's stream

  // While established, every segment with data carries the number expected next.
  ghost predicate InSequence(c: Conn, ops: seq<Op>)
    requires Inv(c)
    decreases |ops|
  {
    StepKeepsAll();
    ops == [] || (&& (Arrives(c, ops[0]) && ops[0].payload != [] ==> Wrap(ops[0].num) == Wrap(c.recvSeq))
                  && InSequence(Step(c, ops[0]).0, ops[1..]))
  }

  predicate Arrives(c: Conn, op: Op) { c.phase == Established && op.Segment? }

  // How far the number is past the first of the stream, modulo 2^32.
  function Offset(num: nat, base: nat): nat { Wrap(num) + MOD32 - Wrap(base) }

  // The n places of the peer's stream from k on, in its 32-bit numbering.
  function Places(k: nat, n: nat): (r: seq<nat>)
    ensures |r| == n && forall i :: 0 <= i < n ==> r[i] == Wrap(k + i)
  {
    if n == 0 then [] else Places(k, n - 1) + [Wrap(k + n - 1)]
  }

  // The places of the bytes delivered, as the segments number them, when the stream starts at `base`.
  ghost function Placed(c: Conn, ops: seq<Op>, base: nat): (r: seq<nat>)
    requires Inv(c)
    ensures |r| == |Delivered(c, ops)|
    decreases |ops|
  {
    StepKeepsAll();
    if ops == [] then []
    else
      var now := if Arrives(c, ops[0]) then Places(Offset(ops[0].num, base), |ops[0].payload|) else [];
      now + Placed(Step(c, ops[0]).0, ops[1..], base)
  }

  lemma PlacesCut(k: nat, n: nat, m: nat)
    ensures Places(k, n + m) == Places(k, n) + Places(Wrap(k + n), m)
  {
    var all, both := Places(k, n + m), Places(k, n) + Places(Wrap(k + n), m);
    forall i | 0 <= i < n + m ensures all[i] == both[i] {
      if i >= n { WrapPlus(k + n, i - n); }
    }
  }

  lemma PlacesStart(a: nat, b: nat, n: nat)
    ensures n > 0 && Places(a, n) == Places(b, n) ==> Wrap(a) == Wrap(b)
    ensures Wrap(a) == Wrap(b) ==> Places(a, n) == Places(b, n)
  {
    hide Places, Wrap;
    var x, y := Places(a, n), Places(b, n);
    assert n > 0 ==> x[0] == Wrap(a + 0) && y[0] == Wrap(b + 0);
    if Wrap(a) == Wrap(b) {
      forall i | 0 <= i < n ensures x[i] == y[i] {
        WrapPlus(a, i);
        WrapPlus(b, i);
      }
    }
  }

  lemma NextExpected(c: Conn, op: Op)
    requires Inv(c) && c.phase == Established
    ensures Step(c, op).0.phase == Established && op.Segment? ==>
              Step(c, op).0.recvSeq == (if op.payload == [] then c.recvSeq else Wrap(c.recvSeq + |op.payload|))
    ensures !op.Segment? ==> Step(c, op).0.recvSeq == c.recvSeq
    ensures Step(c, op).0.phase != SynSent && Step(c, op).0.phase != SynReceived
  {
    hide Buffered, Advertised, InFlight;
  }

  // Once not established any more, nothing is delivered.
  lemma {:induction false} NothingAfter(c: Conn, ops: seq<Op>, base: nat)
    requires Inv(c) && c.phase != Established && c.phase != SynSent && c.phase != SynReceived
    ensures Delivered(c, ops) == [] && Placed(c, ops, base) == [] && InSequence(c, ops)
    decreases |ops|
  {
    hide Step;
    if ops == [] {
    } else {
      StepKeepsAll();
      StaysClosed(c, ops[0]);
      NothingAfter(Step(c, ops[0]).0, ops[1..], base);
    }
  }

  lemma StaysClosed(c: Conn, op: Op)
    requires Inv(c) && c.phase != Established && c.phase != SynSent && c.phase != SynReceived
    ensures var p := Step(c, op).0.phase; p != Established && p != SynSent && p != SynReceived
  {
    hide Buffered, Advertised, InFlight;
  }

  /** Nothing compares the number of a segment with the one expected. Over every run, what is delivered are the bytes of
      the peer's stream, each once and in order, exactly if every segment with data carries the number expected. */
  lemma {:induction false} StreamIff(c: Conn, ops: seq<Op>, base: nat, k: nat)
    requires Inv(c) && c.phase == Established && c.recvSeq == Wrap(base + k)
    ensures Placed(c, ops, base) == Places(k, |Delivered(c, ops)|) <==> InSequence(c, ops)
    decreases |ops|
  {
    hide Step, Places, Wrap, Offset;
    if ops == [] {
      assert Places(k, 0) == [];
    } else {
      StepKeepsAll();
      var c1, op := Step(c, ops[0]).0, ops[0];
      NextExpected(c, op);
      var now := if op.Segment? then Places(Offset(op.num, base), |op.payload|) else [];
      var n, m := |now|, |Delivered(c1, ops[1..])|;
      var rest := Placed(c1, ops[1..], base);
      PlacesCut(k, n, m);
      SameStart(now, Places(k, n), rest, Places(Wrap(k + n), m));
      FirstPlaced(c, op, base, k);
      if c1.phase == Established {
        ExpectedNext(base, k, n);
        StreamIff(c1, ops[1..], base, Wrap(k + n));
      } else {
        NothingAfter(c1, ops[1..], base);
        assert m == 0 && rest == Places(Wrap(k + n), m);
      }
    }
  }

  lemma FirstPlaced(c: Conn, op: Op, base: nat, k: nat)
    requires c.recvSeq == Wrap(base + k)
    ensures op.Segment? ==>
      (Places(Offset(op.num, base), |op.payload|) == Places(k, |op.payload|)
       <==> op.payload == [] || Wrap(op.num) == Wrap(c.recvSeq))
    ensures Places(k, 0) == []
  {
    hide Places;
    if op.Segment? {
      SameOffset(op.num, base, k);
      PlacesStart(Offset(op.num, base), k, |op.payload|);
      if op.payload == [] { assert Places(k, 0) == []; }
    }
  }

  lemma ExpectedNext(base: nat, k: nat, n: nat)
    ensures Wrap(Wrap(base + k) + n) == Wrap(base + Wrap(k + n))
    ensures n == 0 ==> Wrap(base + k) == Wrap(base + Wrap(k + n))
  {
    WrapPlus(base + k, n);
    WrapPlus(k + n, base);
  }

  lemma SameStart(a: seq<nat>, b: seq<nat>, x: seq<nat>, y: seq<nat>)
    requires |a| == |b|
    ensures a + x == b + y <==> a == b && x == y
  {
    if a + x == b + y {
      assert a == (a + x)[..|a|] && b == (b + y)[..|b|];
      assert x == (a + x)[|a|..] && y == (b + y)[|b|..];
    }
  }

  lemma SameOffset(num: nat, base: nat, k: nat)
    ensures Wrap(Offset(num, base)) == Wrap(k) <==> Wrap(num) == Wrap(base + k)
  {
  }

  // Segments that carry the bytes of the stream `peer` at the places they number.
  ghost predicate Genuine(c: Conn, ops: seq<Op>, base: nat, peer: nat -> bv8)
    requires Inv(c)
    decreases |ops|
  {
    StepKeepsAll();
    ops == [] || (&& (Arrives(c, ops[0]) ==> FromPeer(ops[0], base, peer))
                  && Genuine(Step(c, ops[0]).0, ops[1..], base, peer))
  }

  ghost predicate FromPeer(op: Op, base: nat, peer: nat -> bv8)
    requires op.Segment?
  {
    forall i :: 0 <= i < |op.payload| ==> op.payload[i] == peer(Wrap(Offset(op.num, base) + i))
  }

  /** The bytes delivered are those of the stream at the places numbered; so with every segment in sequence the buffer
      holds the stream from its start. */
  lemma {:induction false} DeliveredIsStream(c: Conn, ops: seq<Op>, base: nat, peer: nat -> bv8)
    requires Inv(c) && Genuine(c, ops, base, peer)
    ensures forall i :: 0 <= i < |Delivered(c, ops)| ==> Delivered(c, ops)[i] == peer(Placed(c, ops, base)[i])
    decreases |ops|
  {
    hide Step;
    if ops == [] {
    } else {
      StepKeepsAll();
      DeliveredIsStream(Step(c, ops[0]).0, ops[1..], base, peer);
    }
  }

  // How much of the peer's sequence space a segment covers once the connection stands.
  function Covered(c: Conn, op: Op): nat {
    if !op.Segment? then 0
    else if c.phase == Established then |op.payload| + (if op.flags.fin then 1 else 0)
    else if (c.phase == FinWait1 || c.phase == FinWait2) && op.flags.fin then 1
    else 0
  }

  // The handshake is over.
  predicate Standing(p: Phase) { p != SynSent && p != SynReceived && p != Listen }

  ghost function AllCovered(c: Conn, ops: seq<Op>): nat
    requires Inv(c)
    decreases |ops|
  {
    StepKeepsAll();
    if ops == [] then 0 else Covered(c, ops[0]) + AllCovered(Step(c, ops[0]).0, ops[1..])
  }

  ghost predicate AcksOk(c: Conn, op: Op, c': Conn, r: Option<Packet>) {
    && Standing(c'.phase) && c'.recvSeq == Wrap(c.recvSeq + Covered(c, op)) && (r.Some? ==> r.value.ack == c'.recvSeq)
  }

  lemma SegmentAcks(c: Conn, op: Op)
    requires Inv(c) && Standing(c.phase) && c.recvSeq < MOD32 && op.Segment?
    ensures var (c', r) := Processed(c, op); AcksOk(c, op, c', r)
  {
    hide Advertised, Buffered;
  }

  lemma StepAcks(c: Conn, op: Op)
    requires Inv(c) && Standing(c.phase) && c.recvSeq < MOD32
    ensures var (c', r) := Step(c, op); AcksOk(c, op, c', r)
  {
    hide Processed, InFlight, Advertised;
    if op.Segment? { SegmentAcks(c, op); }
  }

  /** Once the connection stands every packet acknowledges exactly the payload bytes and the FINs that have
      arrived, whether or not the buffer had room for them. */
  lemma {:induction false} AckNumbers(c: Conn, ops: seq<Op>)
    requires Inv(c) && Standing(c.phase) && c.recvSeq < MOD32
    ensures Final(c, ops).recvSeq == Wrap(c.recvSeq + AllCovered(c, ops))
    ensures forall i :: 0 <= i < |ops| && Answers(c, ops)[i].Some? ==>
              Answers(c, ops)[i].value.ack == Wrap(c.recvSeq + AllCovered(c, ops[..i + 1]))
    decreases |ops|
  {
    hide Step, Covered;
    if ops == [] {
    } else {
      StepKeepsAll();
      StepAcks(c, ops[0]);
      var c1 := Step(c, ops[0]).0;
      AckNumbers(c1, ops[1..]);
      WrapPlus(c.recvSeq + Covered(c, ops[0]), AllCovered(c1, ops[1..]));
      forall i | 0 <= i < |ops| && Answers(c, ops)[i].Some?
        ensures Answers(c, ops)[i].value.ack == Wrap(c.recvSeq + AllCovered(c, ops[..i + 1]))
      {
        var taken := ops[..i + 1];
        assert taken[0] == ops[0] && taken[1..] == ops[1..][..i];
        WrapPlus(c.recvSeq + Covered(c, ops[0]), AllCovered(c1, ops[1..][..i]));
        if i > 0 { assert Answers(c, ops)[i] == Answers(c1, ops[1..])[i - 1]; }
      }
    }
  }

  // ---------------------------------------------------------------- the window offered

  // The answers to a SYN and to a FIN offer 65535 whatever is free.
  predicate FixedOffer(c: Conn, op: Op) {
    op.Segment? && (c.phase == SynSent || (c.phase == Established && op.flags.fin))
  }

  lemma StepOffers(c: Conn, op: Op)
    requires Inv(c) && Step(c, op).1.Some?
    ensures Step(c, op).1.value.window == if FixedOffer(c, op) then WINDOW else Advertised(Step(c, op).0)
  {
    hide InFlight, Buffered;
  }

  lemma {:induction false} AnswerAt(c: Conn, ops: seq<Op>, i: nat)
    requires Inv(c) && i < |ops|
    ensures Answers(c, ops)[i] == Step(Final(c, ops[..i]), ops[i]).1
    ensures Final(c, ops[..i + 1]) == Step(Final(c, ops[..i]), ops[i]).0
    decreases i
  {
    hide Step;
    StepKeepsAll();
    if i == 0 {
      assert ops[..1][1..] == [];
    } else {
      AnswerAt(Step(c, ops[0]).0, ops[1..], i - 1);
      assert ops[..i][1..] == ops[1..][..i - 1] && ops[..i + 1][1..] == ops[1..][..i];
    }
  }

  /** Over every run, a packet offers the peer no more than is free in the buffer exactly if more than three quarters
      of it had been filled by then and it is not the answer to a SYN or a FIN. */
  lemma OfferFitsIff(c: Conn, ops: seq<Op>, i: nat)
    requires Inv(c) && i < |ops| && Answers(c, ops)[i].Some?
    ensures var arrived := |c.received| + |Delivered(c, ops[..i + 1])|;
            Answers(c, ops)[i].value.window <= BUFFER - Min(BUFFER, arrived)
            <==> arrived > BUFFER - BUFFER / 4 && !FixedOffer(Final(c, ops[..i]), ops[i])
  {
    hide Step, Final, Answers, Delivered;
    AnswerAt(c, ops, i);
    StepOffers(Final(c, ops[..i]), ops[i]);
    ReceiveBuffer(c, ops[..i + 1]);
  }

  // ---------------------------------------------------------------- the peer's window

  // A segment that tells the window, and the fields of the header are in range.
  predicate Tells(c: Conn, op: Op) { c.phase == Established && op.Segment? && op.flags.ack }

  predicate OnWire(op: Op) { op.Segment? ==> op.ack < MOD32 && op.window <= WINDOW }

  // The last window the peer told, and the last one other than 0; `w` if there was none.
  ghost function LastTold(c: Conn, w: nat, ops: seq<Op>): nat
    requires Inv(c)
    decreases |ops|
  {
    StepKeepsAll();
    if ops == [] then w else LastTold(Step(c, ops[0]).0, if Tells(c, ops[0]) then ops[0].window else w, ops[1..])
  }

  ghost function LastOpen(c: Conn, w: nat, ops: seq<Op>): nat
    requires Inv(c)
    decreases |ops|
  {
    StepKeepsAll();
    if ops == [] then w
    else LastOpen(Step(c, ops[0]).0, if Tells(c, ops[0]) && ops[0].window > 0 then ops[0].window else w, ops[1..])
  }

  lemma StepWindow(c: Conn, op: Op)
    requires Inv(c) && OnWire(op) && c.sendUnack < MOD32 && 0 < c.sendWindow <= WINDOW
    ensures var c' := Step(c, op).0;
            && c'.sendUnack < MOD32 && 0 < c'.sendWindow <= WINDOW
            && c'.sendWindow == if Tells(c, op) && op.window > 0 then op.window else c.sendWindow
  {
    hide InFlight, Advertised, Buffered;
  }

  /** Over every run the window the connection keeps is the last one other than 0 that the peer told. */
  lemma {:induction false} WindowOverRun(c: Conn, ops: seq<Op>)
    requires Inv(c) && c.sendUnack < MOD32 && 0 < c.sendWindow <= WINDOW && forall op :: op in ops ==> OnWire(op)
    ensures Final(c, ops).sendWindow == LastOpen(c, c.sendWindow, ops)
    ensures Final(c, ops).sendUnack < MOD32 && 0 < Final(c, ops).sendWindow <= WINDOW
    decreases |ops|
  {
    hide Step, Tells, OnWire;
    if ops == [] {
    } else {
      assert ops[0] in ops;
      StepKeepsAll();
      StepWindow(c, ops[0]);
      WindowOverRun(Step(c, ops[0]).0, ops[1..]);
    }
  }

  lemma {:induction false} OpenIsTold(c: Conn, w: nat, v: nat, ops: seq<Op>)
    requires Inv(c) && (w > 0 ==> v == w)
    ensures LastTold(c, w, ops) > 0 ==> LastOpen(c, v, ops) == LastTold(c, w, ops)
    decreases |ops|
  {
    hide Step;
    if ops == [] {
    } else {
      StepKeepsAll();
      OpenIsTold(Step(c, ops[0]).0, if Tells(c, ops[0]) then ops[0].window else w,
                 if Tells(c, ops[0]) && ops[0].window > 0 then ops[0].window else v, ops[1..]);
    }
  }

  /** What is sent fits the window the connection keeps; it fits the last window the peer told exactly if that one was
      not 0, since a window of 0 is not taken over. */
  lemma OfferRespectedIff(c0: Conn, ops: seq<Op>, data: seq<bv8>)
    requires Inv(c0) && c0.sendUnack < MOD32 && 0 < c0.sendWindow <= WINDOW && forall op :: op in ops ==> OnWire(op)
    requires Sent(Final(c0, ops), data).1.Some? && Sent(Final(c0, ops), data).1.value.payload != []
    ensures var after := Sent(Final(c0, ops), data).0;
            && InFlight(after) <= LastOpen(c0, c0.sendWindow, ops)
            && (InFlight(after) <= LastTold(c0, c0.sendWindow, ops) <==> LastTold(c0, c0.sendWindow, ops) > 0)
  {
    hide InFlight, Sent;
    WindowOverRun(c0, ops);
    OpenIsTold(c0, c0.sendWindow, c0.sendWindow, ops);
    WindowRespected(Final(c0, ops), data);
  }

  /** A peer that closes its window can still be sent to: an established connection with nothing in flight. */
  lemma ZeroWindowIgnored(c: Conn, b: bv8, num: nat, now: nat)
    requires Inv(c) && c.phase == Established && c.sendUnack == c.sendSeq && 0 < c.sendWindow <= WINDOW
    ensures var c1 := Step(c, Segment(ACK, num, c.sendSeq, 0, [], now)).0;
            Inv(c1) && Sent(c1, [b]).1.Some? && Sent(c1, [b]).1.value.payload == [b]
  {
    StepKeepsAll();
  }

  // ---------------------------------------------------------------- giving up

  function Resent(op: Op, r: Option<Packet>): nat { if op.Retransmit? && r.Some? then 1 else 0 }

  ghost function Retransmissions(c: Conn, ops: seq<Op>): nat
    requires Inv(c)
    decreases |ops|
  {
    StepKeepsAll();
    if ops == [] then 0 else Resent(ops[0], Step(c, ops[0]).1) + Retransmissions(Step(c, ops[0]).0, ops[1..])
  }

  // No acknowledgement arrives while established.
  ghost predicate Unanswered(c: Conn, ops: seq<Op>)
    requires Inv(c)
    decreases |ops|
  {
    StepKeepsAll();
    ops == [] || (&& !(c.phase == Established && ops[0].Segment? && ops[0].flags.ack)
                  && Unanswered(Step(c, ops[0]).0, ops[1..]))
  }

  function TriesLeft(c: Conn): nat {
    if (c.phase == SynSent || c.phase == SynReceived || c.phase == Established) && c.retries <= MAX_RETRIES
    then MAX_RETRIES - c.retries else 0
  }

  lemma TriesDrop(c: Conn, op: Op)
    requires Inv(c) && !(c.phase == Established && op.Segment? && op.flags.ack)
    ensures Resent(op, Step(c, op).1) + TriesLeft(Step(c, op).0) <= TriesLeft(c)
  {
  }

  /** Without an acknowledgement there are at most five retransmissions; the timeout stays between one and thirty
      seconds throughout. */
  lemma {:induction false} AtMostFive(c: Conn, ops: seq<Op>)
    requires Inv(c) && Unanswered(c, ops)
    ensures Retransmissions(c, ops) <= TriesLeft(c) <= MAX_RETRIES
    ensures MIN_TIMEOUT <= Final(c, ops).timeout <= MAX_TIMEOUT
    decreases |ops|
  {
    hide Step;
    if ops == [] {
    } else {
      StepKeepsAll();
      TriesDrop(c, ops[0]);
      AtMostFive(Step(c, ops[0]).0, ops[1..]);
    }
  }

  // Nothing but timeouts that have run out, with data in flight, as long as the connection is up.
  ghost predicate AllDue(c: Conn, ops: seq<Op>)
    requires Inv(c)
    decreases |ops|
  {
    StepKeepsAll();
    ops == [] || (&& ops[0].Retransmit?
                  && (c.phase == Established ==> InFlight(c) != 0 && RunOut(c, ops[0].now))
                  && AllDue(Step(c, ops[0]).0, ops[1..]))
  }

  predicate RunOut(c: Conn, now: nat) { (now + MOD64 - c.lastActivity % MOD64) % MOD64 >= c.timeout / 10 }

  lemma DueStep(c: Conn, now: nat)
    requires Inv(c) && c.phase == Established && InFlight(c) != 0 && RunOut(c, now)
    ensures var (c', r) := Step(c, Retransmit(now));
            if c.retries == MAX_RETRIES then c'.phase == Closed && r.None?
            else c'.phase == Established && r.Some? && c'.retries == c.retries + 1
  {
  }

  /** And if nothing else happens there are that many: the connection is given up exactly with the timeout after the
      last of them. */
  lemma {:induction false} GivesUpIff(c: Conn, ops: seq<Op>)
    requires Inv(c) && (c.phase == Established || c.phase == Closed) && AllDue(c, ops)
    ensures Retransmissions(c, ops) == Min(|ops|, TriesLeft(c))
    ensures Final(c, ops).phase == Closed <==> c.phase == Closed || |ops| > TriesLeft(c)
    decreases |ops|
  {
    hide Step, InFlight, RunOut;
    if ops == [] {
    } else {
      StepKeepsAll();
      if c.phase == Established { DueStep(c, ops[0].now); } else { ClosedStays(c, ops[0].now); }
      GivesUpIff(Step(c, ops[0]).0, ops[1..]);
    }
  }

  lemma ClosedStays(c: Conn, now: nat)
    requires c.phase == Closed && |c.received| <= BUFFER
    ensures Step(c, Retransmit(now)) == (c, None)
  {
  }

  /** What a timeout sends again carries no data: a lost payload is never repeated. */
  lemma NothingResent(c: Conn, ops: seq<Op>, i: nat)
    requires Inv(c) && i < |ops| && ops[i].Retransmit? && Answers(c, ops)[i].Some?
    ensures Answers(c, ops)[i].value.payload == [] && Answers(c, ops)[i].value.num == Final(c, ops[..i]).sendUnack
  {
    hide Final, Answers, InFlight, Advertised;
    AnswerAt(c, ops, i);
  }

  // ---------------------------------------------------------------- the connection object

  class TcpConnection {
    var phase: Phase
    var sendSeq: nat
    var sendUnack: nat
    var recvSeq: nat
    var sendWindow: nat
    var timeout: nat
    var lastActivity: nat
    var retries: nat
    const recvBuf: array<bv8>
    var recvPos: nat

    ghost predicate Valid()
      reads this
    {
      recvBuf.Length == BUFFER && recvPos <= BUFFER
    }

    ghost function C(): (c: Conn)
      requires Valid()
      reads this, recvBuf
      ensures |c.received| <= BUFFER
    {
      Conn(phase, sendSeq, sendUnack, recvSeq, sendWindow, timeout, lastActivity, retries, recvBuf[..recvPos])
    }

    // TcpConnection::new; the initial number comes from outside.
    constructor (isn: nat)
      ensures Valid() && fresh(recvBuf) && C() == NewConn(isn)
    {
      phase, sendSeq, sendUnack, recvSeq, sendWindow := Closed, isn, 0, 0, WINDOW;
      timeout, lastActivity, retries, recvPos := MIN_TIMEOUT, 0, 0, 0;
      recvBuf := new bv8[BUFFER];
    }

    method BuildSyn(now: nat) returns (r: Option<Packet>)
      requires Valid()
      modifies this
      ensures Valid() && (C(), r) == Opened(old(C()), now)
    {
      if phase != Closed { return None; }
      phase, sendUnack := SynSent, sendSeq;
      var num := sendSeq;
      sendSeq, lastActivity := (sendSeq + 1) % MOD32, now;
      return Built(Packet(num, 0, SYN, WINDOW, []));
    }

    method Window() returns (w: nat)
      requires Valid()
      ensures w == Advertised(C())
    {
      var remaining := BUFFER - recvPos;
      w := if remaining < BUFFER / 4 then remaining else WINDOW;
    }

    // The payload goes behind what the buffer already holds, as far as there is room.
    method Receive(payload: seq<bv8>)
      requires Valid()
      modifies this`recvPos, recvBuf
      ensures Valid() && recvBuf[..recvPos] == Buffered(old(recvBuf[..recvPos]), payload)
    {
      var n := Min(|payload|, BUFFER - recvPos);
      var i := 0;
      while i < n
        invariant i <= n && recvPos == old(recvPos)
        invariant recvBuf[..recvPos + i] == old(recvBuf[..recvPos]) + payload[..i]
      {
        recvBuf[recvPos + i] := payload[i];
        i := i + 1;
        assert recvBuf[..recvPos + i] == recvBuf[..recvPos + i - 1] + [payload[i - 1]];
      }
      recvPos := recvPos + n;
    }

    method SendFin(next: Phase) returns (r: Option<Packet>)
      requires Valid()
      modifies this`sendSeq, this`phase
      ensures Valid() && (C(), r) == Finishing(old(C()), next)
    {
      var num := sendSeq;
      var w := Window();
      sendSeq, phase := (sendSeq + 1) % MOD32, next;
      return Built(Packet(num, recvSeq, FIN_ACK, w, []));
    }

    method AckFin() returns (r: Option<Packet>)
      requires Valid()
      modifies this`recvSeq, this`phase
      ensures Valid()
      ensures (C(), r) == Finished(old(C()), Segment(Flags(true, false, false, false, false), 0, 0, 0, [], 0))
    {
      recvSeq := (recvSeq + 1) % MOD32;
      var w := Window();
      phase := TimeWait;
      return Built(Packet(sendSeq, recvSeq, ACK, w, []));
    }

    method ProcessEstablished(op: Op) returns (r: Option<Packet>)
      requires Valid() && op.Segment?
      modifies this, recvBuf
      ensures Valid() && (C(), r) == Arrived(old(C()), op)
    {
      r := None;
      if op.flags.ack {
        sendUnack, retries := op.ack, 0;
        if op.window > 0 { sendWindow := op.window; }
      }
      if op.payload != [] {
        Receive(op.payload);
        recvSeq := (recvSeq + |op.payload|) % MOD32;
        var w := Window();
        r := Built(Packet(sendSeq, recvSeq, ACK, w, []));
      }
      if op.flags.fin {
        recvSeq, phase := (recvSeq + 1) % MOD32, CloseWait;
        r := Built(Packet(sendSeq, recvSeq, ACK, WINDOW, []));
      }
    }

    method ProcessSegment(op: Op) returns (r: Option<Packet>)
      requires Valid() && op.Segment?
      modifies this, recvBuf
      ensures Valid() && (C(), r) == Step(old(C()), op)
    {
      hide Arrived, Advertised;
      lastActivity := op.now;
      match phase
      case SynSent =>
        if op.flags.syn && op.flags.ack {
          recvSeq, phase := (op.num + 1) % MOD32, Established;
          return Built(Packet(sendSeq, recvSeq, ACK, WINDOW, []));
        }
        if op.flags.rst { phase := Closed; }
        return None;
      case SynReceived =>
        if op.flags.ack { recvSeq, phase := op.num, Established; }
        return None;
      case Established =>
        r := ProcessEstablished(op);
      case CloseWait =>
        r := SendFin(LastAck);
      case FinWait1 =>
        if op.flags.ack { sendUnack, phase := op.ack, FinWait2; }
        if !op.flags.fin { return None; }
        r := AckFin();
      case FinWait2 =>
        if !op.flags.fin { return None; }
        r := AckFin();
      case LastAck =>
        if op.flags.ack { phase := Closed; }
        return None;
      case Closing =>
        if op.flags.ack { phase := TimeWait; }
        return None;
      case TimeWait => return None;
      case Listen => return None;
      case Closed => return None;
    }

    method SendData(data: seq<bv8>) returns (r: Option<Packet>)
      requires Valid()
      modifies this
      ensures Valid() && (C(), r) == Step(old(C()), Send(data))
    {
      if phase != Established { return None; }
      var inFlight := (sendSeq + MOD32 - sendUnack % MOD32) % MOD32;
      var available := if sendWindow > inFlight then sendWindow - inFlight else 0;
      if available == 0 { return None; }
      var chunk := data[..Min(|data|, available)];
      var w := Window();
      r := Built(Packet(sendSeq, recvSeq, ACK_PSH, w, chunk));
      if r.Some? { sendSeq := (sendSeq + |chunk|) % MOD32; }
    }

    method CloseConnection() returns (r: Option<Packet>)
      requires Valid()
      modifies this
      ensures Valid() && (C(), r) == Step(old(C()), Close)
    {
      if phase == Established || phase == CloseWait {
        r := SendFin(FinWait1);
      } else {
        phase := Closed;
        return None;
      }
    }

    method CheckRetransmit(now: nat) returns (r: Option<Packet>)
      requires Valid()
      modifies this
      ensures Valid() && (C(), r) == Step(old(C()), Retransmit(now))
    {
      if phase != Established { return None; }
      var inFlight := (sendSeq + MOD32 - sendUnack % MOD32) % MOD32;
      if inFlight == 0 { return None; }
      var elapsed := (now + MOD64 - lastActivity % MOD64) % MOD64;
      if elapsed < timeout / 10 { return None; }
      retries := retries + 1;
      if retries > MAX_RETRIES {
        phase := Closed;
        return None;
      }
      timeout, lastActivity := Min(timeout * 2, MAX_TIMEOUT), now;
      var w := Window();
      return Built(Packet(sendUnack, recvSeq, ACK, w, []));
    }
  }
}
