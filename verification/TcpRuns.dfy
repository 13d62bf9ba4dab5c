/** TCP over runs of opens, connects and arbitrary segments, and over chains of replies. */
module TcpRuns {
  import opened ByteOrder
  import opened Wrappers
  import opened Tcp

  // ---- runs ----------------------------------------------------------------------------------

  datatype Op =
    | DoOpen
    | DoConnect(soc: int, addr: IpAddr, port: uint16, env: Env)
    | DoRx(iface: Iface, g: Segment, sumOk: bool)

  function Apply(t: seq<Cb>, op: Op): (r: seq<Cb>)
    ensures |r| == |t|
  {
    match op
    case DoOpen => Open(t)
    case DoConnect(soc, addr, port, env) => Connect(t, soc, addr, port, env).table
    case DoRx(iface, g, sumOk) => Rx(t, iface, g, sumOk).0
  }

  function Run(t: seq<Cb>, ops: seq<Op>): (r: seq<Cb>)
    ensures |r| == |t|
  {
    if ops == [] then t
    else
      var n := |ops| - 1;
      Apply(Run(t, ops[..n]), ops[n])
  }

  function Initial(size: nat): seq<Cb>
  {
    seq(size, _ => ZERO)
  }

  /** `random()` yields non-negative 31-bit numbers. */
  predicate Plausible(op: Op)
  {
    op.DoConnect? ==> op.env.random < 0x8000_0000
  }

  /** Every segment without the ACK bit has a zero acknowledgment field. */
  predicate Clean(op: Op)
  {
    op.DoRx? && !op.g.flags.ack ==> op.g.ackNo == 0
  }

  // ---- the table invariant -------------------------------------------------------------------

  predicate CbOk(cb: Cb)
  {
    && cb.state in {Closed, SynSent, SynRcvd, Established}
    && (!cb.used ==> cb.state == Closed)
    && (cb.state != Closed ==> cb.iss < 0x8000_0000 && cb.sndNxt == cb.iss + 1 && cb.iface.Some?)
    && (cb.state == SynSent ==> cb.sndUna == cb.iss)
    && (cb.state in {SynRcvd, Established} ==> cb.rcvNxt == Next32(cb.irs))
    && (cb.state == SynRcvd ==> cb.sndUna <= cb.iss)
    && (cb.state == Established ==> cb.sndUna > cb.iss)
  }

  /** An established block has had exactly its SYN acknowledged. */
  predicate Acknowledged(cb: Cb)
  {
    cb.state == Established ==> cb.sndUna == cb.sndNxt
  }

  predicate TableOk(t: seq<Cb>)
  {
    forall i :: 0 <= i < |t| ==> CbOk(t[i])
  }

  predicate AllAcknowledged(t: seq<Cb>)
  {
    forall i :: 0 <= i < |t| ==> Acknowledged(t[i])
  }

  lemma ArrivesOk(cb: Cb, g: Segment)
    requires CbOk(cb)
    ensures CbOk(Arrives(cb, g).0)
    ensures Acknowledged(cb) && (!g.flags.ack ==> g.ackNo == 0) ==> Acknowledged(Arrives(cb, g).0)
  {
  }

  /** Exactly which segments establish a connection. */
  lemma EstablishedIff(cb: Cb, g: Segment)
    requires CbOk(cb) && cb.state == SynSent
    ensures Arrives(cb, g).0.state == Established <==>
            g.flags.syn && !g.flags.rst && if g.flags.ack then g.ackNo == cb.iss + 1 else g.ackNo > cb.iss
  {
  }

  /** Exactly which of them establish one that nobody acknowledged. */
  lemma UnacknowledgedEstablished(cb: Cb, g: Segment)
    requires CbOk(cb) && cb.state == SynSent
    ensures !Acknowledged(Arrives(cb, g).0) <==>
            g.flags.syn && !g.flags.ack && !g.flags.rst && g.ackNo > cb.iss + 1
  {
  }

  /** A reset closes a block in SYN_SENT exactly when it acknowledges our SYN. */
  lemma ResetIff(cb: Cb, g: Segment)
    requires CbOk(cb) && cb.state == SynSent
    ensures Arrives(cb, g).0.state == Closed <==> g.flags.rst && g.flags.ack && g.ackNo == cb.iss + 1
  {
  }

  /**
   * A refusal goes unnoticed: whatever a host without a matching block answers to our SYN, the answer leaves our
   * block as it was. Its acknowledgment does not count the SYN, and it comes from port 0.
   */
  lemma RefusalUnnoticed(t: seq<Cb>, slot: nat, u: seq<Cb>, remote: Iface, syn: Segment, answer: Segment)
    requires slot < |t| && CbOk(t[slot]) && t[slot].state == SynSent && TableOk(u)
    requires Emit(t[slot], t[slot].iss, 0, SYN) == Some(syn)
    requires forall i :: 0 <= i < |u| ==> !Matches(u[i], remote, syn)
    requires Rx(u, remote, syn, true).1 == Some(answer)
    ensures answer.flags == RST_ACK && answer.ackNo == t[slot].iss && answer.sport == 0
    ensures Rx(t, t[slot].iface.value, answer, true).0[slot] == t[slot]
  {
    var s := ScanTo(u, |u|, remote, syn);
    assert s.found.None? && s.listener.None?;
    ResetIff(t[slot], answer);
  }

  lemma PreparedOk(t: seq<Cb>, k: nat, iface: Iface, g: Segment)
    requires TableOk(t) && k < |t| && IsFree(t[k])
    ensures CbOk(Prepared(t, k, None, iface, g)) && Prepared(t, k, None, iface, g).state == Closed
  {
  }

  lemma RxOk(t: seq<Cb>, iface: Iface, g: Segment, sumOk: bool)
    requires TableOk(t)
    ensures TableOk(Rx(t, iface, g, sumOk).0)
    ensures AllAcknowledged(t) && (!g.flags.ack ==> g.ackNo == 0) ==> AllAcknowledged(Rx(t, iface, g, sumOk).0)
  {
    var s := ScanTo(t, |t|, iface, g);
    if s.found.Some? {
      ArrivesOk(t[s.found.value], g);
    } else if s.free.Some? {
      assert s.listener.None?;
      PreparedOk(t, s.free.value, iface, g);
      ArrivesOk(Prepared(t, s.free.value, None, iface, g), g);
    }
  }

  lemma ApplyOk(t: seq<Cb>, op: Op)
    requires TableOk(t) && Plausible(op)
    ensures TableOk(Apply(t, op))
    ensures AllAcknowledged(t) && Clean(op) ==> AllAcknowledged(Apply(t, op))
  {
    if op.DoRx? {
      RxOk(t, op.iface, op.g, op.sumOk);
    }
  }

  /**
   * Over every run of opens, connects and arbitrary segments: unused slots are closed, nothing ever listens, a
   * block in SYN_SENT has sent its SYN and nothing more, SYN_RCVD and ESTABLISHED expect the byte after the
   * peer's SYN; and if segments without ACK carry a zero acknowledgment, ESTABLISHED means exactly our SYN was
   * acknowledged.
   */
  lemma {:induction false} TableInvariant(size: nat, ops: seq<Op>)
    requires forall i :: 0 <= i < |ops| ==> Plausible(ops[i])
    ensures TableOk(Run(Initial(size), ops))
    ensures (forall i :: 0 <= i < |ops| ==> Clean(ops[i])) ==> AllAcknowledged(Run(Initial(size), ops))
  {
    if ops != [] {
      var n := |ops| - 1;
      TableInvariant(size, ops[..n]);
      ApplyOk(Run(Initial(size), ops[..n]), ops[n]);
    }
  }

  // ---- reply chains --------------------------------------------------------------------------

  /** How many replies a segment with these flags can still cause. */
  function Rank(f: Flags): (r: nat)
    ensures r <= 3
  {
    if f.rst then (if f.ack then 1 else 0)
    else if f.ack then (if f.syn then 2 else 1)
    else if f.syn then 3 else 2
  }

  lemma ArrivesRanksLower(cb: Cb, g: Segment)
    ensures var r := Arrives(cb, g).1;
            r.Some? ==> Rank(r.value.flags) < Rank(g.flags)
  {
  }

  /** Whatever the table of the host it meets, a segment causes at most one reply, of smaller rank. */
  lemma ReplyRanksLower(t: seq<Cb>, iface: Iface, g: Segment, sumOk: bool)
    ensures var r := Rx(t, iface, g, sumOk).1;
            r.Some? ==> Rank(r.value.flags) < Rank(g.flags)
  {
    var s := ScanTo(t, |t|, iface, g);
    if s.found.Some? {
      ArrivesRanksLower(t[s.found.value], g);
    } else if s.free.Some? {
      ArrivesRanksLower(Prepared(t, s.free.value, s.listener, iface, g), g);
    }
  }

  /** The host a segment meets: any table, any interface. */
  datatype Hop = Hop(table: seq<Cb>, iface: Iface, sumOk: bool)

  /** Length of the chain of replies a segment sets off along these hosts. */
  function Replies(g: Segment, hops: seq<Hop>): nat
    decreases hops
  {
    if hops == [] then 0
    else
      match Rx(hops[0].table, hops[0].iface, g, hops[0].sumOk).1
      case None => 0
      case Some(r) => 1 + Replies(r, hops[1..])
  }

  /** One segment starts at most three replies, wherever they go. */
  lemma {:induction false} RepliesTerminate(g: Segment, hops: seq<Hop>)
    ensures Replies(g, hops) <= Rank(g.flags) <= 3
    decreases hops
  {
    if hops != [] {
      ReplyRanksLower(hops[0].table, hops[0].iface, g, hops[0].sumOk);
      var r := Rx(hops[0].table, hops[0].iface, g, hops[0].sumOk).1;
      if r.Some? {
        RepliesTerminate(r.value, hops[1..]);
      }
    }
  }

  /** A block that has sent its SYN, with initial sequence number 0. */
  function Opening(me: Iface, peer: Iface, port: uint16, peerPort: uint16): Cb
  {
    ZERO.(used := true, state := SynSent, iface := Some(me), port := port, peerAddr := peer.unicast,
          peerPort := peerPort, sndNxt := 1)
  }

  lemma OpeningAnswers(t: seq<Cb>, me: Iface, peer: Iface, port: uint16, peerPort: uint16, g: Segment)
    requires |t| > 0 && t[0] == Opening(me, peer, port, peerPort)
    requires g.src == peer.unicast && g.dst == me.unicast && g.sport == peerPort && g.dport == port && g.len == 20
    ensures Rx(t, me, g, true).1 == Arrives(t[0], g).1
  {
    assert Matches(t[0], me, g);
    assert ScanTo(t, |t|, me, g).found == Some(0);
  }

  lemma UnknownAnswers(size: nat, me: Iface, g: Segment)
    requires size > 0 && g.dst == me.unicast && g.len == 20 && !g.flags.rst
    ensures Rx(Initial(size), me, g, true).1.Some?
  {
    var t := Initial(size);
    assert IsFree(t[0]);
    var s := ScanTo(t, size, me, g);
    assert s.found.None? && s.free.Some? && s.listener.None?;
  }

  /**
   * The bound is met, with tables of any size: a SYN is answered by a simultaneous open, its answer is acknowledged,
   * and the acknowledgment is reset by a host that knows nothing.
   */
  lemma ThreeReplies(size: nat, a: Iface, b: Iface, pa: uint16, pb: uint16)
    requires size > 0
    ensures var ta, tb := Initial(size)[0 := Opening(a, b, pa, pb)], Initial(size)[0 := Opening(b, a, pb, pa)];
            var syn := Segment(a.unicast, b.unicast, pa, pb, 0, 0, SYN, 20, 20, 0);
            Replies(syn, [Hop(tb, b, true), Hop(ta, a, true), Hop(Initial(size), b, true)]) == 3
  {
    var ta, tb := Initial(size)[0 := Opening(a, b, pa, pb)], Initial(size)[0 := Opening(b, a, pb, pa)];
    var syn := Segment(a.unicast, b.unicast, pa, pb, 0, 0, SYN, 20, 20, 0);
    var synAck := Segment(b.unicast, a.unicast, pb, pa, 0, 1, SYN_ACK, 20, 20, 0);
    var ack := Segment(a.unicast, b.unicast, pa, pb, 1, 1, ACK, 20, 20, 0);
    var h1, h2, h3 := Hop(tb, b, true), Hop(ta, a, true), Hop(Initial(size), b, true);
    OpeningAnswers(tb, b, a, pb, pa, syn);
    OpeningAnswers(ta, a, b, pa, pb, synAck);
    UnknownAnswers(size, b, ack);
    assert [h1, h2, h3][1..] == [h2, h3] && [h2, h3][1..] == [h3] && [h3][1..] == [];
    assert Replies(ack, [h3]) == 1;
    assert Replies(synAck, [h2, h3]) == 2;
  }

  // ---- local ports ---------------------------------------------------------------------------

  /** No two used blocks share a local port they have chosen. */
  predicate PortsDistinct(t: seq<Cb>)
  {
    forall i, j :: 0 <= i < j < |t| && t[i].used && t[j].used && t[i].port != 0 ==> t[i].port != t[j].port
  }

  /** Connecting never introduces a shared port, whatever it has to choose from. */
  lemma ConnectKeepsPorts(t: seq<Cb>, soc: int, addr: IpAddr, port: uint16, env: Env)
    requires PortsDistinct(t)
    ensures PortsDistinct(Connect(t, soc, addr, port, env).table)
  {
    var r := Connect(t, soc, addr, port, env).table;
    if r != t && t[soc].port == 0 {
      var p := PickPort(t, env.e, PORT_MIN + env.time % 1024).value;
      assert forall j :: 0 <= j < |t| && t[j].used ==> t[j].port != Hton16(env.e, p);
    }
  }

  /** Segments never introduce one either, as long as nothing listens. */
  lemma RxKeepsPorts(t: seq<Cb>, iface: Iface, g: Segment, sumOk: bool)
    requires PortsDistinct(t) && TableOk(t)
    ensures PortsDistinct(Rx(t, iface, g, sumOk).0)
  {
    var s := ScanTo(t, |t|, iface, g);
    if s.found.None? {
      assert s.listener.None?;
    }
  }

  /**
   * Opening does, because a reset leaves the port in the slot it frees: ports stay distinct exactly when the slot
   * that open takes holds no port that another used block has.
   */
  lemma OpenKeepsPortsIff(t: seq<Cb>)
    requires PortsDistinct(t) && FirstUnused(t) < |t|
    ensures PortsDistinct(Open(t)) <==>
            var left := t[FirstUnused(t)].port;
            left == 0 || forall j :: 0 <= j < |t| && t[j].used ==> t[j].port != left
  {
    var i, r := FirstUnused(t), Open(t);
    var left := t[i].port;
    if left != 0 && exists j :: 0 <= j < |t| && t[j].used && t[j].port == left {
      var j :| 0 <= j < |t| && t[j].used && t[j].port == left;
      assert r[i].used && r[j].used && r[i].port == r[j].port && i != j;
    }
  }

  lemma RunSnoc(t: seq<Cb>, ops: seq<Op>, op: Op)
    ensures Run(t, ops + [op]) == Apply(Run(t, ops), op)
  {
    assert (ops + [op])[..|ops|] == ops;
  }

  /** A block whose connect succeeded on the first port of the range. */
  function Dialled(iface: Iface, addr: IpAddr, wire: uint16, peer: uint16): Cb
  {
    ZERO.(used := true, state := SynSent, iface := Some(iface), port := wire, peerAddr := addr, peerPort := peer,
          rcvWnd := WINDOW, iss := 7, sndUna := 7, sndNxt := 8)
  }

  /** No used block has this port. */
  predicate Unshared(t: seq<Cb>, wire: uint16)
  {
    forall j :: 0 <= j < |t| && t[j].used ==> t[j].port != wire
  }

  lemma DialSlot(t: seq<Cb>, soc: nat, iface: Iface, addr: IpAddr, port: uint16, env: Env)
    requires soc < |t| && t[soc] == ZERO.(used := true) && env == Env(env.e, 0, Some(iface), 7, true)
    requires Unshared(t, Hton16(env.e, PORT_MIN))
    ensures Apply(t, DoConnect(soc, addr, port, env)) ==
            t[soc := Dialled(iface, addr, Hton16(env.e, PORT_MIN), Hton16(env.e, port))]
  {
    assert !Taken(t, env.e, PORT_MIN);
    assert PickPort(t, env.e, PORT_MIN + env.time % 1024) == Some(PORT_MIN);
  }

  lemma ResetSlot(t: seq<Cb>, iface: Iface, g: Segment)
    requires |t| > 0 && t[0].state == SynSent && t[0].iface == Some(iface) && t[0].port == g.dport
    requires t[0].peerAddr == g.src && t[0].peerPort == g.sport && g.dst == iface.unicast && g.len >= HDR_SIZE
    requires g.flags == RST_ACK && t[0].iss < g.ackNo <= t[0].sndNxt && t[0].sndUna <= g.ackNo
    ensures Apply(t, DoRx(iface, g, true)) == t[0 := t[0].(state := Closed, used := false)]
  {
    assert Matches(t[0], iface, g);
    assert ScanTo(t, |t|, iface, g).found == Some(0);
  }

  /** The first two slots hold these blocks, the others were never used. */
  predicate Pair(t: seq<Cb>, size: nat, x: Cb, y: Cb)
  {
    |t| == size >= 2 && t[0] == x && t[1] == y && forall i :: 2 <= i < size ==> t[i] == ZERO
  }

  lemma PairUnshared(t: seq<Cb>, size: nat, x: Cb, y: Cb, wire: uint16)
    requires Pair(t, size, x, y) && (x.used ==> x.port != wire) && (y.used ==> y.port != wire)
    ensures Unshared(t, wire)
  {
  }

  lemma FirstUnusedIs(t: seq<Cb>, i: nat)
    requires i < |t| && !t[i].used && forall j :: 0 <= j < i ==> t[j].used
    ensures FirstUnused(t) == i && Open(t) == t[i := t[i].(used := true, state := Closed)]
  {
  }

  /** Two slots are opened. */
  lemma TwoOpen(size: nat) returns (ops: seq<Op>)
    requires size >= 2
    ensures Pair(Run(Initial(size), ops), size, ZERO.(used := true), ZERO.(used := true))
  {
    var t0 := Initial(size);
    RunSnoc(t0, [], DoOpen);
    FirstUnusedIs(t0, 0);
    RunSnoc(t0, [DoOpen], DoOpen);
    FirstUnusedIs(Open(t0), 1);
    ops := [DoOpen] + [DoOpen];
  }

  /** The first connects. */
  lemma FirstDials(size: nat, iface: Iface, addr: IpAddr, port: uint16, env: Env) returns (ops: seq<Op>)
    requires size >= 2 && env == Env(env.e, 0, Some(iface), 7, true)
    ensures Pair(Run(Initial(size), ops), size,
                 Dialled(iface, addr, Hton16(env.e, PORT_MIN), Hton16(env.e, port)), ZERO.(used := true))
  {
    WirePortNonZero(env.e, PORT_MIN);
    var two := TwoOpen(size);
    var connect, blank := DoConnect(0, addr, port, env), ZERO.(used := true);
    RunSnoc(Initial(size), two, connect);
    PairUnshared(Run(Initial(size), two), size, blank, blank, Hton16(env.e, PORT_MIN));
    DialSlot(Run(Initial(size), two), 0, iface, addr, port, env);
    ops := two + [connect];
  }

  /** It is reset: its slot is unused but keeps the port. */
  lemma PortLeftBehind(size: nat, iface: Iface, addr: IpAddr, port: uint16, env: Env) returns (ops: seq<Op>)
    requires size >= 2 && env == Env(env.e, 0, Some(iface), 7, true)
    ensures var cb := Dialled(iface, addr, Hton16(env.e, PORT_MIN), Hton16(env.e, port));
            Pair(Run(Initial(size), ops), size, cb.(state := Closed, used := false), ZERO.(used := true))
  {
    var wire, peer := Hton16(env.e, PORT_MIN), Hton16(env.e, port);
    var dials := FirstDials(size, iface, addr, port, env);
    var g := Segment(addr, iface.unicast, peer, wire, 0, 8, RST_ACK, 20, 20, 0);
    RunSnoc(Initial(size), dials, DoRx(iface, g, true));
    ResetSlot(Run(Initial(size), dials), iface, g);
    ops := dials + [DoRx(iface, g, true)];
  }

  /** The second then takes over that port, and the next open revives it in the first slot: a shared port. */
  lemma PortShared(size: nat, iface: Iface, addr: IpAddr, port: uint16, e: Endian) returns (ops: seq<Op>)
    requires size >= 2
    ensures !PortsDistinct(Run(Initial(size), ops))
  {
    var env := Env(e, 0, Some(iface), 7, true);
    WirePortNonZero(e, PORT_MIN);
    var left := PortLeftBehind(size, iface, addr, port, env);
    var t, connect := Run(Initial(size), left), DoConnect(1, addr, port, env);
    RunSnoc(Initial(size), left, connect);
    PairUnshared(t, size, t[0], t[1], Hton16(e, PORT_MIN));
    DialSlot(t, 1, iface, addr, port, env);
    var u := Apply(t, connect);
    RunSnoc(Initial(size), left + [connect], DoOpen);
    assert !u[0].used && u[1].used && u[0].port == u[1].port;
    assert FirstUnused(u) == 0;
    assert Open(u)[0].used && Open(u)[1].used;
    ops := left + [connect] + [DoOpen];
  }
}
