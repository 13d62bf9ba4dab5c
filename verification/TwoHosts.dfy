/**
 * Two hosts of any byte orders that each connect to the other on matching four-tuples, over a network that may lose,
 * repeat and reorder segments: every segment ever sent stays deliverable, any number of times or never.
 */
module TwoHosts {
  import opened ByteOrder
  import opened Wrappers
  import opened Tcp
  import opened TcpChecksum
  import opened TcpWire

  /**
   * One end: its byte order, its interface, the slot its application opened, and the local port it will use, as it
   * loads it from memory.
   */
  datatype End = End(e: Endian, iface: Iface, slot: nat, port: uint16)

  datatype World = World(a: seq<Cb>, b: seq<Cb>, net: set<Segment>)

  /** `Elsewhere` is anything the other blocks of a host do. */
  datatype Event =
    | Dial(atA: bool, port: uint16, env: Env)
    | Deliver(atA: bool, g: Segment, sumOk: bool)
    | Elsewhere(atA: bool, table: seq<Cb>)

  // ---- one host's step -----------------------------------------------------------------------

  /** The port of `far`, as `near` loads it. */
  function PortAt(far: End, near: End): (port: uint16)
  {
    Reloaded(far.e, near.e, far.port)
  }

  /** A segment of `from`, as `to` loads it. */
  function Loaded(g: Segment, from: End, to: End): Segment
  {
    g.(sport := Reloaded(from.e, to.e, g.sport), dport := Reloaded(from.e, to.e, g.dport))
  }

  predicate Idle(cb: Cb)
  {
    cb.used && cb.state == Closed && cb.port == 0
  }

  /** The application connects, for the first time, from the agreed port to the other end's. */
  predicate CanDial(t: seq<Cb>, me: End, peer: End, port: uint16, env: Env)
  {
    && me.slot < |t| && Idle(t[me.slot]) && env.iface == Some(me.iface) && env.random < 0x8000_0000
    && env.e == me.e && Hton16(me.e, port) == PortAt(peer, me)
    && Connect(t, me.slot, peer.iface.unicast, port, env).ok
    && Connect(t, me.slot, peer.iface.unicast, port, env).table[me.slot].port == me.port
  }

  function Dialled(t: seq<Cb>, me: End, peer: End, port: uint16, env: Env): (seq<Cb>, Option<Segment>)
  {
    var c := Connect(t, me.slot, peer.iface.unicast, port, env);
    (c.table, c.out)
  }

  function With(net: set<Segment>, out: Option<Segment>): set<Segment>
  {
    if out.Some? then net + {out.value} else net
  }

  /** Every block but the application's is free or on another port. */
  predicate OthersAside(t: seq<Cb>, me: End)
  {
    me.slot < |t| && forall i :: 0 <= i < |t| && i != me.slot ==> IsFree(t[i]) || t[i].port != me.port
  }

  predicate CanChange(t: seq<Cb>, me: End, table: seq<Cb>)
  {
    me.slot < |t| == |table| && table[me.slot] == t[me.slot] && OthersAside(table, me)
  }

  predicate Enabled(w: World, a: End, b: End, ev: Event)
  {
    match ev
    case Dial(atA, port, env) => if atA then CanDial(w.a, a, b, port, env) else CanDial(w.b, b, a, port, env)
    case Deliver(_, g, _) => g in w.net
    case Elsewhere(atA, table) => if atA then CanChange(w.a, a, table) else CanChange(w.b, b, table)
  }

  function Next(w: World, a: End, b: End, ev: Event): World
  {
    match ev
    case Dial(true, port, env) => var (t, out) := Dialled(w.a, a, b, port, env); World(t, w.b, With(w.net, out))
    case Dial(false, port, env) => var (t, out) := Dialled(w.b, b, a, port, env); World(w.a, t, With(w.net, out))
    case Deliver(true, g, ok) => var (t, out) := Rx(w.a, a.iface, Loaded(g, b, a), ok); World(t, w.b, With(w.net, out))
    case Deliver(false, g, ok) => var (t, out) := Rx(w.b, b.iface, Loaded(g, a, b), ok); World(w.a, t, With(w.net, out))
    case Elsewhere(true, table) => w.(a := table)
    case Elsewhere(false, table) => w.(b := table)
  }

  predicate EnabledRun(w: World, a: End, b: End, evs: seq<Event>)
    decreases evs
  {
    evs == [] || (Enabled(w, a, b, evs[0]) && EnabledRun(Next(w, a, b, evs[0]), a, b, evs[1..]))
  }

  function Run(w: World, a: End, b: End, evs: seq<Event>): World
    requires EnabledRun(w, a, b, evs)
    decreases evs
  {
    if evs == [] then w else Run(Next(w, a, b, evs[0]), a, b, evs[1..])
  }

  // ---- the invariant -------------------------------------------------------------------------

  /** Two different hosts, real ports. */
  predicate Apart(a: End, b: End)
  {
    a.iface.unicast != b.iface.unicast && a.port != 0 && b.port != 0
  }

  predicate Live(cb: Cb, me: End, peer: End)
  {
    && cb.used && cb.state in {SynSent, SynRcvd, Established}
    && cb.iface == Some(me.iface) && cb.port == me.port
    && cb.peerAddr == peer.iface.unicast && cb.peerPort == PortAt(peer, me)
    && cb.iss < 0x8000_0000 && cb.sndNxt == cb.iss + 1
  }

  /** The application's slot is still idle, or in the connection. */
  predicate HostOk(t: seq<Cb>, me: End, peer: End)
  {
    && OthersAside(t, me)
    && (Idle(t[me.slot]) || Live(t[me.slot], me, peer))
  }

  /** What this end's state says about the other end. */
  predicate Linked(mine: Cb, other: Cb)
  {
    && (mine.state == SynSent ==> mine.sndUna == mine.iss)
    && (mine.state in {SynRcvd, Established} ==>
          other.state != Closed && mine.irs == other.iss && mine.rcvNxt == other.iss + 1)
    && (mine.state == Established ==> mine.sndUna == mine.iss + 1 && other.state == SynRcvd && other.irs == mine.iss)
  }

  /** A segment from this end: a reset from a slot without a port, or a step of the handshake. */
  predicate SegmentOk(g: Segment, mine: Cb, other: Cb, me: End, peer: End)
  {
    && g.dst == peer.iface.unicast && g.dport == PortAt(peer, me) && g.len == g.hlen == HDR_SIZE
    && if g.flags.rst then g.sport == 0
       else
         && g.sport == me.port && mine.state != Closed
         && (|| (g.flags == SYN && g.seqNo == mine.iss && g.ackNo == 0)
             || (g.flags == SYN_ACK && g.seqNo == mine.iss && g.ackNo == other.iss + 1 && mine.state == SynRcvd)
             || (g.flags == ACK && g.seqNo == mine.iss + 1 && g.ackNo == other.iss + 1 && mine.state == Established))
  }

  /** Everything about one end and what it has sent. */
  predicate Half(t: seq<Cb>, u: seq<Cb>, me: End, peer: End, net: set<Segment>)
  {
    && HostOk(t, me, peer) && peer.slot < |u| && Linked(t[me.slot], u[peer.slot])
    && forall g :: g in net && g.src == me.iface.unicast ==> SegmentOk(g, t[me.slot], u[peer.slot], me, peer)
  }

  predicate Inv(w: World, a: End, b: End)
  {
    && Half(w.a, w.b, a, b, w.net) && Half(w.b, w.a, b, a, w.net)
    && forall g :: g in w.net ==> g.src == a.iface.unicast || g.src == b.iface.unicast
  }

  // ---- preservation --------------------------------------------------------------------------

  /** The two ends after a step of one of them. */
  predicate BothHalves(t: seq<Cb>, u: seq<Cb>, me: End, peer: End, net: set<Segment>)
  {
    && Half(t, u, me, peer, net) && Half(u, t, peer, me, net)
    && forall g :: g in net ==> g.src == me.iface.unicast || g.src == peer.iface.unicast
  }

  lemma DialStep(t: seq<Cb>, u: seq<Cb>, me: End, peer: End, net: set<Segment>, port: uint16, env: Env)
    requires Apart(me, peer) && BothHalves(t, u, me, peer, net) && CanDial(t, me, peer, port, env)
    ensures var (t', out) := Dialled(t, me, peer, port, env);
            BothHalves(t', u, me, peer, With(net, out))
  {
  }

  /** A segment that is not for the connection meets a free slot, or none. */
  lemma Unmatched(t: seq<Cb>, me: End, g: Segment)
    requires OthersAside(t, me) && me.port != 0 && g.dport == me.port
    requires !Matches(t[me.slot], me.iface, g) && t[me.slot].state != Listen
    requires !IsFree(t[me.slot])
    ensures var (t', out) := Rx(t, me.iface, g, true);
            && |t'| == |t| && t'[me.slot] == t[me.slot] && OthersAside(t', me)
            && (out.Some? ==>
                  && !g.flags.rst && out.value.flags.rst && out.value.sport == 0
                  && out.value.src == me.iface.unicast && out.value.dst == g.src && out.value.dport == g.sport
                  && out.value.len == out.value.hlen == HDR_SIZE)
  {
    var s := ScanTo(t, |t|, me.iface, g);
    assert s.found.None? && s.listener.None?;
  }

  lemma Matched(t: seq<Cb>, me: End, g: Segment)
    requires OthersAside(t, me) && g.dport == me.port
    requires Matches(t[me.slot], me.iface, g) && g.dst == me.iface.unicast && g.len >= HDR_SIZE
    ensures Rx(t, me.iface, g, true) == (t[me.slot := Arrives(t[me.slot], g).0], Arrives(t[me.slot], g).1)
  {
    assert ScanTo(t, |t|, me.iface, g).found == Some(me.slot);
  }

  /** The handshake itself: a peer's segment meets a live connection. */
  lemma HandshakeStep(mine: Cb, other: Cb, me: End, peer: End, g: Segment)
    requires Apart(me, peer) && Live(mine, me, peer) && Linked(mine, other) && Linked(other, mine)
    requires Live(other, peer, me) && SegmentOk(g, other, mine, peer, me) && !g.flags.rst
    ensures var (c, out) := Arrives(mine, g);
            && Live(c, me, peer) && c.iss == mine.iss && Linked(c, other) && Linked(other, c)
            && (c.state == mine.state || mine.state == SynSent)
            && (out.Some? ==> SegmentOk(out.value, c, other, me, peer) && out.value.src == me.iface.unicast)
  {
  }

  lemma ReloadBack(from: Endian, to: Endian, port: uint16)
    ensures Reloaded(to, from, Reloaded(from, to, port)) == port
    ensures Reloaded(from, to, port) == 0 <==> port == 0
  {
    Hton16Inverse(to, Hton16(from, port));
    Hton16Inverse(from, port);
    if port == 0 {
      assert Hton16(from, 0) == 0 && Hton16(to, 0) == 0;
    } else {
      WirePortNonZero(from, port);
      WirePortNonZero(to, Hton16(from, port));
    }
  }

  /** A segment of the other end, as it arrives. */
  lemma LoadedPorts(g: Segment, other: Cb, mine: Cb, me: End, peer: End)
    requires SegmentOk(g, other, mine, peer, me) && Apart(me, peer)
    ensures var h := Loaded(g, peer, me);
            && h.dport == me.port && PortAt(peer, me) != 0
            && h.sport == (if g.flags.rst then 0 else PortAt(peer, me))
  {
    ReloadBack(me.e, peer.e, me.port);
    ReloadBack(peer.e, me.e, peer.port);
    ReloadBack(peer.e, me.e, 0);
  }

  lemma DeliverMatched(t: seq<Cb>, u: seq<Cb>, me: End, peer: End, net: set<Segment>, g: Segment)
    requires Apart(me, peer) && BothHalves(t, u, me, peer, net) && g in net
    requires g.dst == me.iface.unicast && g.src == peer.iface.unicast
    requires Matches(t[me.slot], me.iface, Loaded(g, peer, me)) && Loaded(g, peer, me).dport == me.port
    requires !g.flags.rst
    ensures var (t', out) := Rx(t, me.iface, Loaded(g, peer, me), true);
            BothHalves(t', u, me, peer, With(net, out))
  {
    var h := Loaded(g, peer, me);
    Matched(t, me, h);
    assert Arrives(t[me.slot], h) == Arrives(t[me.slot], g);
    HandshakeStep(t[me.slot], u[peer.slot], me, peer, g);
  }

  lemma DeliverStep(t: seq<Cb>, u: seq<Cb>, me: End, peer: End, net: set<Segment>, g: Segment, sumOk: bool)
    requires Apart(me, peer) && BothHalves(t, u, me, peer, net) && g in net
    ensures var (t', out) := Rx(t, me.iface, Loaded(g, peer, me), sumOk);
            BothHalves(t', u, me, peer, With(net, out))
  {
    var h := Loaded(g, peer, me);
    if g.dst == me.iface.unicast && sumOk {
      assert g.src == peer.iface.unicast;
      LoadedPorts(g, u[peer.slot], t[me.slot], me, peer);
      if Matches(t[me.slot], me.iface, h) {
        DeliverMatched(t, u, me, peer, net, g);
      } else {
        Unmatched(t, me, h);
      }
    }
  }

  lemma NextInv(w: World, a: End, b: End, ev: Event)
    requires Apart(a, b) && Inv(w, a, b) && Enabled(w, a, b, ev)
    ensures Inv(Next(w, a, b, ev), a, b)
  {
    match ev {
      case Dial(true, port, env) => DialStep(w.a, w.b, a, b, w.net, port, env);
      case Dial(false, port, env) => DialStep(w.b, w.a, b, a, w.net, port, env);
      case Deliver(true, g, ok) => DeliverStep(w.a, w.b, a, b, w.net, g, ok);
      case Deliver(false, g, ok) => DeliverStep(w.b, w.a, b, a, w.net, g, ok);
      case Elsewhere(_, _) =>
    }
  }

  lemma {:induction false} RunInv(w: World, a: End, b: End, evs: seq<Event>)
    requires Apart(a, b) && Inv(w, a, b) && EnabledRun(w, a, b, evs)
    ensures Inv(Run(w, a, b, evs), a, b)
    decreases evs
  {
    if evs != [] {
      NextInv(w, a, b, evs[0]);
      RunInv(Next(w, a, b, evs[0]), a, b, evs[1..]);
    }
  }

  /** Before anything is sent: the application's slot is open, and nothing else is on its port. */
  predicate Starting(t: seq<Cb>, me: End)
  {
    OthersAside(t, me) && Idle(t[me.slot])
  }

  /**
   * Handshake agreement: whenever one end is ESTABLISHED, exactly its SYN has been acknowledged, it expects the
   * byte after the other end's SYN, and the other end is in SYN_RCVD and has recorded its initial sequence number.
   * In particular the two are never ESTABLISHED together.
   */
  lemma HandshakeAgreement(ta: seq<Cb>, tb: seq<Cb>, a: End, b: End, evs: seq<Event>)
    requires Apart(a, b) && Starting(ta, a) && Starting(tb, b) && EnabledRun(World(ta, tb, {}), a, b, evs)
    ensures var w := Run(World(ta, tb, {}), a, b, evs);
            && a.slot < |w.a| && b.slot < |w.b|
            && var x, y := w.a[a.slot], w.b[b.slot];
               && (x.state == Established ==>
                     x.sndUna == x.iss + 1 && x.rcvNxt == y.iss + 1 && y.state == SynRcvd && y.irs == x.iss)
               && (y.state == Established ==>
                     y.sndUna == y.iss + 1 && y.rcvNxt == x.iss + 1 && x.state == SynRcvd && x.irs == y.iss)
  {
    RunInv(World(ta, tb, {}), a, b, evs);
  }

  lemma {:induction false} RunSnoc(w: World, a: End, b: End, evs: seq<Event>, ev: Event)
    requires EnabledRun(w, a, b, evs) && Enabled(Run(w, a, b, evs), a, b, ev)
    ensures EnabledRun(w, a, b, evs + [ev]) && Run(w, a, b, evs + [ev]) == Next(Run(w, a, b, evs), a, b, ev)
    decreases evs
  {
    if evs == [] {
      assert evs + [ev] == [ev] && [ev][1..] == [];
    } else {
      RunSnoc(Next(w, a, b, evs[0]), a, b, evs[1..], ev);
      assert (evs + [ev])[1..] == evs[1..] + [ev];
    }
  }

  /** The number of a port that connect can choose first, at some time of day. */
  predicate Choosable(me: End, number: uint16)
  {
    PORT_MIN <= number < PORT_MIN + 1024 && me.port == Hton16(me.e, number)
  }

  /** A connect takes the first port it tries if no other block has it. */
  lemma FirstDial(t: seq<Cb>, me: End, peer: End, r: uint32, own: uint16, other: uint16)
    requires Starting(t, me) && Choosable(me, own) && Choosable(peer, other) && r < 0x8000_0000
    ensures var env := Env(me.e, own - PORT_MIN, Some(me.iface), r, true);
            && CanDial(t, me, peer, other, env)
            && var (t', out) := Dialled(t, me, peer, other, env);
               && |t'| == |t| && OthersAside(t', me) && Live(t'[me.slot], me, peer) && t'[me.slot].state == SynSent
               && t'[me.slot].sndUna == t'[me.slot].iss == r && t'[me.slot].rcvWnd == WINDOW
               && out == Some(SynOf(me, peer, r))
  {
    WirePortNonZero(me.e, own);
    Hton16Inverse(peer.e, other);
    assert !Taken(t, me.e, own);
    assert PORT_MIN + (own - PORT_MIN) % 1024 == own;
    assert PickPort(t, me.e, own) == Some(own);
  }

  function SynOf(me: End, peer: End, r: uint32): Segment
  {
    Segment(me.iface.unicast, peer.iface.unicast, me.port, PortAt(peer, me), r, 0, SYN, 20, 20, WINDOW)
  }

  /** Every checksum test succeeds, and only segments between the two hosts are delivered. */
  predicate Undisturbed(a: End, b: End, evs: seq<Event>)
  {
    forall ev :: ev in evs && ev.Deliver? ==> ev.sumOk && Between(a, b, ev.g)
  }

  predicate Between(a: End, b: End, g: Segment)
  {
    || (g.src == a.iface.unicast && g.dst == b.iface.unicast)
    || (g.src == b.iface.unicast && g.dst == a.iface.unicast)
  }

  /** Both ends have sent their SYN. */
  predicate BothDialled(w: World, a: End, b: End, ra: uint32, rb: uint32)
  {
    && OthersAside(w.a, a) && Live(w.a[a.slot], a, b) && w.a[a.slot].state == SynSent
    && w.a[a.slot].sndUna == w.a[a.slot].iss == ra && w.a[a.slot].rcvWnd == WINDOW
    && OthersAside(w.b, b) && Live(w.b[b.slot], b, a) && w.b[b.slot].state == SynSent
    && w.b[b.slot].sndUna == w.b[b.slot].iss == rb && SynOf(b, a, rb) in w.net
  }

  lemma BothDial(ta: seq<Cb>, tb: seq<Cb>, a: End, b: End, ra: uint32, rb: uint32, na: uint16,
                 nb: uint16)
    returns (evs: seq<Event>)
    requires Apart(a, b) && Starting(ta, a) && Starting(tb, b) && Choosable(a, na) && Choosable(b, nb)
    requires ra < 0x8000_0000 && rb < 0x8000_0000
    ensures EnabledRun(World(ta, tb, {}), a, b, evs) && Undisturbed(a, b, evs)
    ensures BothDialled(Run(World(ta, tb, {}), a, b, evs), a, b, ra, rb)
  {
    var w0 := World(ta, tb, {});
    var dialA := Dial(true, nb, Env(a.e, na - PORT_MIN, Some(a.iface), ra, true));
    var dialB := Dial(false, na, Env(b.e, nb - PORT_MIN, Some(b.iface), rb, true));
    FirstDial(ta, a, b, ra, na, nb);
    RunSnoc(w0, a, b, [], dialA);
    FirstDial(tb, b, a, rb, nb, na);
    RunSnoc(w0, a, b, [dialA], dialB);
    evs := [dialA] + [dialB];
  }

  /** The SYN of b meets the one of a: a answers, and its answer establishes b. */
  lemma Answers(w: World, a: End, b: End, ra: uint32, rb: uint32)
    requires BothDialled(w, a, b, ra, rb) && Apart(a, b)
    ensures var synAck := SynOf(a, b, ra).(ackNo := rb + 1, flags := SYN_ACK);
            var u := Next(w, a, b, Deliver(true, SynOf(b, a, rb), true));
            && synAck in u.net
            && var v := Next(u, a, b, Deliver(false, synAck, true)).b;
               |v| == |w.b| && b.slot < |v| && v[b.slot].state == Established
  {
    var syn, synAck := SynOf(b, a, rb), SynOf(a, b, ra).(ackNo := rb + 1, flags := SYN_ACK);
    ReloadBack(a.e, b.e, a.port);
    ReloadBack(b.e, a.e, b.port);
    Matched(w.a, a, Loaded(syn, b, a));
    Matched(w.b, b, Loaded(synAck, a, b));
  }

  /** Agreement is not vacuous: from any tables the two may start with, one end can reach ESTABLISHED. */
  lemma EstablishedReachable(ta: seq<Cb>, tb: seq<Cb>, a: End, b: End, ra: uint32, rb: uint32, na: uint16,
                             nb: uint16)
    returns (evs: seq<Event>)
    requires Apart(a, b) && Starting(ta, a) && Starting(tb, b) && Choosable(a, na) && Choosable(b, nb)
    requires ra < 0x8000_0000 && rb < 0x8000_0000
    ensures EnabledRun(World(ta, tb, {}), a, b, evs) && Undisturbed(a, b, evs)
    ensures EstablishedAt(Run(World(ta, tb, {}), a, b, evs).b, b)
  {
    var w0 := World(ta, tb, {});
    evs := BothDial(ta, tb, a, b, ra, rb, na, nb);
    var w := Run(w0, a, b, evs);
    var syn, synAck := SynOf(b, a, rb), SynOf(a, b, ra).(ackNo := rb + 1, flags := SYN_ACK);
    Answers(w, a, b, ra, rb);
    RunSnoc(w0, a, b, evs, Deliver(true, syn, true));
    evs := evs + [Deliver(true, syn, true)];
    RunSnoc(w0, a, b, evs, Deliver(false, synAck, true));
    evs := evs + [Deliver(false, synAck, true)];
  }

  predicate EstablishedAt(t: seq<Cb>, me: End)
  {
    me.slot < |t| && t[me.slot].state == Established
  }

  // ---- with the checksum the hosts compute ---------------------------------------------------

  /** The test `to` makes on the bytes `from` sent. */
  predicate Passes(from: End, to: End, g: Segment)
  {
    Verifies(to.e, g.src, g.dst, Wire(from.e, g))
  }

  /** The outcome of every checksum test is the one computed from the bytes of the segment. */
  predicate Computed(a: End, b: End, evs: seq<Event>)
  {
    forall ev :: ev in evs && ev.Deliver? ==> ev.sumOk == if ev.atA then Passes(b, a, ev.g) else Passes(a, b, ev.g)
  }

  lemma TestIsAgreement(from: End, to: End, g: Segment)
    requires Between(from, to, g)
    ensures Passes(from, to, g) <==> Agree(from.e, from.iface.unicast, to.iface.unicast)
  {
    AcceptedIff(from.e, to.e, g.src, g.dst, Image(from.e, g));
  }

  /** The application's block has sent nothing but its SYN. */
  predicate Waiting(t: seq<Cb>, me: End)
  {
    me.slot < |t| && t[me.slot].state in {Closed, SynSent}
  }

  lemma DeafStep(w: World, a: End, b: End, ev: Event, atA: bool)
    requires Apart(a, b) && Inv(w, a, b) && Enabled(w, a, b, ev) && Computed(a, b, [ev])
    requires !Agree(if atA then b.e else a.e, a.iface.unicast, b.iface.unicast)
    requires if atA then Waiting(w.a, a) else Waiting(w.b, b)
    ensures var w' := Next(w, a, b, ev);
            if atA then Waiting(w'.a, a) else Waiting(w'.b, b)
  {
    assert ev in [ev];
    if ev.Deliver? {
      assert Between(a, b, ev.g);
      if atA {
        TestIsAgreement(b, a, ev.g);
      } else {
        TestIsAgreement(a, b, ev.g);
      }
    }
  }

  /** If the segments of one end do not pass, the other never gets beyond SYN_SENT. */
  lemma {:induction false} StaysDeaf(w: World, a: End, b: End, evs: seq<Event>, atA: bool)
    requires Apart(a, b) && Inv(w, a, b) && EnabledRun(w, a, b, evs) && Computed(a, b, evs)
    requires !Agree(if atA then b.e else a.e, a.iface.unicast, b.iface.unicast)
    requires if atA then Waiting(w.a, a) else Waiting(w.b, b)
    ensures var w' := Run(w, a, b, evs);
            if atA then Waiting(w'.a, a) else Waiting(w'.b, b)
    decreases evs
  {
    if evs != [] {
      NextInv(w, a, b, evs[0]);
      DeafStep(w, a, b, evs[0], atA);
      StaysDeaf(Next(w, a, b, evs[0]), a, b, evs[1..], atA);
    }
  }

  /** Neither end is ESTABLISHED in any run in which the segments of one end do not pass the tests of the other. */
  lemma NeverEstablished(ta: seq<Cb>, tb: seq<Cb>, a: End, b: End, evs: seq<Event>)
    requires Apart(a, b) && Starting(ta, a) && Starting(tb, b) && EnabledRun(World(ta, tb, {}), a, b, evs)
    requires Computed(a, b, evs)
    requires !(Agree(a.e, a.iface.unicast, b.iface.unicast) && Agree(b.e, a.iface.unicast, b.iface.unicast))
    ensures var w := Run(World(ta, tb, {}), a, b, evs);
            !EstablishedAt(w.a, a) && !EstablishedAt(w.b, b)
  {
    var w, deaf := World(ta, tb, {}), !Agree(b.e, a.iface.unicast, b.iface.unicast);
    StaysDeaf(w, a, b, evs, deaf);
    HandshakeAgreement(ta, tb, a, b, evs);
  }

  /**
   * With the checksums the hosts compute, a connection can be ESTABLISHED exactly if the low halves of the two
   * addresses agree modulo 65535, as each of the two hosts sees them.
   */
  lemma EstablishedIffAgree(ta: seq<Cb>, tb: seq<Cb>, a: End, b: End, na: uint16, nb: uint16)
    requires Apart(a, b) && Starting(ta, a) && Starting(tb, b) && Choosable(a, na) && Choosable(b, nb)
    ensures (exists evs :: EnabledRun(World(ta, tb, {}), a, b, evs) && Computed(a, b, evs) &&
                           var w := Run(World(ta, tb, {}), a, b, evs);
                           EstablishedAt(w.a, a) || EstablishedAt(w.b, b)) <==>
            Agree(a.e, a.iface.unicast, b.iface.unicast) && Agree(b.e, a.iface.unicast, b.iface.unicast)
  {
    if Agree(a.e, a.iface.unicast, b.iface.unicast) && Agree(b.e, a.iface.unicast, b.iface.unicast) {
      var evs := EstablishedReachable(ta, tb, a, b, 0, 0, na, nb);
      forall ev | ev in evs && ev.Deliver?
        ensures Passes(b, a, ev.g) && Passes(a, b, ev.g)
      {
        TestIsAgreement(b, a, ev.g);
        TestIsAgreement(a, b, ev.g);
      }
      assert Computed(a, b, evs);
    } else {
      forall evs | EnabledRun(World(ta, tb, {}), a, b, evs) && Computed(a, b, evs)
        ensures var w := Run(World(ta, tb, {}), a, b, evs); !EstablishedAt(w.a, a) && !EstablishedAt(w.b, b)
      {
        NeverEstablished(ta, tb, a, b, evs);
      }
    }
  }
}
