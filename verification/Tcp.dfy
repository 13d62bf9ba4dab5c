/** TCP control blocks and active open (tcp.c) on values: demultiplexing, the event switch, open and connect. */
module Tcp {
  import opened ByteOrder
  import opened Wrappers

  const HDR_SIZE: nat := 20
  const WINDOW: uint16 := 65535
  const PORT_MIN: nat := 49152
  const PORT_MAX: nat := 65535

  datatype State = Closed | Listen | SynSent | SynRcvd | Established
                 | FinWait1 | FinWait2 | Closing | TimeWait | CloseWait | LastAck

  /** The six flag bits. */
  datatype Flags = Flags(syn: bool, ack: bool, rst: bool, fin: bool, psh: bool, urg: bool)

  const SYN := Flags(true, false, false, false, false, false)
  const SYN_ACK := Flags(true, true, false, false, false, false)
  const ACK := Flags(false, true, false, false, false, false)
  const RST := Flags(false, false, true, false, false, false)
  const RST_ACK := Flags(false, true, true, false, false, false)

  /** An IP interface; two are the same object exactly when the numbers agree. */
  datatype Iface = Iface(id: nat, unicast: IpAddr)

  /** tcp.c: struct tcp_cb; ports in network byte order as they lie in memory. */
  datatype Cb = Cb(used: bool, state: State, iface: Option<Iface>, port: uint16, peerAddr: IpAddr, peerPort: uint16,
                   sndNxt: uint32, sndUna: uint32, iss: uint32, rcvNxt: uint32, rcvWnd: uint16, irs: uint32,
                   parent: Option<nat>)

  const ZERO := Cb(false, Closed, None, 0, [0, 0, 0, 0], 0, 0, 0, 0, 0, 0, 0, None)

  /** A segment with the addresses of its datagram; sequence numbers in host order, `hlen` the decoded data offset. */
  datatype Segment = Segment(src: IpAddr, dst: IpAddr, sport: uint16, dport: uint16, seqNo: uint32, ackNo: uint32,
                             flags: Flags, hlen: nat, len: nat, wnd: uint16)

  function Next32(v: uint32): uint32
  {
    (v + 1) % 0x1_0000_0000
  }

  /** tcp_tx of a bare header; nothing leaves a block without an interface. */
  function Emit(cb: Cb, seqNo: uint32, ackNo: uint32, flags: Flags): (r: Option<Segment>)
  {
    if cb.iface.None? then None
    else Some(Segment(cb.iface.value.unicast, cb.peerAddr, cb.port, cb.peerPort, seqNo, ackNo, flags,
                      HDR_SIZE, HDR_SIZE, cb.rcvWnd))
  }

  // ---- the event switch ----------------------------------------------------------------------

  /** tcp.c: tcp_event_segment_arrives. */
  function Arrives(cb: Cb, g: Segment): (r: (Cb, Option<Segment>))
  {
    match cb.state
    case Closed =>
      if g.flags.rst then (cb, None)
      else if g.flags.ack then (cb, Emit(cb, g.ackNo, 0, RST))
      else (cb, Emit(cb, 0, (g.seqNo + g.len - g.hlen) % 0x1_0000_0000, RST_ACK))
    case SynSent =>
      if g.flags.ack && (g.ackNo <= cb.iss || g.ackNo > cb.sndNxt) then (cb, Emit(cb, g.ackNo, 0, RST))
      else
        var acceptable := g.flags.ack && cb.sndUna <= g.ackNo <= cb.sndNxt;
        if g.flags.rst then (if acceptable then cb.(state := Closed, used := false) else cb, None)
        else if g.flags.syn then
          var c := cb.(rcvNxt := Next32(g.seqNo), irs := g.seqNo, sndUna := g.ackNo);
          if c.sndUna > c.iss then (c.(state := Established), Emit(c, c.sndNxt, c.rcvNxt, ACK))
          else (c.(state := SynRcvd), Emit(c, c.iss, c.rcvNxt, SYN_ACK))
        else (cb, None)
    case _ => (cb, None)
  }

  // ---- demultiplexing ------------------------------------------------------------------------

  predicate IsFree(cb: Cb)
  {
    !cb.used && cb.state == Closed
  }

  predicate OnPort(cb: Cb, iface: Iface, g: Segment)
  {
    !IsFree(cb) && (cb.iface.None? || cb.iface.value == iface) && cb.port == g.dport
  }

  /** This block is the connection the segment belongs to. */
  predicate Matches(cb: Cb, iface: Iface, g: Segment)
  {
    OnPort(cb, iface, g) && cb.peerAddr == g.src && cb.peerPort == g.sport
  }

  datatype Scan = Scan(found: Option<nat>, free: Option<nat>, listener: Option<nat>)

  /** The loop of tcp_rx over the first `n` slots: it stops at a match and keeps the last free slot before it. */
  function ScanTo(t: seq<Cb>, n: nat, iface: Iface, g: Segment): (r: Scan)
    requires n <= |t|
    ensures r.found.Some? ==> r.found.value < n && Matches(t[r.found.value], iface, g)
    ensures r.found.Some? ==> forall i :: 0 <= i < r.found.value ==> !Matches(t[i], iface, g)
    ensures r.found.None? ==> forall i :: 0 <= i < n ==> !Matches(t[i], iface, g)
    ensures r.free.Some? ==> r.free.value < n && IsFree(t[r.free.value])
    ensures r.found.None? && r.free.None? ==> forall i :: 0 <= i < n ==> !IsFree(t[i])
    ensures r.found.None? && r.free.Some? ==> forall i :: r.free.value < i < n ==> !IsFree(t[i])
    ensures r.listener.Some? ==>
              r.listener.value < n && t[r.listener.value].state == Listen && OnPort(t[r.listener.value], iface, g)
  {
    if n == 0 then Scan(None, None, None)
    else
      var r := ScanTo(t, n - 1, iface, g);
      var cb := t[n - 1];
      if r.found.Some? then r
      else if IsFree(cb) then r.(free := Some(n - 1))
      else if Matches(cb, iface, g) then r.(found := Some(n - 1))
      else if OnPort(cb, iface, g) && cb.state == Listen && r.listener.None? then r.(listener := Some(n - 1))
      else r
  }

  /** The free slot as tcp_rx fills it in when no block matches. */
  function Prepared(t: seq<Cb>, k: nat, listener: Option<nat>, iface: Iface, g: Segment): (cb: Cb)
    requires k < |t| && (listener.Some? ==> listener.value < |t|)
  {
    var c := t[k].(iface := Some(iface), peerAddr := g.src, peerPort := g.sport);
    if listener.Some? then
      var l := t[listener.value];
      c.(used := true, state := l.state, port := l.port, rcvWnd := WINDOW, parent := listener)
    else c.(used := false, port := 0, rcvWnd := 0)
  }

  /** tcp.c: tcp_rx; `sumOk` is the outcome of the checksum test. */
  function Rx(t: seq<Cb>, iface: Iface, g: Segment, sumOk: bool): (r: (seq<Cb>, Option<Segment>))
    ensures |r.0| == |t|
  {
    if g.dst != iface.unicast || g.len < HDR_SIZE || !sumOk then (t, None)
    else
      var s := ScanTo(t, |t|, iface, g);
      if s.found.Some? then
        var (cb, out) := Arrives(t[s.found.value], g);
        (t[s.found.value := cb], out)
      else if s.free.None? then (t, None)
      else
        var (cb, out) := Arrives(Prepared(t, s.free.value, s.listener, iface, g), g);
        (t[s.free.value := cb], out)
  }

  // ---- open and connect ----------------------------------------------------------------------

  function FirstUnused(t: seq<Cb>): (i: nat)
    ensures i <= |t| && (i < |t| ==> !t[i].used)
    ensures forall j :: 0 <= j < i ==> t[j].used
  {
    if t == [] || !t[0].used then 0 else 1 + FirstUnused(t[1..])
  }

  /** tcp.c: tcp_api_open. */
  function Open(t: seq<Cb>): (r: seq<Cb>)
    ensures |r| == |t|
  {
    var i := FirstUnused(t);
    if i == |t| then t else t[i := t[i].(used := true, state := Closed)]
  }

  /** Some used block has this port number. */
  predicate Taken(t: seq<Cb>, e: Endian, port: uint16)
  {
    exists j :: 0 <= j < |t| && t[j].used && t[j].port == Hton16(e, port)
  }

  /** The least port from `from` on that no used block has. */
  function PickPort(t: seq<Cb>, e: Endian, from: nat): (r: Option<nat>)
    ensures r.Some? ==> from <= r.value <= PORT_MAX && !Taken(t, e, r.value)
    ensures forall i: nat :: from <= i <= PORT_MAX && (r.Some? ==> i < r.value) ==> Taken(t, e, i)
    decreases PORT_MAX + 1 - from
  {
    if from > PORT_MAX then None
    else if !Taken(t, e, from) then Some(from)
    else PickPort(t, e, from + 1)
  }

  datatype Connection = Connection(table: seq<Cb>, ok: bool, out: Option<Segment>)

  /** The environment of one connect: the clock, the default interface, the random number, whether sending works. */
  datatype Env = Env(e: Endian, time: nat, iface: Option<Iface>, random: uint32, sends: bool)

  /** tcp.c: tcp_api_connect up to its wait. Early failures leave the fields set so far. */
  function Connect(t: seq<Cb>, soc: int, addr: IpAddr, port: uint16, env: Env): (r: Connection)
    ensures |r.table| == |t|
  {
    if soc < 0 || soc >= |t| then Connection(t, false, None)
    else if !t[soc].used || t[soc].state != Closed then Connection(t, false, None)
    else
      var picked := if t[soc].port != 0 then None else PickPort(t, env.e, PORT_MIN + env.time % 1024);
      if t[soc].port == 0 && picked.None? then Connection(t, false, None)
      else
        var own := if t[soc].port != 0 then t[soc].port else Hton16(env.e, picked.value);
        var a := t[soc].(port := own, peerAddr := addr, peerPort := Hton16(env.e, port), iface := env.iface);
        if env.iface.None? then Connection(t[soc := a], false, None)
        else
          var b := a.(rcvWnd := WINDOW, iss := env.random);
          if !env.sends then Connection(t[soc := b], false, None)
          else
            var c := b.(sndUna := b.iss, sndNxt := Next32(b.iss), state := SynSent);
            Connection(t[soc := c], true, Emit(b, b.iss, 0, SYN))
  }

  // ---- port choice ---------------------------------------------------------------------------

  /** One of these slots has this port. */
  predicate Blocks(t: seq<Cb>, e: Endian, slots: set<nat>, port: uint16)
  {
    exists j :: j in slots && j < |t| && t[j].port == Hton16(e, port)
  }

  /** Since a slot has one port, no more ports are blocked than there are slots. */
  lemma {:induction false} Pigeonhole(t: seq<Cb>, e: Endian, from: nat, n: nat, slots: set<nat>)
    requires from + n <= PORT_MAX + 1
    requires forall i :: from <= i < from + n ==> Blocks(t, e, slots, i)
    ensures n <= |slots|
    decreases n
  {
    if n > 0 {
      var top := from + n - 1;
      assert Blocks(t, e, slots, top);
      var j :| j in slots && j < |t| && t[j].port == Hton16(e, top);
      forall i | from <= i < from + (n - 1)
        ensures Blocks(t, e, slots - {j}, i)
      {
        assert Blocks(t, e, slots, i);
        var k :| k in slots && k < |t| && t[k].port == Hton16(e, i);
        if k == j {
          Hton16Injective(e, i, top);
        }
        assert k in slots - {j};
      }
      Pigeonhole(t, e, from, n - 1, slots - {j});
    }
  }

  function UpTo(n: nat): (r: set<nat>)
    ensures |r| == n && forall j: nat :: j in r <==> j < n
  {
    if n == 0 then {} else UpTo(n - 1) + {n - 1}
  }

  lemma WirePortNonZero(e: Endian, port: uint16)
    requires port != 0
    ensures Hton16(e, port) != 0
  {
    Hton16Inverse(e, port);
    assert Hton16(e, 0) == 0;
  }

  lemma TakenIsBlocked(t: seq<Cb>, e: Endian, soc: nat, port: uint16)
    requires soc < |t| && t[soc].port == 0 && port != 0 && Taken(t, e, port)
    ensures Blocks(t, e, UpTo(|t|) - {soc}, port)
  {
    assert Hton16(e, port) != 0 by { WirePortNonZero(e, port); }
    var j: nat :| j < |t| && t[j].used && t[j].port == Hton16(e, port);
    assert j != soc && j in UpTo(|t|);
  }

  /** Among as many ports as there are slots, one is free for a slot that has none. */
  lemma SomePortFree(t: seq<Cb>, e: Endian, soc: nat, from: nat)
    requires soc < |t| && t[soc].port == 0 && 0 < from && from + |t| <= PORT_MAX + 1
    ensures exists i :: from <= i < from + |t| && !Taken(t, e, i)
  {
    if forall i :: from <= i < from + |t| ==> Taken(t, e, i) {
      var slots := UpTo(|t|) - {soc};
      assert |slots| == |t| - 1;
      forall i | from <= i < from + |t|
        ensures Blocks(t, e, slots, i)
      {
        TakenIsBlocked(t, e, soc, i);
      }
      Pigeonhole(t, e, from, |t|, slots);
    }
  }

  /**
   * The search for a port always succeeds: the asking slot has none, so at most 127 others block, and the least
   * free port lies within the first 128 candidates. The failure branch of tcp_api_connect is unreachable.
   */
  lemma PortSearchSucceeds(t: seq<Cb>, e: Endian, soc: nat, time: nat)
    requires |t| == 128 && soc < 128 && t[soc].port == 0
    ensures var from := PORT_MIN + time % 1024;
            var r := PickPort(t, e, from);
            && r.Some? && from <= r.value < from + 128 && !Taken(t, e, r.value)
            && forall i :: from <= i < r.value ==> Taken(t, e, i)
  {
    SomePortFree(t, e, soc, PORT_MIN + time % 1024);
  }
}
