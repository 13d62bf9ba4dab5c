/** What tcp_rx and connect do to any table, told by the fields of blocks and segments. */
module TcpRules {
  import opened ByteOrder
  import opened Wrappers
  import opened Tcp
  import opened TcpRuns

  // ---- whose segment it is -------------------------------------------------------------------

  /** The segment belongs to this block: both ports, the peer's address and the interface agree. */
  predicate Owns(cb: Cb, iface: Iface, g: Segment)
  {
    && (cb.used || cb.state != Closed)
    && cb.port == g.dport && cb.peerAddr == g.src && cb.peerPort == g.sport
    && (cb.iface == None || cb.iface == Some(iface))
  }

  predicate Valid(iface: Iface, g: Segment, sumOk: bool)
  {
    g.dst == iface.unicast && g.len >= 20 && sumOk
  }

  /** A block that is not free is changed only by a valid segment that belongs to it. */
  lemma OnlyOwnersChange(t: seq<Cb>, iface: Iface, g: Segment, sumOk: bool, i: nat)
    requires i < |t| && (t[i].used || t[i].state != Closed) && Rx(t, iface, g, sumOk).0[i] != t[i]
    ensures Valid(iface, g, sumOk) && Owns(t[i], iface, g)
  {
  }

  /** A valid segment is handled by the first block it belongs to. */
  lemma FirstOwnerHandles(t: seq<Cb>, iface: Iface, g: Segment, i: nat)
    requires Valid(iface, g, true) && i < |t| && Owns(t[i], iface, g)
    requires forall j :: 0 <= j < i ==> !Owns(t[j], iface, g)
    ensures Rx(t, iface, g, true) == (t[i := Arrives(t[i], g).0], Arrives(t[i], g).1)
  {
    var s := ScanTo(t, |t|, iface, g);
    assert Matches(t[i], iface, g);
    assert s.found.Some? ==> Owns(t[s.found.value], iface, g);
    assert s.found == Some(i);
  }

  /** The block accepts connections on the segment's port. */
  predicate Listens(cb: Cb, iface: Iface, g: Segment)
  {
    cb.state == Listen && cb.port == g.dport && (cb.iface == None || cb.iface == Some(iface))
  }

  lemma NothingFound(t: seq<Cb>, n: nat, iface: Iface, g: Segment)
    requires n <= |t| && forall j :: 0 <= j < n ==> !Owns(t[j], iface, g)
    ensures ScanTo(t, n, iface, g).found.None?
  {
  }

  lemma {:induction false} FirstListener(t: seq<Cb>, n: nat, iface: Iface, g: Segment)
    requires n <= |t| && forall j :: 0 <= j < n ==> !Owns(t[j], iface, g)
    ensures var l := ScanTo(t, n, iface, g).listener;
            && (l.None? ==> forall j :: 0 <= j < n ==> !Listens(t[j], iface, g))
            && (l.Some? ==> l.value < n && Listens(t[l.value], iface, g) &&
                            forall j :: 0 <= j < l.value ==> !Listens(t[j], iface, g))
  {
    if n > 0 {
      FirstListener(t, n - 1, iface, g);
      NothingFound(t, n - 1, iface, g);
      NothingFound(t, n, iface, g);
      assert OnPort(t[n - 1], iface, g) && t[n - 1].state == Listen <==> Listens(t[n - 1], iface, g);
    }
  }

  /** The slot a segment without an owner is answered from. */
  predicate LastFree(t: seq<Cb>, k: nat)
  {
    k < |t| && IsFree(t[k]) && forall j :: k < j < |t| ==> !IsFree(t[j])
  }

  lemma ScanWithoutOwner(t: seq<Cb>, iface: Iface, g: Segment)
    requires forall j :: 0 <= j < |t| ==> !Owns(t[j], iface, g)
    ensures var s := ScanTo(t, |t|, iface, g);
            && s.found.None?
            && (s.free.None? ==> forall j :: 0 <= j < |t| ==> !IsFree(t[j]))
            && (s.free.Some? ==> LastFree(t, s.free.value))
  {
    NothingFound(t, |t|, iface, g);
  }

  /** A segment that belongs to no block and finds no free one does nothing. */
  lemma NoRoom(t: seq<Cb>, iface: Iface, g: Segment, sumOk: bool)
    requires forall j :: 0 <= j < |t| ==> !Owns(t[j], iface, g) && !IsFree(t[j])
    ensures Rx(t, iface, g, sumOk) == (t, None)
  {
    ScanWithoutOwner(t, iface, g);
  }

  /** If nobody listens, the last free slot is left free and answers from port 0, unless the segment is a reset. */
  lemma NobodyListens(t: seq<Cb>, iface: Iface, g: Segment, k: nat)
    requires Valid(iface, g, true) && LastFree(t, k)
    requires forall j :: 0 <= j < |t| ==> !Owns(t[j], iface, g) && !Listens(t[j], iface, g)
    ensures var (r, out) := Rx(t, iface, g, true);
            && (forall j :: 0 <= j < |t| && j != k ==> r[j] == t[j])
            && IsFree(r[k]) && r[k].port == 0 && r[k].rcvWnd == 0 && r[k].iface == Some(iface)
            && r[k].peerAddr == g.src && r[k].peerPort == g.sport
            && (out == None <==> g.flags.rst)
            && (out.Some? ==> var a := out.value;
                              && a.src == iface.unicast && a.dst == g.src && a.sport == 0 && a.dport == g.sport
                              && a.wnd == 0 && a.flags == Flags(false, !g.flags.ack, true, false, false, false))
  {
    ScanWithoutOwner(t, iface, g);
    FirstListener(t, |t|, iface, g);
  }

  /** Otherwise the last free slot becomes a block of the first listener, bound to the sender, and says nothing. */
  lemma ListenerSpawns(t: seq<Cb>, iface: Iface, g: Segment, k: nat, l: nat)
    requires Valid(iface, g, true) && LastFree(t, k) && l < |t| && Listens(t[l], iface, g)
    requires forall j :: 0 <= j < |t| ==> !Owns(t[j], iface, g)
    requires forall j :: 0 <= j < l ==> !Listens(t[j], iface, g)
    ensures var (r, out) := Rx(t, iface, g, true);
            && out == None && (forall j :: 0 <= j < |t| && j != k ==> r[j] == t[j])
            && r[k] == t[k].(used := true, state := Listen, iface := Some(iface), port := g.dport, peerAddr := g.src,
                             peerPort := g.sport, rcvWnd := 65535, parent := Some(l))
  {
    ScanWithoutOwner(t, iface, g);
    FirstListener(t, |t|, iface, g);
    assert ScanTo(t, |t|, iface, g).listener == Some(l);
  }

  // ---- what it is answered -------------------------------------------------------------------

  /**
   * Every reset, on any table, follows section 3.4 of RFC 793 but for the length: it takes its sequence number from
   * the acknowledgment it answers, or else is numbered 0 and acknowledges the payload; the SYN is not counted.
   */
  lemma ResetNumbers(t: seq<Cb>, iface: Iface, g: Segment, sumOk: bool)
    ensures var out := Rx(t, iface, g, sumOk).1;
            out.Some? && out.value.flags.rst ==>
              if g.flags.ack then out.value.flags == RST && out.value.seqNo == g.ackNo && out.value.ackNo == 0
              else out.value.flags == RST_ACK && out.value.seqNo == 0 &&
                   out.value.ackNo == (g.seqNo + g.len - g.hlen) % 0x1_0000_0000
  {
  }

  /** What a block in SYN_SENT answers, exactly: a wrong acknowledgment is reset even if it comes with a reset. */
  lemma SynSentAnswers(cb: Cb, g: Segment)
    requires CbOk(cb) && cb.state == SynSent
    ensures var a := Segment(cb.iface.value.unicast, cb.peerAddr, cb.port, cb.peerPort, 0, 0, RST, 20, 20, cb.rcvWnd);
            var next := (g.seqNo + 1) % 0x1_0000_0000;
            Arrives(cb, g).1 ==
            if g.flags.ack && g.ackNo != cb.iss + 1 then Some(a.(seqNo := g.ackNo))
            else if g.flags.rst || !g.flags.syn then None
            else if g.ackNo > cb.iss then Some(a.(flags := ACK, seqNo := cb.iss + 1, ackNo := next))
            else Some(a.(flags := SYN_ACK, seqNo := cb.iss, ackNo := next))
  {
  }

  // ---- connections that stay -----------------------------------------------------------------

  lemma ApplySpares(t: seq<Cb>, op: Op, i: nat)
    requires i < |t| && t[i].used && t[i].state in {SynRcvd, Established}
    ensures Apply(t, op)[i] == t[i]
  {
  }

  /** A block in SYN_RCVD or ESTABLISHED is never changed again: no segment, not even a reset, reaches it. */
  lemma {:induction false} StaysForever(t: seq<Cb>, ops: seq<Op>, i: nat)
    requires i < |t| && t[i].used && t[i].state in {SynRcvd, Established}
    ensures Run(t, ops)[i] == t[i]
  {
    if ops != [] {
      var n := |ops| - 1;
      StaysForever(t, ops[..n], i);
      ApplySpares(Run(t, ops[..n]), ops[n], i);
    }
  }

  // ---- connecting ----------------------------------------------------------------------------

  /** A bad slot, or one that is not open and closed, is refused; nothing changes. */
  lemma ConnectRefuses(t: seq<Cb>, soc: int, addr: IpAddr, port: uint16, env: Env)
    requires 0 <= soc < |t| ==> !t[soc].used || t[soc].state != Closed
    ensures Connect(t, soc, addr, port, env) == Connection(t, false, None)
  {
  }

  /** The search for a port fails exactly if every port from its start to 65535 is taken. */
  lemma SearchFailsIff(t: seq<Cb>, e: Endian, from: nat)
    ensures PickPort(t, e, from).None? <==> forall i: uint16 :: from <= i <= 65535 ==> Taken(t, e, i)
  {
    var r := PickPort(t, e, from);
    if r.Some? {
      var i: uint16 := r.value;
      assert !Taken(t, e, i);
    }
  }

  /** A slot without a port gets the least unused one from 49152 plus the time modulo 1024 on; others keep theirs. */
  lemma ConnectPort(t: seq<Cb>, soc: nat, addr: IpAddr, port: uint16, env: Env) returns (n: uint16)
    requires |t| == 128 && soc < |t| && t[soc].used && t[soc].state == Closed
    ensures var own, from := Connect(t, soc, addr, port, env).table[soc].port, 49152 + env.time % 1024;
            if t[soc].port != 0 then own == t[soc].port
            else && own == Hton16(env.e, n) && from <= n < from + 128 && !Taken(t, env.e, n)
                 && forall m: uint16 :: from <= m < n ==> Taken(t, env.e, m)
  {
    n := 0;
    if t[soc].port == 0 {
      PortSearchSucceeds(t, env.e, soc, env.time);
      n := PickPort(t, env.e, PORT_MIN + env.time % 1024).value;
    }
  }

  /**
   * On an open slot only that slot changes. It keeps the port and the peer whether or not the connect succeeds, which
   * takes an interface and a working device; if it does, exactly one SYN has left, numbered at random.
   */
  lemma ConnectOutcome(t: seq<Cb>, soc: nat, addr: IpAddr, port: uint16, env: Env)
    requires |t| == 128 && soc < |t| && t[soc].used && t[soc].state == Closed
    ensures var r := Connect(t, soc, addr, port, env);
            var c := r.table[soc];
            && (forall j :: 0 <= j < |t| && j != soc ==> r.table[j] == t[j])
            && c.used && c.peerAddr == addr && c.peerPort == Hton16(env.e, port) && c.iface == env.iface
            && (r.ok <==> env.iface.Some? && env.sends)
            && (env.iface.Some? ==> c.iss == env.random && c.rcvWnd == 65535)
            && (!r.ok ==> c.state == Closed && r.out == None)
            && (r.ok ==> && c.state == SynSent && c.sndUna == env.random
                         && c.sndNxt == (env.random + 1) % 0x1_0000_0000
                         && r.out == Some(Segment(env.iface.value.unicast, addr, c.port, c.peerPort, env.random, 0, SYN,
                                                  20, 20, 65535)))
  {
    if t[soc].port == 0 {
      PortSearchSucceeds(t, env.e, soc, env.time);
    }
  }
}
