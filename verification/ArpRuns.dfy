/**
 * The ARP cache over runs: every interleaving of the locked sections of arp_rx and arp_resolve, with threads that
 * sit in the gap of arp_rx or wait in arp_resolve.
 */
module ArpRuns {
  import opened ByteOrder
  import opened Wrappers
  import opened ArpTable

  datatype Message = Message(spa: IpAddr, sha: MacAddr, tpa: IpAddr)

  /** A packet on its way to a next hop through a device. */
  datatype Packet = Packet(dev: nat, nexthop: IpAddr, bytes: Bytes)

  /** One call of ip_tx_netdev: thread `who` wants `data` sent to next hop `pa`. */
  datatype Ask = Ask(who: nat, netif: Netif, pa: IpAddr, data: Option<Bytes>)

  /** A thread waiting in arp_resolve. */
  datatype Waiter = Waiter(slot: nat, ask: Ask)

  /**
   * The cache, the threads inside it, and the history the properties speak about. Of the packets `asked` to be
   * sent, some are `saved` in the table, some handed to the device at once (`direct`) or after a wait (`woken`), and
   * for some the call `failed`; saved ones are `sent` when a message resolves them, or `dropped`.
   */
  datatype System = System(
    table: seq<Entry>, timestamp: int,
    gap: seq<(IpAddr, MacAddr)>, waiters: seq<Waiter>,
    clock: int, heard: set<(IpAddr, MacAddr)>,
    asked: seq<Packet>, saved: seq<Packet>, direct: seq<Sent>, woken: seq<Sent>, failed: seq<Packet>,
    sent: seq<Sent>, dropped: seq<Packet>)

  function Start(size: nat, now: int): System
  {
    System(seq(size, _ => CLEAR), now, [], [], now, {}, [], [], [], [], [], [], [])
  }

  /** `accepts` says whether the device takes the packet, if it is handed one. */
  datatype Action =
    | RxUpdate(msg: Message, us: Option<IpAddr>, now: int, stamp: int)  // arp_rx up to the unlock
    | RxInsert(k: nat, now: int)                                        // arp_rx after it, for the k-th thread there
    | Resolving(ask: Ask, alloc: bool, now: int, accepts: bool)         // ip_tx_netdev up to its return or wait
    | Waking(k: nat, timedOut: bool, accepts: bool)                     // the k-th waiter goes on to its return

  function Remove<T>(s: seq<T>, k: nat): seq<T>
    requires k < |s|
  {
    s[..k] + s[k + 1..]
  }

  /** The packet waiting in an entry. */
  function OfEntry(e: Entry): seq<Packet>
  {
    if e.data.Some? then [Packet(if e.netif.Some? then e.netif.value.dev else 0, e.pa, e.data.value)] else []
  }

  /** The packets waiting in the table, in slot order. */
  function Pending(t: seq<Entry>): seq<Packet>
  {
    if t == [] then [] else OfEntry(t[0]) + Pending(t[1..])
  }

  /** The packets a patrol discards. */
  function Discards(t: seq<Entry>, timestamp: int): seq<Packet>
  {
    if t == [] then []
    else (if Expired(t[0], timestamp) then OfEntry(t[0]) else []) + Discards(t[1..], timestamp)
  }

  function PacketsOf(sent: seq<Sent>): seq<Packet>
  {
    seq(|sent|, i requires 0 <= i < |sent| => Packet(sent[i].dev, sent[i].nexthop, sent[i].bytes))
  }

  function OfAsk(ask: Ask): seq<Packet>
  {
    if ask.data.Some? then [Packet(ask.netif.dev, ask.pa, ask.data.value)] else []
  }

  /** What the device is handed for a call whose address was found. */
  function Framed(ask: Ask, ha: MacAddr): seq<Sent>
  {
    if ask.data.Some? then [Sent(ask.netif.dev, ask.pa, ask.data.value, ha)] else []
  }

  /** The packets of the waiting threads. */
  function Held(waiters: seq<Waiter>): seq<Packet>
  {
    if waiters == [] then [] else OfAsk(waiters[0].ask) + Held(waiters[1..])
  }

  /** How often `p` occurs. */
  function Count(ps: seq<Packet>, p: Packet): nat
  {
    if ps == [] then 0 else (if ps[0] == p then 1 else 0) + Count(ps[1..], p)
  }

  predicate Enabled(s: System, a: Action)
  {
    match a
    case RxUpdate(_, _, _, _) => true
    case RxInsert(k, _) => k < |s.gap|
    case Resolving(_, _, _, _) => true
    case Waking(k, _, _) => k < |s.waiters| && s.waiters[k].slot < |s.table|
  }

  /** The clock does not go back. */
  predicate InTime(s: System, a: Action)
  {
    match a
    case RxUpdate(_, _, now, stamp) => s.clock <= now <= stamp
    case RxInsert(_, now) => s.clock <= now
    case Resolving(_, _, now, _) => s.clock <= now
    case Waking(_, _, _) => true
  }

  function Act(s: System, a: Action): System
    requires Enabled(s, a)
  {
    match a
    case RxUpdate(msg, us, now, stamp) =>
      var t := Swept(s.table, s.timestamp, now);
      var merged := Select(t, msg.spa) < |t|;
      s.(table := Update(t, msg.spa, msg.sha, stamp), timestamp := SweptAt(s.timestamp, now), clock := stamp,
         gap := if !merged && us == Some(msg.tpa) then s.gap + [(msg.spa, msg.sha)] else s.gap,
         heard := s.heard + {(msg.spa, msg.sha)},
         sent := s.sent + Released(t, msg.spa, msg.sha),
         dropped := s.dropped + if now - s.timestamp > PATROL_SEC then Discards(s.table, now) else [])
    case RxInsert(k, now) =>
      s.(table := Insert(s.table, s.gap[k].0, s.gap[k].1, now), gap := Remove(s.gap, k), clock := now)
    case Resolving(ask, alloc, now, accepts) =>
      var (t, r) := Resolve(s.table, ask.netif, ask.pa, ask.data, alloc, now);
      s.(table := t, clock := now, asked := s.asked + OfAsk(ask),
         waiters := if r.Wait? then s.waiters + [Waiter(r.slot, ask)] else s.waiters,
         saved := if r.Query? then s.saved + OfAsk(ask) else s.saved,
         direct := if r.Found? && accepts then s.direct + Framed(ask, r.ha) else s.direct,
         failed := if r.Failed? || (r.Found? && !accepts) then s.failed + OfAsk(ask) else s.failed)
    case Waking(k, timedOut, accepts) =>
      var w := s.waiters[k];
      var (t, r) := Wake(s.table, w.slot, timedOut);
      s.(table := t, waiters := Remove(s.waiters, k),
         woken := if r.Found? && accepts then s.woken + Framed(w.ask, r.ha) else s.woken,
         failed := if r.Found? && accepts then s.failed else s.failed + OfAsk(w.ask),
         dropped := s.dropped + if timedOut then OfEntry(s.table[w.slot]) else [])
  }

  predicate EnabledRun(s: System, acts: seq<Action>)
    decreases acts
  {
    acts == [] || (Enabled(s, acts[0]) && EnabledRun(Act(s, acts[0]), acts[1..]))
  }

  function Run(s: System, acts: seq<Action>): System
    requires EnabledRun(s, acts)
    decreases acts
  {
    if acts == [] then s else Run(Act(s, acts[0]), acts[1..])
  }

  // ---- the invariant -------------------------------------------------------------------------

  /** Unused slots are clear, a saved packet sits in an unresolved entry with its device. */
  predicate EntryOk(e: Entry, heard: set<(IpAddr, MacAddr)>)
  {
    && (!e.used ==> e == CLEAR)
    && (e.data.Some? ==> e.ha == ANY && e.netif.Some?)
    && (e.used && e.ha != ANY ==> (e.pa, e.ha) in heard)
  }

  predicate Inv(s: System)
  {
    && (forall i :: 0 <= i < |s.table| ==> EntryOk(s.table[i], s.heard))
    && (forall g :: g in s.gap ==> g in s.heard)
    && (forall w :: w in s.waiters ==> w.slot < |s.table|)
    && (forall x :: x in s.sent ==> (x.nexthop, x.ha) in s.heard)
    && (forall x :: x in s.direct ==> (x.nexthop, x.ha) in s.heard)
  }

  /** Every copy of `p` ever saved is waiting in the table, was handed to a device, or was discarded. */
  predicate Balanced(s: System, p: Packet)
  {
    Count(s.saved, p) == Count(Pending(s.table), p) + Count(PacketsOf(s.sent), p) + Count(s.dropped, p)
  }

  /** Every copy of `p` ever asked for is with a waiting thread, or its call has returned in one of four ways. */
  predicate Accounted(s: System, p: Packet)
  {
    Count(s.asked, p) == Count(Held(s.waiters), p) + Count(s.saved, p) + Count(PacketsOf(s.direct), p) +
                         Count(PacketsOf(s.woken), p) + Count(s.failed, p)
  }

  // ---- conservation --------------------------------------------------------------------------

  lemma {:induction false} CountSum(a: seq<Packet>, b: seq<Packet>, p: Packet)
    ensures Count(a + b, p) == Count(a, p) + Count(b, p)
  {
    if a == [] {
      assert a + b == b;
    } else {
      CountSum(a[1..], b, p);
      assert (a + b)[1..] == a[1..] + b;
    }
  }

  lemma CountSent(sent: seq<Sent>, more: seq<Sent>, p: Packet)
    ensures Count(PacketsOf(sent + more), p) == Count(PacketsOf(sent), p) + Count(PacketsOf(more), p)
  {
    assert PacketsOf(sent + more) == PacketsOf(sent) + PacketsOf(more);
    CountSum(PacketsOf(sent), PacketsOf(more), p);
  }

  lemma {:induction false} PendingUpdate(t: seq<Entry>, i: nat, e: Entry, p: Packet)
    requires i < |t|
    ensures Count(Pending(t[i := e]), p) + Count(OfEntry(t[i]), p) == Count(Pending(t), p) + Count(OfEntry(e), p)
  {
    var u := t[i := e];
    CountSum(OfEntry(t[0]), Pending(t[1..]), p);
    CountSum(OfEntry(u[0]), Pending(u[1..]), p);
    if i > 0 {
      PendingUpdate(t[1..], i - 1, e, p);
      assert u[1..] == t[1..][i - 1 := e];
    } else {
      assert u[1..] == t[1..];
    }
  }

  lemma {:induction false} PendingPatrol(t: seq<Entry>, timestamp: int, p: Packet)
    ensures Count(Pending(Patrolled(t, timestamp)), p) + Count(Discards(t, timestamp), p) == Count(Pending(t), p)
  {
    var u := Patrolled(t, timestamp);
    if t != [] {
      PendingPatrol(t[1..], timestamp, p);
      assert u[1..] == Patrolled(t[1..], timestamp);
      CountSum(OfEntry(t[0]), Pending(t[1..]), p);
      CountSum(OfEntry(u[0]), Pending(u[1..]), p);
      CountSum(if Expired(t[0], timestamp) then OfEntry(t[0]) else [], Discards(t[1..], timestamp), p);
    }
  }

  lemma {:induction false} PendingClear(t: seq<Entry>)
    requires forall i :: 0 <= i < |t| ==> t[i] == CLEAR
    ensures Pending(t) == []
  {
    if t != [] {
      PendingClear(t[1..]);
    }
  }

  /** A message moves at most the packet it resolves, from the table to the device. */
  lemma BalanceUpdate(t: seq<Entry>, heard: set<(IpAddr, MacAddr)>, msg: Message, stamp: int, p: Packet)
    requires forall i :: 0 <= i < |t| ==> EntryOk(t[i], heard)
    ensures Count(Pending(Update(t, msg.spa, msg.sha, stamp)), p) +
            Count(PacketsOf(Released(t, msg.spa, msg.sha)), p) == Count(Pending(t), p)
  {
    var i := Select(t, msg.spa);
    if i < |t| {
      PendingUpdate(t, i, t[i].(ha := msg.sha, timestamp := stamp, data := None), p);
      assert PacketsOf(Released(t, msg.spa, msg.sha)) == OfEntry(t[i]);
    }
  }

  lemma BalanceRxUpdate(s: System, a: Action, p: Packet)
    requires Inv(s) && Enabled(s, a) && a.RxUpdate? && Balanced(s, p)
    ensures Balanced(Act(s, a), p)
  {
    var t := Swept(s.table, s.timestamp, a.now);
    var discards := if a.now - s.timestamp > PATROL_SEC then Discards(s.table, a.now) else [];
    assert Count(Pending(t), p) + Count(discards, p) == Count(Pending(s.table), p) by {
      PendingPatrol(s.table, a.now, p);
    }
    BalanceUpdate(t, s.heard, a.msg, a.stamp, p);
    CountSum(s.dropped, discards, p);
    CountSent(s.sent, Released(t, a.msg.spa, a.msg.sha), p);
  }

  lemma BalanceRxInsert(s: System, a: Action, p: Packet)
    requires Inv(s) && Enabled(s, a) && a.RxInsert? && Balanced(s, p)
    ensures Balanced(Act(s, a), p)
  {
    var i := FirstFree(s.table);
    var g := s.gap[a.k];
    if i < |s.table| {
      PendingUpdate(s.table, i, s.table[i].(used := true, pa := g.0, ha := g.1, timestamp := a.now), p);
    }
  }

  lemma BalanceResolving(s: System, a: Action, p: Packet)
    requires Inv(s) && Enabled(s, a) && a.Resolving? && Balanced(s, p)
    ensures Balanced(Act(s, a), p)
  {
    var ask := a.ask;
    var (t, r) := Resolve(s.table, ask.netif, ask.pa, ask.data, a.alloc, a.now);
    if r.Query? {
      var k := FirstFree(s.table);
      PendingUpdate(s.table, k, t[k], p);
      CountSum(s.saved, OfAsk(ask), p);
    }
  }

  lemma BalanceWaking(s: System, a: Action, p: Packet)
    requires Inv(s) && Enabled(s, a) && a.Waking? && Balanced(s, p)
    ensures Balanced(Act(s, a), p)
  {
    var slot := s.waiters[a.k].slot;
    CountSum(s.dropped, if a.timedOut then OfEntry(s.table[slot]) else [], p);
    if s.table[slot].used && a.timedOut {
      PendingUpdate(s.table, slot, CLEAR, p);
    }
  }

  lemma ActBalances(s: System, a: Action, p: Packet)
    requires Inv(s) && Enabled(s, a) && Balanced(s, p)
    ensures Balanced(Act(s, a), p)
  {
    match a
    case RxUpdate(_, _, _, _) => BalanceRxUpdate(s, a, p);
    case RxInsert(_, _) => BalanceRxInsert(s, a, p);
    case Resolving(_, _, _, _) => BalanceResolving(s, a, p);
    case Waking(_, _, _) => BalanceWaking(s, a, p);
  }

  // ---- accounting ----------------------------------------------------------------------------

  lemma {:induction false} HeldAppend(waiters: seq<Waiter>, w: Waiter, p: Packet)
    ensures Count(Held(waiters + [w]), p) == Count(Held(waiters), p) + Count(OfAsk(w.ask), p)
  {
    if waiters == [] {
      assert waiters + [w] == [w] && [w][1..] == [];
      CountSum(OfAsk(w.ask), [], p);
    } else {
      HeldAppend(waiters[1..], w, p);
      assert (waiters + [w])[1..] == waiters[1..] + [w];
      CountSum(OfAsk(waiters[0].ask), Held(waiters[1..] + [w]), p);
      CountSum(OfAsk(waiters[0].ask), Held(waiters[1..]), p);
    }
  }

  lemma {:induction false} HeldRemove(waiters: seq<Waiter>, k: nat, p: Packet)
    requires k < |waiters|
    ensures Count(Held(Remove(waiters, k)), p) + Count(OfAsk(waiters[k].ask), p) == Count(Held(waiters), p)
  {
    CountSum(OfAsk(waiters[0].ask), Held(waiters[1..]), p);
    if k == 0 {
      assert Remove(waiters, k) == waiters[1..];
    } else {
      var rest := Remove(waiters[1..], k - 1);
      HeldRemove(waiters[1..], k - 1, p);
      assert Remove(waiters, k)[1..] == rest;
      assert Held(Remove(waiters, k)) == OfAsk(waiters[0].ask) + Held(rest);
      CountSum(OfAsk(waiters[0].ask), Held(rest), p);
    }
  }

  lemma FramedIsAsk(ask: Ask, ha: MacAddr)
    ensures PacketsOf(Framed(ask, ha)) == OfAsk(ask)
  {
  }

  lemma AccountResolving(s: System, a: Action, p: Packet)
    requires Enabled(s, a) && a.Resolving? && Accounted(s, p)
    ensures Accounted(Act(s, a), p)
  {
    var ask := a.ask;
    var r := Resolve(s.table, ask.netif, ask.pa, ask.data, a.alloc, a.now).1;
    CountSum(s.asked, OfAsk(ask), p);
    match r {
      case Found(ha) =>
        FramedIsAsk(ask, ha);
        CountSent(s.direct, Framed(ask, ha), p);
        CountSum(s.failed, OfAsk(ask), p);
      case Wait(i) => HeldAppend(s.waiters, Waiter(i, ask), p);
      case Query => CountSum(s.saved, OfAsk(ask), p);
      case Failed => CountSum(s.failed, OfAsk(ask), p);
    }
  }

  lemma AccountWaking(s: System, a: Action, p: Packet)
    requires Enabled(s, a) && a.Waking? && Accounted(s, p)
    ensures Accounted(Act(s, a), p)
  {
    var w := s.waiters[a.k];
    var r := Wake(s.table, w.slot, a.timedOut).1;
    HeldRemove(s.waiters, a.k, p);
    CountSum(s.failed, OfAsk(w.ask), p);
    if r.Found? {
      FramedIsAsk(w.ask, r.ha);
      CountSent(s.woken, Framed(w.ask, r.ha), p);
    }
  }

  lemma ActAccounts(s: System, a: Action, p: Packet)
    requires Enabled(s, a) && Accounted(s, p)
    ensures Accounted(Act(s, a), p)
  {
    match a
    case RxUpdate(_, _, _, _) =>
    case RxInsert(_, _) =>
    case Resolving(_, _, _, _) => AccountResolving(s, a, p);
    case Waking(_, _, _) => AccountWaking(s, a, p);
  }

  // ---- safety --------------------------------------------------------------------------------

  lemma KeepRxUpdate(s: System, a: Action)
    requires Inv(s) && Enabled(s, a) && a.RxUpdate?
    ensures Inv(Act(s, a))
  {
  }

  lemma KeepRxInsert(s: System, a: Action)
    requires Inv(s) && Enabled(s, a) && a.RxInsert?
    ensures Inv(Act(s, a))
  {
    assert s.gap[a.k] in s.gap;
  }

  lemma KeepResolving(s: System, a: Action)
    requires Inv(s) && Enabled(s, a) && a.Resolving?
    ensures Inv(Act(s, a))
  {
  }

  lemma KeepWaking(s: System, a: Action)
    requires Inv(s) && Enabled(s, a) && a.Waking?
    ensures Inv(Act(s, a))
  {
  }

  lemma ActKeeps(s: System, a: Action)
    requires Inv(s) && Enabled(s, a)
    ensures Inv(Act(s, a))
  {
    match a
    case RxUpdate(_, _, _, _) => KeepRxUpdate(s, a);
    case RxInsert(_, _) => KeepRxInsert(s, a);
    case Resolving(_, _, _, _) => KeepResolving(s, a);
    case Waking(_, _, _) => KeepWaking(s, a);
  }

  lemma {:induction false} RunKeeps(s: System, acts: seq<Action>, p: Packet)
    requires Inv(s) && EnabledRun(s, acts) && Balanced(s, p) && Accounted(s, p)
    ensures Inv(Run(s, acts)) && Balanced(Run(s, acts), p) && Accounted(Run(s, acts), p)
    decreases acts
  {
    if acts != [] {
      ActKeeps(s, acts[0]);
      ActBalances(s, acts[0], p);
      ActAccounts(s, acts[0], p);
      RunKeeps(Act(s, acts[0]), acts[1..], p);
    }
  }

  // ---- the main results ----------------------------------------------------------------------

  /** The actions include a received message from this sender. */
  predicate Announced(acts: seq<Action>, pa: IpAddr, ha: MacAddr)
  {
    exists a :: a in acts && a.RxUpdate? && a.msg.spa == pa && a.msg.sha == ha
  }

  lemma {:induction false} HeardIsAnnounced(s: System, acts: seq<Action>)
    requires EnabledRun(s, acts)
    ensures forall h :: h in Run(s, acts).heard ==> h in s.heard || Announced(acts, h.0, h.1)
    decreases acts
  {
    if acts != [] {
      HeardIsAnnounced(Act(s, acts[0]), acts[1..]);
      assert forall a :: a in acts[1..] ==> a in acts;
      assert acts[0] in acts;
    }
  }

  /** A frame of a woken thread carries an address someone announced, or that of an unresolved entry. */
  ghost predicate WokenOk(s: System)
  {
    forall x :: x in s.woken ==> x.ha == ANY || exists pa: IpAddr :: (pa, x.ha) in s.heard
  }

  lemma ActWoken(s: System, a: Action)
    requires Inv(s) && WokenOk(s) && Enabled(s, a)
    ensures WokenOk(Act(s, a))
  {
    var next := Act(s, a);
    forall x | x in next.woken
      ensures x.ha == ANY || exists pa: IpAddr :: (pa, x.ha) in next.heard
    {
      if x in s.woken {
        if x.ha != ANY {
          var pa: IpAddr :| (pa, x.ha) in s.heard;
          assert (pa, x.ha) in next.heard;
        }
      } else {
        var e := s.table[s.waiters[a.k].slot];
        assert x.ha == e.ha && EntryOk(e, s.heard);
      }
    }
  }

  lemma {:induction false} RunWoken(s: System, acts: seq<Action>)
    requires Inv(s) && WokenOk(s) && EnabledRun(s, acts)
    ensures WokenOk(Run(s, acts))
    decreases acts
  {
    if acts != [] {
      ActKeeps(s, acts[0]);
      ActWoken(s, acts[0]);
      RunWoken(Act(s, acts[0]), acts[1..]);
    }
  }

  /** The actions include a received message with this hardware address. */
  predicate AnnouncedBySome(acts: seq<Action>, ha: MacAddr)
  {
    exists a :: a in acts && a.RxUpdate? && a.msg.sha == ha
  }

  lemma WokenIsAnnounced(size: nat, start: int, acts: seq<Action>, x: Sent)
    requires EnabledRun(Start(size, start), acts) && x in Run(Start(size, start), acts).woken
    ensures x.ha == ANY || AnnouncedBySome(acts, x.ha)
  {
    RunWoken(Start(size, start), acts);
    HeardIsAnnounced(Start(size, start), acts);
    if x.ha != ANY {
      var s := Run(Start(size, start), acts);
      var pa: IpAddr :| (pa, x.ha) in s.heard;
      assert Announced(acts, (pa, x.ha).0, (pa, x.ha).1);
    }
  }

  /**
   * Packet conservation: over every interleaving, each packet any thread ever asked to send is with a waiting
   * thread, waits in the table, was handed to the device, was discarded, or its call failed, copy for copy; and it was
   * handed over with the hardware address of a received message whose sender is the packet's next hop, or, if its
   * thread was woken from a wait, of some received message or of an unresolved entry.
   */
  lemma PacketConservation(size: nat, start: int, acts: seq<Action>, p: Packet)
    requires EnabledRun(Start(size, start), acts)
    ensures var s := Run(Start(size, start), acts);
            && Count(s.asked, p) == Count(Held(s.waiters), p) + Count(s.saved, p) + Count(PacketsOf(s.direct), p) +
                                    Count(PacketsOf(s.woken), p) + Count(s.failed, p)
            && Count(s.saved, p) == Count(Pending(s.table), p) + Count(PacketsOf(s.sent), p) + Count(s.dropped, p)
            && (forall x :: x in s.sent + s.direct ==> Announced(acts, x.nexthop, x.ha))
            && (forall x :: x in s.woken ==> x.ha == ANY || AnnouncedBySome(acts, x.ha))
  {
    var s0 := Start(size, start);
    PendingClear(s0.table);
    RunKeeps(s0, acts, p);
    HeardIsAnnounced(s0, acts);
    forall x | x in Run(s0, acts).woken
      ensures x.ha == ANY || AnnouncedBySome(acts, x.ha)
    {
      WokenIsAnnounced(size, start, acts, x);
    }
  }

  /** No used entry is more than 300 seconds behind the global time stamp, which the clock has reached. */
  predicate Fresh(s: System)
  {
    && s.timestamp <= s.clock
    && forall i :: 0 <= i < |s.table| && s.table[i].used ==> s.timestamp - s.table[i].timestamp <= TIMEOUT_SEC
  }

  predicate InTimeRun(s: System, acts: seq<Action>)
    requires EnabledRun(s, acts)
    decreases acts
  {
    acts == [] || (InTime(s, acts[0]) && InTimeRun(Act(s, acts[0]), acts[1..]))
  }

  lemma ActFresh(s: System, a: Action)
    requires Fresh(s) && Enabled(s, a) && InTime(s, a)
    ensures Fresh(Act(s, a))
  {
  }

  lemma {:induction false} RunFresh(s: System, acts: seq<Action>)
    requires Fresh(s) && EnabledRun(s, acts) && InTimeRun(s, acts)
    ensures Fresh(Run(s, acts))
    decreases acts
  {
    if acts != [] {
      ActFresh(s, acts[0]);
      RunFresh(Act(s, acts[0]), acts[1..]);
    }
  }

  /**
   * Staleness: in every run of a clock that does not go back, no used entry is more than 300 seconds behind the
   * global time stamp, and after any received message none is more than 310 seconds older than its arrival.
   */
  lemma StalenessBound(size: nat, start: int, acts: seq<Action>, a: Action)
    requires EnabledRun(Start(size, start), acts) && InTimeRun(Start(size, start), acts)
    requires a.RxUpdate? && InTime(Run(Start(size, start), acts), a)
    ensures var s := Act(Run(Start(size, start), acts), a);
            forall i :: 0 <= i < |s.table| && s.table[i].used ==>
              s.timestamp - s.table[i].timestamp <= 300 && a.now - s.table[i].timestamp <= 310
  {
    RunFresh(Start(size, start), acts);
    ActFresh(Run(Start(size, start), acts), a);
  }

  /** Every action but the second section of arp_rx finds no thread in the gap. */
  predicate GapFree(s: System, acts: seq<Action>)
    requires EnabledRun(s, acts)
    decreases acts
  {
    acts == [] || ((acts[0].RxInsert? || s.gap == []) && GapFree(Act(s, acts[0]), acts[1..]))
  }

  /** Addresses are unique, and the sender of a thread in the gap is unknown. */
  predicate UniqueInv(s: System)
  {
    && Unique(s.table) && |s.gap| <= 1
    && (forall g :: g in s.gap ==> Select(s.table, g.0) == |s.table|)
  }

  lemma ResolveUnique(t: seq<Entry>, netif: Netif, pa: IpAddr, data: Option<Bytes>, alloc: bool, now: int)
    requires Unique(t)
    ensures Unique(Resolve(t, netif, pa, data, alloc, now).0)
  {
    if Select(t, pa) == |t| {
      assert forall j :: 0 <= j < |t| ==> !Holds(t[j], pa);
    }
  }

  lemma UniqueRxInsert(s: System, a: Action)
    requires UniqueInv(s) && Enabled(s, a) && a.RxInsert?
    ensures UniqueInv(Act(s, a))
  {
    assert s.gap[a.k] in s.gap;
    if FirstFree(s.table) < |s.table| {
      InsertUnique(s.table, s.gap[a.k].0, s.gap[a.k].1, a.now);
    }
  }

  lemma UniqueAct(s: System, a: Action)
    requires UniqueInv(s) && Enabled(s, a) && (a.RxInsert? || s.gap == [])
    ensures UniqueInv(Act(s, a))
  {
    match a {
      case RxUpdate(msg, us, now, stamp) =>
        var t := Swept(s.table, s.timestamp, now);
        if Select(t, msg.spa) < |t| {
          UpdateUnique(t, msg.spa, msg.sha, stamp);
        }
      case RxInsert(k, now) =>
        UniqueRxInsert(s, a);
      case Resolving(ask, alloc, now, accepts) =>
        ResolveUnique(s.table, ask.netif, ask.pa, ask.data, alloc, now);
      case Waking(k, timedOut, accepts) =>
    }
  }

  /** Over every run in which no action enters the gap of arp_rx, no address ever has two entries. */
  lemma {:induction false} GapFreeUnique(s: System, acts: seq<Action>)
    requires UniqueInv(s) && EnabledRun(s, acts) && GapFree(s, acts)
    ensures UniqueInv(Run(s, acts))
    decreases acts
  {
    if acts != [] {
      UniqueAct(s, acts[0]);
      GapFreeUnique(Act(s, acts[0]), acts[1..]);
    }
  }

  // ---- known addresses -----------------------------------------------------------------------

  /**
   * A received message through its two locked sections, nothing between them, is the reception of RFC 826 on the map
   * that the sweep leaves; only a message whose target is our own address adds a sender.
   */
  lemma ReceptionInSections(s: System, msg: Message, us: Option<IpAddr>, now: int, stamp: int, later: int)
    requires s.gap == [] && Unique(Swept(s.table, s.timestamp, now))
    ensures var s1 := Act(s, RxUpdate(msg, us, now, stamp));
            var s2 := if s1.gap == [] then s1 else Act(s1, RxInsert(0, later));
            var m := AsMap(Swept(s.table, s.timestamp, now));
            && s2.gap == [] && Unique(s2.table)
            && AsMap(s2.table) ==
               if msg.spa in m || (us == Some(msg.tpa) && HasFree(Swept(s.table, s.timestamp, now)))
               then m[msg.spa := msg.sha] else m
  {
    var t := Swept(s.table, s.timestamp, now);
    ReceptionIsRfc826(t, msg.spa, msg.sha, us == Some(msg.tpa), stamp, later);
    KnownIff(t, msg.spa);
  }

  /** The first entry for the address is resolved and was touched at `since` or later. */
  predicate Known(s: System, pa: IpAddr, since: int)
  {
    && (var i := Select(s.table, pa); i < |s.table| && s.table[i].ha != ANY && s.table[i].timestamp >= since)
    && forall g :: g in s.gap ==> g.1 != ANY
  }

  /** No message comes more than 300 seconds after `since`, none announces the mark of an unresolved entry. */
  predicate Soon(a: Action, since: int)
  {
    match a
    case RxUpdate(msg, _, now, stamp) => now - since <= 300 && stamp >= since && msg.sha != [0, 0, 0, 0, 0, 0]
    case RxInsert(_, now) => now >= since
    case Resolving(_, _, _, _) => true
    case Waking(_, timedOut, _) => !timedOut
  }

  lemma SelectPatrolled(t: seq<Entry>, now: int, pa: IpAddr)
    requires var i := Select(t, pa); i < |t| && now - t[i].timestamp <= 300
    ensures Select(Patrolled(t, now), pa) == Select(t, pa)
    ensures Patrolled(t, now)[Select(t, pa)] == t[Select(t, pa)]
  {
    var i, r := Select(t, pa), Patrolled(t, now);
    assert r[i] == t[i];
    assert forall j :: 0 <= j < i ==> !Holds(r[j], pa);
  }

  lemma KnownRxUpdate(s: System, a: Action, pa: IpAddr, since: int)
    requires Known(s, pa, since) && a.RxUpdate? && Soon(a, since)
    ensures Known(Act(s, a), pa, since)
  {
    var t := Swept(s.table, s.timestamp, a.now);
    assert Select(t, pa) == Select(s.table, pa) && t[Select(t, pa)] == s.table[Select(t, pa)] by {
      SelectPatrolled(s.table, a.now, pa);
    }
    UpdateKeepsSelect(t, a.msg.spa, a.msg.sha, a.stamp, pa);
  }

  lemma SelectOccupied(t: seq<Entry>, k: nat, e: Entry, pa: IpAddr)
    requires k < |t| && !t[k].used && e.used && Select(t, pa) < |t|
    ensures Select(t[k := e], pa) == if e.pa == pa && k < Select(t, pa) then k else Select(t, pa)
  {
    var r, i := t[k := e], Select(t, pa);
    assert Holds(r[i], pa) && forall j :: 0 <= j < i && j != k ==> !Holds(r[j], pa);
    assert Holds(r[k], pa) <==> e.pa == pa;
  }

  lemma KnownRxInsert(s: System, a: Action, pa: IpAddr, since: int)
    requires Known(s, pa, since) && a.RxInsert? && Enabled(s, a) && Soon(a, since)
    ensures Known(Act(s, a), pa, since)
  {
    var k, g := FirstFree(s.table), s.gap[a.k];
    assert g in s.gap;
    if k < |s.table| {
      SelectOccupied(s.table, k, s.table[k].(used := true, pa := g.0, ha := g.1, timestamp := a.now), pa);
    }
  }

  lemma KnownResolving(s: System, a: Action, pa: IpAddr, since: int)
    requires Known(s, pa, since) && a.Resolving?
    ensures Known(Act(s, a), pa, since)
  {
    var (t, r) := Resolve(s.table, a.ask.netif, a.ask.pa, a.ask.data, a.alloc, a.now);
    if r.Query? {
      var k := FirstFree(s.table);
      SelectOccupied(s.table, k, t[k], pa);
    }
  }

  lemma KnownAct(s: System, a: Action, pa: IpAddr, since: int)
    requires Known(s, pa, since) && Enabled(s, a) && Soon(a, since)
    ensures Known(Act(s, a), pa, since)
  {
    match a
    case RxUpdate(_, _, _, _) => KnownRxUpdate(s, a, pa, since);
    case RxInsert(_, _) => KnownRxInsert(s, a, pa, since);
    case Resolving(_, _, _, _) => KnownResolving(s, a, pa, since);
    case Waking(_, _, _) =>
  }

  /** Over every run within 300 seconds in which no wait times out, a known address stays known. */
  lemma {:induction false} StaysKnown(s: System, acts: seq<Action>, pa: IpAddr, since: int)
    requires Known(s, pa, since) && EnabledRun(s, acts) && forall a :: a in acts ==> Soon(a, since)
    ensures Known(Run(s, acts), pa, since)
    decreases acts
  {
    if acts != [] {
      KnownAct(s, acts[0], pa, since);
      StaysKnown(Act(s, acts[0]), acts[1..], pa, since);
    }
  }

  /** Whom a section of arp_rx hears, and when. */
  function SenderOf(s: System, a: Action): IpAddr
    requires Enabled(s, a) && (a.RxUpdate? || a.RxInsert?)
  {
    if a.RxUpdate? then a.msg.spa else s.gap[a.k].0
  }

  function TimeOf(a: Action): int
    requires a.RxUpdate? || a.RxInsert?
  {
    if a.RxUpdate? then a.stamp else a.now
  }

  /** The first section updates a sender the table knows, or the second enters one it does not. */
  predicate Takes(s: System, a: Action)
  {
    && Enabled(s, a) && (a.RxUpdate? || a.RxInsert?) && (forall g :: g in s.gap ==> g.1 != ANY)
    && (a.RxUpdate? ==> a.msg.spa in AsMap(Swept(s.table, s.timestamp, a.now)) && a.msg.sha != ANY)
    && (a.RxInsert? ==> HasFree(s.table) && s.gap[a.k].0 !in AsMap(s.table))
  }

  lemma HearingMakesKnown(s: System, a: Action)
    requires Takes(s, a)
    ensures Known(Act(s, a), SenderOf(s, a), TimeOf(a))
  {
    if a.RxUpdate? {
      var t := Swept(s.table, s.timestamp, a.now);
      KnownIff(t, a.msg.spa);
      UpdateKeepsSelect(t, a.msg.spa, a.msg.sha, a.stamp, a.msg.spa);
    } else {
      var k, g := FirstFree(s.table), s.gap[a.k];
      KnownIff(s.table, g.0);
      assert g in s.gap;
      assert forall j :: 0 <= j < |s.table| ==> !Holds(s.table[j], g.0);
      assert Holds(Act(s, a).table[k], g.0);
      assert Select(Act(s, a).table, g.0) == k;
    }
  }

  /** A packet for a known address is handed to its device at once, with an address its next hop announced. */
  lemma KnownIsDirect(s: System, ask: Ask, since: int, alloc: bool, now: int) returns (ha: MacAddr)
    requires Inv(s) && Known(s, ask.pa, since)
    ensures var next := Act(s, Resolving(ask, alloc, now, true));
            && (ask.pa, ha) in s.heard && ha != ANY
            && next.direct == s.direct + Framed(ask, ha) && next.table == s.table && next.failed == s.failed
  {
    ha := s.table[Select(s.table, ask.pa)].ha;
    assert EntryOk(s.table[Select(s.table, ask.pa)], s.heard);
  }

  /**
   * Once a sender has been heard, over every run of the next 300 seconds in which no wait times out, a packet for it is
   * handed to its device at once, with an address it announced.
   */
  lemma HeardThenDirect(s: System, a: Action, acts: seq<Action>, ask: Ask, alloc: bool, now: int) returns (ha: MacAddr)
    requires Inv(s) && Takes(s, a) && ask.pa == SenderOf(s, a)
    requires EnabledRun(Act(s, a), acts) && forall b :: b in acts ==> Soon(b, TimeOf(a))
    ensures var r := Run(Act(s, a), acts);
            var next := Act(r, Resolving(ask, alloc, now, true));
            && (ask.pa, ha) in r.heard && ha != ANY
            && next.direct == r.direct + Framed(ask, ha) && next.table == r.table && next.failed == r.failed
  {
    HearingMakesKnown(s, a);
    StaysKnown(Act(s, a), acts, ask.pa, TimeOf(a));
    ActKeeps(s, a);
    RunInv(Act(s, a), acts);
    ha := KnownIsDirect(Run(Act(s, a), acts), ask, TimeOf(a), alloc, now);
  }

  lemma {:induction false} RunInv(s: System, acts: seq<Action>)
    requires Inv(s) && EnabledRun(s, acts)
    ensures Inv(Run(s, acts))
    decreases acts
  {
    if acts != [] {
      ActKeeps(s, acts[0]);
      RunInv(Act(s, acts[0]), acts[1..]);
    }
  }
}
