/** What the ARP cache does not promise: runs in which threads meet, and when exactly they do no harm. */
module ArpRaces {
  import opened ByteOrder
  import opened Wrappers
  import opened ArpTable
  import opened ArpRuns

  // ---- a woken resolver ----------------------------------------------------------------------

  /**
   * What a woken resolver returns was announced for the address its slot holds at that moment, or is the address of
   * an entry that is still unresolved.
   */
  lemma WokenAnswer(size: nat, start: int, acts: seq<Action>, k: nat, ha: MacAddr)
    requires EnabledRun(Start(size, start), acts)
    requires var s := Run(Start(size, start), acts);
             k < |s.waiters| && s.waiters[k].slot < |s.table| && Wake(s.table, s.waiters[k].slot, false).1 == Found(ha)
    ensures var s := Run(Start(size, start), acts);
            ha == ANY || Announced(acts, s.table[s.waiters[k].slot].pa, ha)
  {
    var s0 := Start(size, start);
    PendingClear(s0.table);
    RunKeeps(s0, acts, Packet(0, [0, 0, 0, 0], []));
    HeardIsAnnounced(s0, acts);
  }

  /** No hardware address is announced for two protocol addresses, and none is the mark of an unresolved entry. */
  predicate OwnAddresses(acts: seq<Action>)
  {
    && (forall a, b :: a in acts && b in acts && a.RxUpdate? && b.RxUpdate? && a.msg.sha == b.msg.sha ==>
          a.msg.spa == b.msg.spa)
    && (forall a :: a in acts && a.RxUpdate? ==> a.msg.sha != ANY)
  }

  /**
   * Among hosts with addresses of their own, a woken resolver returns an address announced for the host it asked for
   * exactly if its slot still holds that host and has been resolved.
   */
  lemma WokenIff(size: nat, start: int, acts: seq<Action>, k: nat, ha: MacAddr)
    requires EnabledRun(Start(size, start), acts) && OwnAddresses(acts)
    requires var s := Run(Start(size, start), acts);
             k < |s.waiters| && s.waiters[k].slot < |s.table| && Wake(s.table, s.waiters[k].slot, false).1 == Found(ha)
    ensures var s := Run(Start(size, start), acts);
            var w := s.waiters[k];
            Announced(acts, w.ask.pa, ha) <==> s.table[w.slot].pa == w.ask.pa && s.table[w.slot].ha != ANY
  {
    WokenAnswer(size, start, acts, k, ha);
  }

  // ---- a resolver whose wait times out --------------------------------------------------------

  /**
   * The call whose wait times out fails. It leaves the entries of all other hosts alone exactly if the slot is unused
   * or still holds the host that was asked for, and their packets exactly if the slot is so or holds no packet.
   */
  lemma TimeoutIff(s: System, k: nat, accepts: bool)
    requires Inv(s) && Enabled(s, Waking(k, true, accepts))
    ensures var t, w := Act(s, Waking(k, true, accepts)).table, s.waiters[k];
            var e := s.table[w.slot];
            && Act(s, Waking(k, true, accepts)).failed == s.failed + OfAsk(w.ask)
            && Act(s, Waking(k, true, accepts)).woken == s.woken
            && ((forall i :: 0 <= i < |t| && s.table[i].used && s.table[i].pa != w.ask.pa ==> t[i] == s.table[i]) <==>
                !e.used || e.pa == w.ask.pa)
            && ((forall p: Packet :: p.nexthop != w.ask.pa ==> Count(Pending(t), p) == Count(Pending(s.table), p)) <==>
                !e.used || e.pa == w.ask.pa || e.data.None?)
  {
    var t, w := Act(s, Waking(k, true, accepts)).table, s.waiters[k];
    var e := s.table[w.slot];
    if e.used {
      forall p: Packet
        ensures Count(Pending(t), p) == Count(Pending(s.table), p) - Count(OfEntry(e), p)
      {
        PendingUpdate(s.table, w.slot, CLEAR, p);
      }
      forall p: Packet
        ensures Count(OfEntry(e), p) == if OfEntry(e) == [p] then 1 else 0
      {
        assert e.data.Some? ==> OfEntry(e)[1..] == [];
      }
      assert e.data.Some? ==> OfEntry(e) == [OfEntry(e)[0]] && OfEntry(e)[0].nexthop == e.pa;
    }
  }

  // ---- runs ----------------------------------------------------------------------------------

  /** These actions lead from the empty table to `s`, on a clock that does not go back. */
  predicate Reaches(size: nat, acts: seq<Action>, s: System)
  {
    EnabledRun(Start(size, 0), acts) && InTimeRun(Start(size, 0), acts) && Run(Start(size, 0), acts) == s
  }

  lemma {:induction false} TimedSnoc(s: System, acts: seq<Action>, a: Action)
    requires EnabledRun(s, acts) && InTimeRun(s, acts) && Enabled(Run(s, acts), a) && InTime(Run(s, acts), a)
    ensures EnabledRun(s, acts + [a]) && InTimeRun(s, acts + [a]) && Run(s, acts + [a]) == Act(Run(s, acts), a)
    decreases acts
  {
    if acts == [] {
      assert acts + [a] == [a] && [a][1..] == [];
    } else {
      TimedSnoc(Act(s, acts[0]), acts[1..], a);
      assert (acts + [a])[1..] == acts[1..] + [a];
    }
  }

  lemma Extend(size: nat, acts: seq<Action>, s: System, a: Action)
    requires Reaches(size, acts, s) && Enabled(s, a) && InTime(s, a)
    ensures Reaches(size, acts + [a], Act(s, a))
  {
    TimedSnoc(Start(size, 0), acts, a);
  }

  /** Slot 0 holds `e`, every other slot is clear. */
  predicate Shape(s: System, size: nat, e: Entry, waiters: seq<Waiter>, gap: seq<(IpAddr, MacAddr)>, clock: int)
  {
    && |s.table| == size > 0 && s.table[0] == e && (forall i :: 0 < i < size ==> s.table[i] == CLEAR)
    && s.waiters == waiters && s.gap == gap && s.timestamp == 0 && s.clock == clock
  }

  function Unresolved(ask: Ask, now: int): Entry
  {
    Entry(true, ask.pa, ANY, now, ask.data, Some(ask.netif))
  }

  lemma Creates(s: System, size: nat, waiters: seq<Waiter>, gap: seq<(IpAddr, MacAddr)>, clock: int, ask: Ask, now: int)
    requires Shape(s, size, CLEAR, waiters, gap, clock)
    ensures Shape(Act(s, Resolving(ask, true, now, true)), size, Unresolved(ask, now), waiters, gap, now)
  {
    assert FirstFree(s.table) == 0 && Select(s.table, ask.pa) == size;
  }

  lemma Waits(s: System, size: nat, e: Entry, waiters: seq<Waiter>, gap: seq<(IpAddr, MacAddr)>, clock: int, ask: Ask,
              now: int)
    requires Shape(s, size, e, waiters, gap, clock) && Holds(e, ask.pa) && e.ha == ANY
    ensures Shape(Act(s, Resolving(ask, true, now, true)), size, e, waiters + [Waiter(0, ask)], gap, now)
  {
    assert Select(s.table, ask.pa) == 0;
  }

  lemma TimesOut(s: System, size: nat, e: Entry, waiters: seq<Waiter>, gap: seq<(IpAddr, MacAddr)>, clock: int)
    requires Shape(s, size, e, waiters, gap, clock) && e.used && |waiters| > 0 && waiters[0].slot == 0
    ensures var r := Act(s, Waking(0, true, true));
            Shape(r, size, CLEAR, waiters[1..], gap, clock) && r.dropped == s.dropped + OfEntry(e)
  {
  }

  lemma Inserts(s: System, size: nat, waiters: seq<Waiter>, gap: seq<(IpAddr, MacAddr)>, clock: int)
    requires Shape(s, size, CLEAR, waiters, gap, clock) && |gap| > 0
    ensures var e := Entry(true, gap[0].0, gap[0].1, clock, None, None);
            Shape(Act(s, RxInsert(0, clock)), size, e, waiters, gap[1..], clock)
  {
    assert FirstFree(s.table) == 0;
  }

  /** A message for us from a sender unknown to an empty table. */
  lemma Hears(s: System, size: nat, waiters: seq<Waiter>, gap: seq<(IpAddr, MacAddr)>, msg: Message)
    requires Shape(s, size, CLEAR, waiters, gap, 0)
    ensures Shape(Act(s, RxUpdate(msg, Some(msg.tpa), 0, 0)), size, CLEAR, waiters, gap + [(msg.spa, msg.sha)], 0)
  {
    assert Select(s.table, msg.spa) == size;
  }

  /** Two messages of one unknown sender meet in the gap, and the first is entered. */
  lemma MeetInGap(size: nat, msg: Message) returns (acts: seq<Action>, s: System)
    requires size >= 1
    ensures Reaches(size, acts, s)
    ensures Shape(s, size, Entry(true, msg.spa, msg.sha, 0, None, None), [], [(msg.spa, msg.sha)], 0)
  {
    var rx, g := RxUpdate(msg, Some(msg.tpa), 0, 0), (msg.spa, msg.sha);
    acts, s := [], Start(size, 0);
    Hears(s, size, [], [], msg);
    Extend(size, acts, s, rx);
    acts, s := acts + [rx], Act(s, rx);
    Hears(s, size, [], [g], msg);
    Extend(size, acts, s, rx);
    acts, s := acts + [rx], Act(s, rx);
    Inserts(s, size, [], [g, g], 0);
    Extend(size, acts, s, RxInsert(0, 0));
    acts, s := acts + [RxInsert(0, 0)], Act(s, RxInsert(0, 0));
  }

  /** Entering the second leaves the sender with two entries. */
  lemma GapDuplicates(size: nat, msg: Message) returns (acts: seq<Action>, s: System)
    requires size >= 2
    ensures Reaches(size, acts, s) && !Unique(s.table)
  {
    acts, s := MeetInGap(size, msg);
    assert Holds(s.table[0], msg.spa) && !s.table[1].used;
    InsertUniqueIff(s.table, msg.spa, msg.sha, 0);
    Extend(size, acts, s, RxInsert(0, 0));
    acts, s := acts + [RxInsert(0, 0)], Act(s, RxInsert(0, 0));
  }

  /** Two resolvers wait for one address. */
  lemma TwoWaiting(size: nat, ask: Ask) returns (acts: seq<Action>, s: System)
    requires size >= 1
    ensures Reaches(size, acts, s) && acts == [Resolving(ask, true, 0, true)] + [Resolving(ask, true, 0, true)] +
                                              [Resolving(ask, true, 0, true)]
    ensures Shape(s, size, Unresolved(ask, 0), [Waiter(0, ask), Waiter(0, ask)], [], 0)
  {
    var send, w, e := Resolving(ask, true, 0, true), Waiter(0, ask), Unresolved(ask, 0);
    acts, s := [], Start(size, 0);
    Creates(s, size, [], [], 0, ask, 0);
    Extend(size, acts, s, send);
    acts, s := acts + [send], Act(s, send);
    Waits(s, size, e, [], [], 0, ask, 0);
    Extend(size, acts, s, send);
    acts, s := acts + [send], Act(s, send);
    Waits(s, size, e, [w], [], 0, ask, 0);
    Extend(size, acts, s, send);
    acts, s := acts + [send], Act(s, send);
  }

  /** The first of them times out and clears the slot under the second. */
  lemma SlotCleared(size: nat, ask: Ask) returns (acts: seq<Action>, s: System)
    requires size >= 1
    ensures Reaches(size, acts, s) && (forall a :: a in acts ==> !a.RxUpdate?)
    ensures Shape(s, size, CLEAR, [Waiter(0, ask)], [], 0)
  {
    acts, s := TwoWaiting(size, ask);
    TimesOut(s, size, Unresolved(ask, 0), [Waiter(0, ask), Waiter(0, ask)], [], 0);
    Extend(size, acts, s, Waking(0, true, true));
    acts, s := acts + [Waking(0, true, true)], Act(s, Waking(0, true, true));
  }

  /** The answer can be another host's: the slot was cleared and reused for the sender of `msg`. */
  lemma WokenForAnother(size: nat, ask: Ask, msg: Message) returns (acts: seq<Action>, s: System)
    requires size >= 1 && ask.pa != msg.spa
    ensures Reaches(size, acts, s) && !Announced(acts, ask.pa, msg.sha)
    ensures s.waiters == [Waiter(0, ask)] && |s.table| == size && Wake(s.table, 0, false).1 == Found(msg.sha)
  {
    var rx := RxUpdate(msg, Some(msg.tpa), 0, 0);
    acts, s := SlotCleared(size, ask);
    Hears(s, size, [Waiter(0, ask)], [], msg);
    Extend(size, acts, s, rx);
    acts, s := acts + [rx], Act(s, rx);
    Inserts(s, size, [Waiter(0, ask)], [(msg.spa, msg.sha)], 0);
    Extend(size, acts, s, RxInsert(0, 0));
    acts, s := acts + [RxInsert(0, 0)], Act(s, RxInsert(0, 0));
  }

  /** A timeout can discard another host's packet: the slot was cleared and reused for the next hop of `other`. */
  lemma TimeoutForAnother(size: nat, ask: Ask, other: Ask) returns (acts: seq<Action>, s: System, r: System)
    requires size >= 1 && other.data.Some? && ask.pa != other.pa
    ensures Reaches(size, acts, s) && s.waiters == [Waiter(0, ask)] && Enabled(s, Waking(0, true, true))
    ensures r == Act(s, Waking(0, true, true)) && Pending(r.table) == []
    ensures r.dropped == s.dropped + [Packet(other.netif.dev, other.pa, other.data.value)]
  {
    acts, s := SlotCleared(size, ask);
    Creates(s, size, [Waiter(0, ask)], [], 0, other, 0);
    Extend(size, acts, s, Resolving(other, true, 0, true));
    acts, s := acts + [Resolving(other, true, 0, true)], Act(s, Resolving(other, true, 0, true));
    TimesOut(s, size, Unresolved(other, 0), [Waiter(0, ask)], [], 0);
    r := Act(s, Waking(0, true, true));
    PendingClear(r.table);
  }

  /** The patrol that `msg` sets off at 301 clears the entry of 0. */
  lemma Patrols(s: System, size: nat, e: Entry, waiters: seq<Waiter>, msg: Message)
    requires Shape(s, size, e, waiters, [], 300) && e.used && e.timestamp == 0
    ensures var r := Act(s, RxUpdate(msg, None, 301, 301));
            && |r.table| == size && (forall i :: 0 <= i < size ==> r.table[i] == CLEAR)
            && r.waiters == waiters && r.gap == [] && r.clock == 301
  {
    var t := Swept(s.table, s.timestamp, 301);
    assert forall i :: 0 <= i < size ==> t[i] == CLEAR;
    assert Select(t, msg.spa) == size;
  }

  /**
   * The slot can hold the right host and still have no answer: a patrol clears the entry under a waiting resolver, and
   * a third one creates it again before the second runs.
   */
  lemma WokenUnresolved(size: nat, ask: Ask, msg: Message) returns (acts: seq<Action>, s: System)
    requires size >= 1
    ensures Reaches(size, acts, s)
    ensures s.waiters == [Waiter(0, ask)] && |s.table| == size && s.table[0].pa == ask.pa
    ensures Wake(s.table, 0, false).1 == Found(ANY)
  {
    acts, s := [], Start(size, 0);
    Creates(s, size, [], [], 0, ask, 0);
    Extend(size, acts, s, Resolving(ask, true, 0, true));
    acts, s := acts + [Resolving(ask, true, 0, true)], Act(s, Resolving(ask, true, 0, true));
    Waits(s, size, Unresolved(ask, 0), [], [], 0, ask, 300);
    Extend(size, acts, s, Resolving(ask, true, 300, true));
    acts, s := acts + [Resolving(ask, true, 300, true)], Act(s, Resolving(ask, true, 300, true));
    Patrols(s, size, Unresolved(ask, 0), [Waiter(0, ask)], msg);
    Extend(size, acts, s, RxUpdate(msg, None, 301, 301));
    acts, s := acts + [RxUpdate(msg, None, 301, 301)], Act(s, RxUpdate(msg, None, 301, 301));
    assert FirstFree(s.table) == 0 && Select(s.table, ask.pa) == size;
    Extend(size, acts, s, Resolving(ask, true, 301, true));
    acts, s := acts + [Resolving(ask, true, 301, true)], Act(s, Resolving(ask, true, 301, true));
  }
}
