/**
 * IPv4 reassembly (ip.c: ip_fragment_*) as a state machine on values: each list entry is the partial map of the
 * bytes received so far. `Reassembler.dfy` proves the buffers, bitmaps and list walks of ip.c against it.
 */
module Reassembly {
  import opened ByteOrder
  import opened Wrappers

  const BUFFER_SIZE: nat := 65535
  const MAX_ENTRIES: int := 8
  const TIMEOUT_SEC: int := 30

  /** What ip_fragment_search compares. */
  datatype Key = Key(src: IpAddr, dst: IpAddr, id: uint16, protocol: uint8)

  /** A received fragment: the decoded offset field and the payload. */
  datatype Fragment = Fragment(key: Key, off: nat, more: bool, payload: Bytes)

  /** What the buffer copy and the bitmap need of a fragment; ip.c relies on it without a check. */
  predicate InBounds(f: Fragment)
  {
    0 < |f.payload| && f.off + |f.payload| <= 65535
  }

  predicate Covers(f: Fragment, i: nat)
  {
    f.off <= i < f.off + |f.payload|
  }

  function ByteAt(f: Fragment, i: nat): uint8
    requires Covers(f, i)
  {
    f.payload[i - f.off]
  }

  /** `len` is 0 until a fragment without the more-fragments flag has arrived. */
  datatype Entry = Entry(key: Key, bytes: map<nat, uint8>, len: nat, stamp: int)

  /** `expired` counts the entries ever dropped by the patrol; the program itself does not keep it. */
  datatype State = State(entries: seq<Entry>, count: int, expired: nat)

  /** The three readings of the clock during one call. */
  datatype Ticks = Ticks(check: int, patrol: int, stamp: int)

  const INITIAL := State([], 0, 0)

  // ---- one call of ip_fragment_process -------------------------------------------------------

  function Blank(key: Key): Entry
  {
    Entry(key, map[], 0, 0)
  }

  function Absorb(en: Entry, f: Fragment, stamp: int): Entry
  {
    var placed := map i: nat | f.off <= i < f.off + |f.payload| && Covers(f, i) :: ByteAt(f, i);
    Entry(en.key, en.bytes + placed, if f.more then en.len else f.off + |f.payload|, stamp)
  }

  predicate Complete(en: Entry)
  {
    en.len > 0 && forall i: nat :: i < en.len ==> i in en.bytes
  }

  function Datagram(en: Entry): (r: Bytes)
    requires Complete(en)
  {
    seq(en.len, i requires 0 <= i < en.len => en.bytes[i])
  }

  predicate Expired(en: Entry, now: int)
  {
    now - en.stamp > TIMEOUT_SEC
  }

  function Live(entries: seq<Entry>, now: int): (r: seq<Entry>)
    ensures |r| <= |entries|
  {
    if entries == [] then []
    else (if Expired(entries[0], now) then [] else [entries[0]]) + Live(entries[1..], now)
  }

  /** The patrol's own time stamp stays 0, so it runs on every call once the clock has passed 10. */
  function Patrol(s: State, t: Ticks): (r: State)
  {
    if t.check - 0 > 10 then
      var kept := Live(s.entries, t.patrol);
      State(kept, s.count, s.expired + (|s.entries| - |kept|))
    else s
  }

  lemma {:induction false} LiveIff(entries: seq<Entry>, now: int, en: Entry)
    ensures en in Live(entries, now) <==> en in entries && now - en.stamp <= 30
  {
    if entries != [] {
      LiveIff(entries[1..], now, en);
      assert entries == [entries[0]] + entries[1..];
    }
  }

  /** Once the clock has passed 10, a patrol keeps exactly the entries touched in the last 30 seconds. */
  lemma PatrolKeepsIff(s: State, t: Ticks, en: Entry)
    ensures en in Patrol(s, t).entries <==> en in s.entries && (t.check <= 10 || t.patrol - en.stamp <= 30)
    ensures Patrol(s, t).count == s.count
  {
    LiveIff(s.entries, t.patrol, en);
  }

  /** Index of the first entry with this key, or the number of entries. */
  function Find(entries: seq<Entry>, key: Key): (i: nat)
    ensures i <= |entries|
    ensures i < |entries| ==> entries[i].key == key
    ensures forall j :: 0 <= j < i ==> entries[j].key != key
  {
    if entries == [] then 0
    else if entries[0].key == key then 0
    else 1 + Find(entries[1..], key)
  }

  function Finish(s: State, i: nat, en: Entry): (State, Option<Bytes>)
    requires i < |s.entries|
  {
    if Complete(en) then
      (State(s.entries[..i] + s.entries[i + 1..], s.count - 1, s.expired), Some(Datagram(en)))
    else
      (State(s.entries[i := en], s.count, s.expired), None)
  }

  /** Find the entry to use, or create it at the head; the position is past the end on a refusal. */
  function Admit(s: State, key: Key, alloc: bool): (State, nat)
  {
    var i := Find(s.entries, key);
    if i == |s.entries| && s.count < MAX_ENTRIES && alloc then
      (State([Blank(key)] + s.entries, s.count + 1, s.expired), 0)
    else (s, i)
  }

  function Step(s: State, f: Fragment, t: Ticks, alloc: bool): (State, Option<Bytes>)
  {
    var (p, i) := Admit(Patrol(s, t), f.key, alloc);
    if i < |p.entries| then Finish(p, i, Absorb(p.entries[i], f, t.stamp)) else (p, None)
  }

  // ---- runs ----------------------------------------------------------------------------------

  /** `Quiet` is anything the host does that does not reach the reassembler. */
  datatype Event = Arrive(f: Fragment, ticks: Ticks, alloc: bool) | Quiet

  function Next(s: State, ev: Event): (State, Option<Bytes>)
  {
    match ev
    case Arrive(f, t, alloc) => Step(s, f, t, alloc)
    case Quiet => (s, None)
  }

  /** The state after the first `n` events. */
  function After(s: State, evs: seq<Event>, n: nat): State
    requires n <= |evs|
  {
    if n == 0 then s else Next(After(s, evs, n - 1), evs[n - 1]).0
  }

  /** What event `n` hands up. */
  function Output(s: State, evs: seq<Event>, n: nat): Option<Bytes>
    requires n < |evs|
  {
    Next(After(s, evs, n), evs[n]).1
  }

  // ---- accounting ----------------------------------------------------------------------------

  predicate DistinctKeys(entries: seq<Entry>)
  {
    forall i, j :: 0 <= i < j < |entries| ==> entries[i].key != entries[j].key
  }

  predicate Inv(s: State)
  {
    && DistinctKeys(s.entries)
    && (forall en :: en in s.entries ==> !Complete(en))
    && s.count == |s.entries| + s.expired
    && s.count <= MAX_ENTRIES
  }

  lemma {:induction false} LiveIsSubsequence(entries: seq<Entry>, now: int)
    requires DistinctKeys(entries)
    ensures DistinctKeys(Live(entries, now))
    ensures forall en :: en in Live(entries, now) <==> en in entries && !Expired(en, now)
  {
    if entries != [] {
      LiveIsSubsequence(entries[1..], now);
      assert entries == [entries[0]] + entries[1..];
      assert forall en :: en in entries[1..] ==> en.key != entries[0].key;
    }
  }

  lemma PatrolInv(s: State, t: Ticks)
    requires Inv(s)
    ensures Inv(Patrol(s, t))
  {
    LiveIsSubsequence(s.entries, t.patrol);
  }

  lemma FinishInv(s: State, i: nat, en: Entry)
    requires i < |s.entries| && en.key == s.entries[i].key
    requires DistinctKeys(s.entries) && s.count == |s.entries| + s.expired && s.count <= MAX_ENTRIES
    requires forall j :: 0 <= j < |s.entries| && j != i ==> !Complete(s.entries[j])
    ensures Inv(Finish(s, i, en).0)
  {
  }

  /** Every call keeps the keys distinct and the counter equal to the live plus all ever expired entries. */
  lemma StepInv(s: State, f: Fragment, t: Ticks, alloc: bool)
    requires Inv(s)
    ensures Inv(Step(s, f, t, alloc).0)
    ensures Step(s, f, t, alloc).0.expired >= s.expired
  {
    PatrolInv(s, t);
    var p := Patrol(s, t);
    var i := Find(p.entries, f.key);
    if i < |p.entries| {
      FinishInv(p, i, Absorb(p.entries[i], f, t.stamp));
    } else if p.count < MAX_ENTRIES && alloc {
      FinishInv(State([Blank(f.key)] + p.entries, p.count + 1, p.expired), 0, Absorb(Blank(f.key), f, t.stamp));
    }
  }

  /** In every reachable state the list holds at most eight entries, less one for each entry ever expired. */
  lemma {:induction false} Accounting(evs: seq<Event>, n: nat)
    requires n <= |evs|
    ensures Inv(After(INITIAL, evs, n))
    ensures |After(INITIAL, evs, n).entries| + After(INITIAL, evs, n).expired <= 8
  {
    RunInv(INITIAL, evs, n);
  }

  lemma {:induction false} RunInv(s: State, evs: seq<Event>, n: nat)
    requires Inv(s) && n <= |evs|
    ensures Inv(After(s, evs, n))
  {
    if n > 0 {
      RunInv(s, evs, n - 1);
      if evs[n - 1].Arrive? {
        StepInv(After(s, evs, n - 1), evs[n - 1].f, evs[n - 1].ticks, evs[n - 1].alloc);
      }
    }
  }

  /**
   * A datagram not yet in the list is admitted exactly when live and ever-expired entries together leave room:
   * an expired entry never gives its place back.
   */
  lemma AdmittedIff(s: State, f: Fragment, t: Ticks, alloc: bool)
    requires Inv(s) && InBounds(f)
    requires Find(Patrol(s, t).entries, f.key) == |Patrol(s, t).entries|
    ensures Step(s, f, t, alloc) == (Patrol(s, t), None) <==>
            !alloc || |Patrol(s, t).entries| + Patrol(s, t).expired >= 8
  {
    PatrolInv(s, t);
    var p := Patrol(s, t);
    var q := Step(s, f, t, alloc).0;
    var en := Absorb(Blank(f.key), f, t.stamp);
    if p.count < 8 && alloc && !Complete(en) {
      assert |q.entries| == |p.entries| + 1;
    }
  }

  /** Once eight entries have expired, the reassembler never returns a datagram again. */
  lemma {:induction false} Starved(s: State, evs: seq<Event>, n: nat)
    requires Inv(s) && s.expired == 8 && n < |evs|
    ensures After(s, evs, n) == s
    ensures Output(s, evs, n) == None
  {
    if n > 0 {
      Starved(s, evs, n - 1);
    }
    assert s.entries == [] && Live([], 0) == [];
  }

  /** The same lone fragment again and again, 31 seconds apart. */
  function LateArrivals(f: Fragment, n: nat): (evs: seq<Event>)
    ensures |evs| == n
    ensures forall k :: 0 <= k < n ==> evs[k] == Arrive(f, Ticks(11 + 31 * k, 11 + 31 * k, 11 + 31 * k), true)
  {
    seq(n, k requires 0 <= k < n => Arrive(f, Ticks(11 + 31 * k, 11 + 31 * k, 11 + 31 * k), true))
  }

  lemma {:induction false} SlotsLeak(f: Fragment, evs: seq<Event>, n: nat)
    requires f.more && n < 8 && n < |evs| && evs == LateArrivals(f, |evs|)
    ensures After(INITIAL, evs, n + 1) == State([Absorb(Blank(f.key), f, 11 + 31 * n)], n + 1, n)
  {
    var en, t := Absorb(Blank(f.key), f, 11 + 31 * n), Ticks(11 + 31 * n, 11 + 31 * n, 11 + 31 * n);
    assert !Complete(en);
    assert After(INITIAL, evs, n + 1) == Step(After(INITIAL, evs, n), f, t, true).0;
    if n == 0 {
      assert Live([], 11) == [];
    } else {
      SlotsLeak(f, evs, n - 1);
      var prev := Absorb(Blank(f.key), f, 11 + 31 * (n - 1));
      assert Live([prev], t.patrol) == [];
    }
    assert Patrol(After(INITIAL, evs, n), t) == State([], n, n);
    assert ([Blank(f.key)] + [])[0 := en] == [en];
  }

  /** Nine lone fragments 31 seconds apart use up all eight places for good. */
  lemma StarvationReachable(f: Fragment)
    requires f.more
    ensures var s := After(INITIAL, LateArrivals(f, 9), 9);
            Inv(s) && s.expired == 8
  {
    var evs := LateArrivals(f, 9);
    SlotsLeak(f, evs, 7);
    var last := Absorb(Blank(f.key), f, 11 + 31 * 7);
    assert Live([last], 11 + 31 * 8) == [];
    RunInv(INITIAL, evs, 9);
  }

  // ---- an entry is the history of its key ----------------------------------------------------

  predicate Concerns(ev: Event, key: Key)
  {
    ev.Arrive? && ev.f.key == key
  }

  /** Everything the events from `b` up to `n` said about `key`, absorbed in order. */
  function History(evs: seq<Event>, b: nat, n: nat, key: Key): (en: Entry)
    requires b <= n <= |evs|
    ensures en.key == key
    decreases n
  {
    if n == b then Blank(key)
    else if Concerns(evs[n - 1], key) then Absorb(History(evs, b, n - 1, key), evs[n - 1].f, evs[n - 1].ticks.stamp)
    else History(evs, b, n - 1, key)
  }

  /** Arrival time of the last fragment of `key` among the first `n` events. */
  function LastStamp(evs: seq<Event>, n: nat, key: Key): int
    requires n <= |evs|
  {
    if n == 0 then 0
    else if Concerns(evs[n - 1], key) then evs[n - 1].ticks.stamp
    else LastStamp(evs, n - 1, key)
  }

  /** No patrol runs more than 30 seconds after the last fragment of `key`. */
  predicate Timely(evs: seq<Event>, key: Key)
  {
    forall j :: 1 <= j < |evs| && evs[j].Arrive? ==>
      evs[j].ticks.patrol - LastStamp(evs, j, key) <= 30
  }

  /** A datagram that can be reassembled: its first fragment finds room and no patrol is late. */
  predicate Admitted(s: State, evs: seq<Event>, key: Key)
  {
    && Inv(s) && Lookup(s.entries, key) == None && s.count < MAX_ENTRIES
    && |evs| > 0 && Concerns(evs[0], key) && evs[0].alloc
    && Timely(evs, key)
  }

  function Lookup(entries: seq<Entry>, key: Key): Option<Entry>
  {
    var i := Find(entries, key);
    if i < |entries| then Some(entries[i]) else None
  }

  lemma LookupIs(entries: seq<Entry>, i: nat)
    requires i < |entries| && DistinctKeys(entries)
    ensures Lookup(entries, entries[i].key) == Some(entries[i])
  {
    assert Find(entries, entries[i].key) == i;
  }

  lemma LookupLive(entries: seq<Entry>, now: int, key: Key)
    requires DistinctKeys(entries)
    ensures var e := Lookup(entries, key);
            Lookup(Live(entries, now), key) == if e.Some? && Expired(e.value, now) then None else e
  {
    LiveIsSubsequence(entries, now);
    var live := Live(entries, now);
    var i, k := Find(entries, key), Find(live, key);
    if i < |entries| && !Expired(entries[i], now) {
      var j :| 0 <= j < |live| && live[j] == entries[i];
      LookupIs(live, j);
    } else if k < |live| {
      assert live[k] in live;
      var j :| 0 <= j < |entries| && entries[j] == live[k];
      LookupIs(entries, j);
    }
  }

  lemma LookupFinish(s: State, i: nat, en: Entry, key: Key)
    requires i < |s.entries| && DistinctKeys(s.entries) && en.key == s.entries[i].key
    ensures key != en.key ==> Lookup(Finish(s, i, en).0.entries, key) == Lookup(s.entries, key)
    ensures key == en.key ==> Lookup(Finish(s, i, en).0.entries, key) == if Complete(en) then None else Some(en)
  {
    var r := Finish(s, i, en).0.entries;
    var j := Find(s.entries, key);
    if key != en.key && j < |s.entries| {
      var j' := if Complete(en) && j > i then j - 1 else j;
      assert r[j'] == s.entries[j];
      LookupIs(r, j');
    } else if key == en.key && !Complete(en) {
      LookupIs(r, i);
    }
  }

  lemma AdmitLookup(s: State, admit: Key, alloc: bool, key: Key)
    requires DistinctKeys(s.entries)
    ensures var (q, i) := Admit(s, admit, alloc);
            && DistinctKeys(q.entries)
            && (i < |q.entries| ==> q.entries[i].key == admit)
            && (key != admit ==> Lookup(q.entries, key) == Lookup(s.entries, key))
            && (Lookup(s.entries, admit).Some? ==> i < |q.entries| && Some(q.entries[i]) == Lookup(s.entries, admit))
            && (Lookup(s.entries, admit) == None && alloc && s.count < MAX_ENTRIES ==>
                  i < |q.entries| && q.entries[i] == Blank(admit))
  {
    var q := Admit(s, admit, alloc).0;
    if q != s && key != admit {
      assert q.entries[1..] == s.entries;
      assert Find(q.entries, key) == 1 + Find(s.entries, key);
    }
  }

  /** The entry of `key` that survives the patrol of a call. */
  function Kept(s: State, t: Ticks, key: Key): Option<Entry>
  {
    var e := Lookup(s.entries, key);
    if t.check > 10 && e.Some? && Expired(e.value, t.patrol) then None else e
  }

  /** A call turns a fragment away: its key has no entry and none can be made. */
  predicate Refused(s: State, f: Fragment, t: Ticks, alloc: bool)
  {
    Kept(s, t, f.key) == None && (s.count >= MAX_ENTRIES || !alloc)
  }

  /** What one call does to the entry of `key`, whichever key the fragment carries. */
  lemma StepLookup(s: State, f: Fragment, t: Ticks, alloc: bool, key: Key)
    requires Inv(s)
    ensures f.key != key ==> Lookup(Step(s, f, t, alloc).0.entries, key) == Kept(s, t, key)
    ensures f.key == key && Refused(s, f, t, alloc) ==>
              Lookup(Step(s, f, t, alloc).0.entries, key) == None && Step(s, f, t, alloc).1 == None
    ensures f.key == key && !Refused(s, f, t, alloc) ==>
              var before := Kept(s, t, key);
              var en := Absorb(if before.Some? then before.value else Blank(key), f, t.stamp);
              && Lookup(Step(s, f, t, alloc).0.entries, key) == (if Complete(en) then None else Some(en))
              && Step(s, f, t, alloc).1 == (if Complete(en) then Some(Datagram(en)) else None)
  {
    PatrolInv(s, t);
    LookupLive(s.entries, t.patrol, key);
    var p := Patrol(s, t);
    assert Lookup(p.entries, key) == Kept(s, t, key);
    AdmitLookup(p, f.key, alloc, key);
    var (q, i) := Admit(p, f.key, alloc);
    if i < |q.entries| {
      LookupFinish(q, i, Absorb(q.entries[i], f, t.stamp), key);
    }
  }

  /** The start of the history that the entry of `key` is after event `n`, if it was `b` before. */
  function StartAfter(s: State, ev: Event, key: Key, b: nat, n: nat): nat
  {
    if Concerns(ev, key) && Kept(s, ev.ticks, key) == None then n else b
  }

  lemma HistoryStep(s: State, evs: seq<Event>, b: nat, n: nat, key: Key)
    requires Inv(s) && n < |evs|
    requires Lookup(s.entries, key).Some? ==> b <= n && Lookup(s.entries, key) == Some(History(evs, b, n, key))
    ensures var c, e := StartAfter(s, evs[n], key, b, n), Lookup(Next(s, evs[n]).0.entries, key);
            e.Some? ==> c <= n && e == Some(History(evs, c, n + 1, key))
  {
    if evs[n].Arrive? {
      StepLookup(s, evs[n].f, evs[n].ticks, evs[n].alloc, key);
    }
  }

  /**
   * Refinement over every run, with expiry, refusal, restarts and overlapping fragments: an entry is exactly what
   * the fragments of its key said since an event `b` that found no entry of the key.
   */
  lemma {:induction false} EntryIsHistorySince(s: State, evs: seq<Event>, n: nat, key: Key) returns (b: nat)
    requires Inv(s) && Lookup(s.entries, key) == None && n <= |evs|
    ensures Lookup(After(s, evs, n).entries, key).Some? ==>
              && b < n && Concerns(evs[b], key) && Kept(After(s, evs, b), evs[b].ticks, key) == None
              && Lookup(After(s, evs, n).entries, key) == Some(History(evs, b, n, key))
  {
    b := 0;
    if n > 0 {
      b := EntryIsHistorySince(s, evs, n - 1, key);
      var before := After(s, evs, n - 1);
      RunInv(s, evs, n - 1);
      HistoryStep(before, evs, b, n - 1, key);
      StartedBefore(before, evs[n - 1], key);
      b := StartAfter(before, evs[n - 1], key, b, n - 1);
    }
  }

  /** An entry that is there after an event, and was not begun by it, was there before. */
  lemma StartedBefore(s: State, ev: Event, key: Key)
    requires Inv(s)
    ensures Lookup(Next(s, ev).0.entries, key).Some? && !(Concerns(ev, key) && Kept(s, ev.ticks, key) == None) ==>
              Lookup(s.entries, key).Some?
  {
    if ev.Arrive? {
      StepLookup(s, ev.f, ev.ticks, ev.alloc, key);
    }
  }

  /**
   * The same for what is handed up: a fragment of `key` that is not turned away hands up the datagram assembled
   * since such an event `b`, if that is complete, and nothing otherwise.
   */
  lemma OutputIsHistorySince(s: State, evs: seq<Event>, n: nat, key: Key) returns (b: nat)
    requires Inv(s) && Lookup(s.entries, key) == None && n < |evs| && Concerns(evs[n], key)
    ensures b <= n && Concerns(evs[b], key) && Kept(After(s, evs, b), evs[b].ticks, key) == None
    ensures var en, ev := History(evs, b, n + 1, key), evs[n];
            if Refused(After(s, evs, n), ev.f, ev.ticks, ev.alloc) then
              Output(s, evs, n) == None && Lookup(After(s, evs, n + 1).entries, key) == None
            else
              && Output(s, evs, n) == (if Complete(en) then Some(Datagram(en)) else None)
              && Lookup(After(s, evs, n + 1).entries, key) == (if Complete(en) then None else Some(en))
  {
    b := EntryIsHistorySince(s, evs, n, key);
    RunInv(s, evs, n);
    StepLookup(After(s, evs, n), evs[n].f, evs[n].ticks, evs[n].alloc, key);
    b := StartAfter(After(s, evs, n), evs[n], key, b, n);
  }

  lemma {:induction false} StampIsLast(evs: seq<Event>, n: nat, key: Key)
    requires n <= |evs|
    ensures History(evs, 0, n, key).stamp == LastStamp(evs, n, key)
  {
    if n > 0 {
      StampIsLast(evs, n - 1, key);
    }
  }

  /** One event on an entry that does not expire, or that it begins. */
  lemma TimelyStep(s: State, evs: seq<Event>, n: nat, key: Key)
    requires Inv(s) && n < |evs|
    requires if n == 0 then Lookup(s.entries, key) == None && Concerns(evs[0], key) && evs[0].alloc &&
                            s.count < MAX_ENTRIES
             else Lookup(s.entries, key) == Some(History(evs, 0, n, key))
    requires n > 0 && evs[n].Arrive? ==> evs[n].ticks.patrol - History(evs, 0, n, key).stamp <= TIMEOUT_SEC
    ensures var en, (r, out) := History(evs, 0, n + 1, key), Next(s, evs[n]);
            && (!Concerns(evs[n], key) ==> Lookup(r.entries, key) == Some(en))
            && (Concerns(evs[n], key) ==>
                  && out == (if Complete(en) then Some(Datagram(en)) else None)
                  && Lookup(r.entries, key) == (if Complete(en) then None else Some(en)))
  {
    if evs[n].Arrive? {
      StepLookup(s, evs[n].f, evs[n].ticks, evs[n].alloc, key);
    }
  }

  /**
   * For a datagram that is admitted and never expires the start is the first event: as long as the history of
   * `key` is incomplete, its entry is that history and nothing is handed up; the event that completes it hands up
   * the assembled datagram and leaves no entry behind.
   */
  lemma {:induction false} EntryIsHistory(s: State, evs: seq<Event>, n: nat, key: Key)
    requires Admitted(s, evs, key) && n < |evs|
    requires forall m :: 1 <= m <= n ==> !Complete(History(evs, 0, m, key))
    ensures n > 0 ==> Lookup(After(s, evs, n).entries, key) == Some(History(evs, 0, n, key))
    ensures Concerns(evs[n], key) ==>
              var en := History(evs, 0, n + 1, key);
              && Output(s, evs, n) == (if Complete(en) then Some(Datagram(en)) else None)
              && Lookup(After(s, evs, n + 1).entries, key) == (if Complete(en) then None else Some(en))
  {
    if n > 0 {
      EntryIsHistory(s, evs, n - 1, key);
      RunInv(s, evs, n - 1);
      StampIsLast(evs, n - 1, key);
      TimelyStep(After(s, evs, n - 1), evs, n - 1, key);
    }
    RunInv(s, evs, n);
    StampIsLast(evs, n, key);
    TimelyStep(After(s, evs, n), evs, n, key);
  }

  /**
   * The history byte by byte: the last fragment that covers a position supplies it, and the last fragment
   * without the more-fragments flag fixes the length.
   */
  lemma {:induction false} LatestWins(evs: seq<Event>, b: nat, n: nat, key: Key, k: nat, i: nat)
    requires b <= k < n <= |evs| && Concerns(evs[k], key)
    ensures Covers(evs[k].f, i) && (forall j :: k < j < n && Concerns(evs[j], key) ==> !Covers(evs[j].f, i)) ==>
              i in History(evs, b, n, key).bytes && History(evs, b, n, key).bytes[i] == ByteAt(evs[k].f, i)
    ensures !evs[k].f.more && (forall j :: k < j < n && Concerns(evs[j], key) ==> evs[j].f.more) ==>
              History(evs, b, n, key).len == evs[k].f.off + |evs[k].f.payload|
    decreases n
  {
    if k < n - 1 {
      LatestWins(evs, b, n - 1, key, k, i);
    }
  }

  /** Nothing else is in the history: uncovered positions are absent and the length is 0 until it is fixed. */
  lemma {:induction false} OnlyCovered(evs: seq<Event>, b: nat, n: nat, key: Key)
    requires b <= n <= |evs|
    ensures forall i :: i in History(evs, b, n, key).bytes ==>
              exists k :: b <= k < n && Concerns(evs[k], key) && Covers(evs[k].f, i)
    ensures (forall k :: b <= k < n && Concerns(evs[k], key) ==> evs[k].f.more) ==>
              History(evs, b, n, key).len == 0
    decreases n
  {
    if n > b {
      OnlyCovered(evs, b, n - 1, key);
    }
  }

  // ---- the round trip ------------------------------------------------------------------------

  /** `f` carries its own piece of `data`, and the flag says whether more follows. */
  predicate Slice(f: Fragment, data: Bytes)
  {
    && 0 < |f.payload| && f.off + |f.payload| <= |data|
    && f.payload == data[f.off..f.off + |f.payload|]
    && (f.more <==> f.off + |f.payload| < |data|)
  }

  ghost predicate Covered(pieces: set<Fragment>, i: nat)
  {
    exists f :: f in pieces && Covers(f, i)
  }

  /** `all` cuts `data` into pieces that do not overlap. */
  ghost predicate Partition(all: set<Fragment>, data: Bytes)
  {
    && (forall f :: f in all ==> Slice(f, data))
    && (forall f, g :: f in all && g in all && Covers(g, f.off) ==> f == g)
    && (forall i: nat :: i < |data| ==> Covered(all, i))
  }

  /** The fragments of `key` among the first `n` events. */
  function Seen(evs: seq<Event>, n: nat, key: Key): set<Fragment>
    requires n <= |evs|
  {
    if n == 0 then {}
    else Seen(evs, n - 1, key) + if Concerns(evs[n - 1], key) then {evs[n - 1].f} else {}
  }

  /** `en` holds exactly the pieces in `seen`. */
  ghost predicate Tracks(en: Entry, data: Bytes, seen: set<Fragment>)
  {
    && (forall i :: i in en.bytes ==> i < |data| && en.bytes[i] == data[i])
    && (forall i: nat :: i in en.bytes <==> Covered(seen, i))
    && en.len == (if exists f :: f in seen && !f.more then |data| else 0)
  }

  lemma CoveredSnoc(seen: set<Fragment>, f: Fragment, i: nat)
    ensures Covered(seen + {f}, i) <==> Covered(seen, i) || Covers(f, i)
  {
    assert f in seen + {f};
    assert forall g :: g in seen ==> g in seen + {f};
  }

  lemma AbsorbLength(seen: set<Fragment>, f: Fragment)
    ensures (exists g :: g in seen + {f} && !g.more) <==> (exists g :: g in seen && !g.more) || !f.more
  {
    assert f in seen + {f};
    assert forall g :: g in seen ==> g in seen + {f};
  }

  lemma AbsorbTracks(en: Entry, data: Bytes, seen: set<Fragment>, f: Fragment, stamp: int)
    requires Tracks(en, data, seen) && Slice(f, data)
    ensures Tracks(Absorb(en, f, stamp), data, seen + {f})
  {
    var r := Absorb(en, f, stamp);
    forall i: nat
      ensures i in r.bytes <==> Covered(seen + {f}, i)
      ensures i in r.bytes ==> i < |data| && r.bytes[i] == data[i]
    {
      AbsorbTracksAt(en, data, seen, f, stamp, i);
    }
    AbsorbLength(seen, f);
  }

  lemma AbsorbTracksAt(en: Entry, data: Bytes, seen: set<Fragment>, f: Fragment, stamp: int, i: nat)
    requires Tracks(en, data, seen) && Slice(f, data)
    ensures var r := Absorb(en, f, stamp);
            && (i in r.bytes <==> Covered(seen + {f}, i))
            && (i in r.bytes ==> i < |data| && r.bytes[i] == data[i])
  {
    CoveredSnoc(seen, f, i);
  }

  lemma {:induction false} HistoryTracks(evs: seq<Event>, n: nat, key: Key, data: Bytes)
    requires n <= |evs|
    requires forall k :: 0 <= k < n && Concerns(evs[k], key) ==> Slice(evs[k].f, data)
    ensures Tracks(History(evs, 0, n, key), data, Seen(evs, n, key))
  {
    if n > 0 {
      HistoryTracks(evs, n - 1, key, data);
      if Concerns(evs[n - 1], key) {
        AbsorbTracks(History(evs, 0, n - 1, key), data, Seen(evs, n - 1, key), evs[n - 1].f, evs[n - 1].ticks.stamp);
      }
    }
  }

  /** A tracked entry is complete exactly when no piece is missing, and then it is the original. */
  lemma CompleteIffAllSeen(en: Entry, data: Bytes, seen: set<Fragment>, all: set<Fragment>)
    requires |data| > 0 && Partition(all, data) && seen <= all && Tracks(en, data, seen)
    ensures Complete(en) <==> seen == all
    ensures Complete(en) ==> Datagram(en) == data
  {
    if Complete(en) {
      assert en.len == |data|;
      forall f | f in all
        ensures f in seen
      {
        assert f.off in en.bytes && Covered(seen, f.off);
        var g :| g in seen && Covers(g, f.off);
      }
    }
    if seen == all {
      assert Covered(all, |data| - 1);
      var last :| last in all && Covers(last, |data| - 1);
      assert !last.more;
    }
  }

  lemma {:induction false} SeenGrows(evs: seq<Event>, m: nat, n: nat, key: Key)
    requires m <= n <= |evs|
    ensures Seen(evs, m, key) <= Seen(evs, n, key)
    ensures forall f :: f in Seen(evs, n, key) ==> exists k :: 0 <= k < n && Concerns(evs[k], key) && evs[k].f == f
    decreases n
  {
    if m < n {
      SeenGrows(evs, m, n - 1, key);
    } else if 0 < n {
      SeenGrows(evs, n - 1, n - 1, key);
    }
  }

  /**
   * Reassembly undoes any partition of a datagram: over every run whose fragments of `key` are pieces of it, in
   * any order, repeated, and interleaved with anything else, no event before the last missing piece hands up a
   * datagram for `key`, and that event hands up exactly the original and removes the entry.
   */
  lemma ReassemblesPartition(s: State, evs: seq<Event>, key: Key, data: Bytes, all: set<Fragment>, last: nat)
    requires |data| > 0 && Partition(all, data) && Admitted(s, evs, key) && last < |evs|
    requires forall k :: 0 <= k <= last && Concerns(evs[k], key) ==> evs[k].f in all
    requires Seen(evs, last, key) != all && Seen(evs, last + 1, key) == all
    ensures forall n :: 0 <= n < last && Concerns(evs[n], key) ==> Output(s, evs, n) == None
    ensures Output(s, evs, last) == Some(data)
    ensures Lookup(After(s, evs, last + 1).entries, key) == None
  {
    forall m | 1 <= m <= last + 1
      ensures Complete(History(evs, 0, m, key)) <==> m == last + 1
      ensures m == last + 1 ==> Datagram(History(evs, 0, m, key)) == data
    {
      SeenGrows(evs, m, last + 1, key);
      HistoryTracks(evs, m, key, data);
      CompleteIffAllSeen(History(evs, 0, m, key), data, Seen(evs, m, key), all);
      if m <= last {
        SeenGrows(evs, m, last, key);
        SeenGrows(evs, last, last + 1, key);
      }
    }
    forall n | 0 <= n <= last && Concerns(evs[n], key)
      ensures n < last ==> Output(s, evs, n) == None
    {
      EntryIsHistory(s, evs, n, key);
    }
    EntryIsHistory(s, evs, last, key);
  }
}
