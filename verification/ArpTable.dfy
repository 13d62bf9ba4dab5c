/** The ARP table (arp.c) on values: one entry per slot, and what each locked section does to it. */
module ArpTable {
  import opened ByteOrder
  import opened Wrappers

  const TIMEOUT_SEC: int := 300
  const PATROL_SEC: int := 10

  /** The hardware address of an entry that is still unresolved. */
  const ANY: MacAddr := [0, 0, 0, 0, 0, 0]

  datatype Netif = Netif(dev: nat, unicast: IpAddr)

  /** arp.c: struct arp_entry. */
  datatype Entry = Entry(used: bool, pa: IpAddr, ha: MacAddr, timestamp: int, data: Option<Bytes>, netif: Option<Netif>)

  /** What arp_entry_clear leaves, and what a static table starts as. */
  const CLEAR := Entry(false, [0, 0, 0, 0], ANY, 0, None, None)

  /** A packet handed to a device with a resolved hardware address. */
  datatype Sent = Sent(dev: nat, nexthop: IpAddr, bytes: Bytes, ha: MacAddr)

  // ---- lookups -------------------------------------------------------------------------------

  /** The first unused slot, or the table size. */
  function FirstFree(t: seq<Entry>): (i: nat)
    ensures i <= |t| && (i < |t| ==> !t[i].used)
    ensures forall j :: 0 <= j < i ==> t[j].used
  {
    if t == [] || !t[0].used then 0 else 1 + FirstFree(t[1..])
  }

  predicate Holds(e: Entry, pa: IpAddr)
  {
    e.used && e.pa == pa
  }

  /** The first used slot for this address, or the table size. */
  function Select(t: seq<Entry>, pa: IpAddr): (i: nat)
    ensures i <= |t| && (i < |t| ==> Holds(t[i], pa))
    ensures forall j :: 0 <= j < i ==> !Holds(t[j], pa)
  {
    if t == [] || Holds(t[0], pa) then 0 else 1 + Select(t[1..], pa)
  }

  // ---- updates -------------------------------------------------------------------------------

  function Insert(t: seq<Entry>, pa: IpAddr, ha: MacAddr, now: int): (r: seq<Entry>)
    ensures |r| == |t|
  {
    var i := FirstFree(t);
    if i == |t| then t else t[i := t[i].(used := true, pa := pa, ha := ha, timestamp := now)]
  }

  function Update(t: seq<Entry>, pa: IpAddr, ha: MacAddr, now: int): (r: seq<Entry>)
    ensures |r| == |t|
  {
    var i := Select(t, pa);
    if i == |t| then t else t[i := t[i].(ha := ha, timestamp := now, data := None)]
  }

  /** The saved packet an update releases; it leaves through the device it was saved for. */
  function Released(t: seq<Entry>, pa: IpAddr, ha: MacAddr): (r: seq<Sent>)
  {
    var i := Select(t, pa);
    if i < |t| && t[i].data.Some? && t[i].netif.Some? then [Sent(t[i].netif.value.dev, pa, t[i].data.value, ha)] else []
  }

  predicate Expired(e: Entry, timestamp: int)
  {
    e.used && timestamp - e.timestamp > TIMEOUT_SEC
  }

  function Patrolled(t: seq<Entry>, timestamp: int): (r: seq<Entry>)
    ensures |r| == |t|
    ensures forall i :: 0 <= i < |t| ==> r[i] == if Expired(t[i], timestamp) then CLEAR else t[i]
  {
    seq(|t|, i requires 0 <= i < |t| => if Expired(t[i], timestamp) then CLEAR else t[i])
  }

  /** The table as the update of a received message finds it. */
  function Swept(t: seq<Entry>, timestamp: int, now: int): (r: seq<Entry>)
    ensures |r| == |t|
  {
    if now - timestamp > PATROL_SEC then Patrolled(t, now) else t
  }

  function SweptAt(timestamp: int, now: int): int
  {
    if now - timestamp > PATROL_SEC then now else timestamp
  }

  // ---- resolution ----------------------------------------------------------------------------

  /** `Wait` stands for the condition wait on that slot. */
  datatype Answer = Found(ha: MacAddr) | Wait(slot: nat) | Query | Failed

  /** arp_resolve up to its return or its wait. */
  function Resolve(t: seq<Entry>, netif: Netif, pa: IpAddr, data: Option<Bytes>, alloc: bool, now: int)
    : (r: (seq<Entry>, Answer))
    ensures |r.0| == |t|
  {
    var i, k := Select(t, pa), FirstFree(t);
    if i < |t| then (t, if t[i].ha == ANY then Wait(i) else Found(t[i].ha))
    else if k == |t| || (data.Some? && !alloc) then (t, Failed)
    else
      var e := t[k].(data := if data.Some? then data else t[k].data);
      (t[k := e.(used := true, pa := pa, timestamp := now, netif := Some(netif))], Query)
  }

  /** arp_resolve after its wait: the slot is not checked to be still for the same address. */
  function Wake(t: seq<Entry>, slot: nat, timedOut: bool): (r: (seq<Entry>, Answer))
    requires slot < |t|
    ensures |r.0| == |t|
  {
    if !t[slot].used then (t, Failed)
    else if timedOut then (t[slot := CLEAR], Failed)
    else (t, Found(t[slot].ha))
  }

  // ---- the table as a map --------------------------------------------------------------------

  /** No two used entries share an address. */
  predicate Unique(t: seq<Entry>)
  {
    forall i, j :: 0 <= i < j < |t| && t[i].used && t[j].used ==> t[i].pa != t[j].pa
  }

  function AsMap(t: seq<Entry>): (m: map<IpAddr, MacAddr>)
  {
    map pa | pa in (set e | e in t && e.used :: e.pa) && Select(t, pa) < |t| :: t[Select(t, pa)].ha
  }

  lemma KnownIff(t: seq<Entry>, pa: IpAddr)
    ensures pa in AsMap(t) <==> Select(t, pa) < |t|
    ensures pa in AsMap(t) ==> AsMap(t)[pa] == t[Select(t, pa)].ha
  {
    if Select(t, pa) < |t| {
      assert t[Select(t, pa)] in t;
    }
  }

  lemma SelectIs(t: seq<Entry>, i: nat, pa: IpAddr)
    requires i < |t| && Unique(t) && Holds(t[i], pa)
    ensures Select(t, pa) == i
  {
  }

  lemma SelectSame(t: seq<Entry>, r: seq<Entry>, pa: IpAddr)
    requires |r| == |t| && forall j :: 0 <= j < |t| ==> (Holds(r[j], pa) <==> Holds(t[j], pa))
    ensures Select(r, pa) == Select(t, pa)
  {
  }

  /** `r` is `t` with `pa` set to `ha`, as far as `q` is concerned. */
  predicate SetsAt(t: seq<Entry>, r: seq<Entry>, pa: IpAddr, ha: MacAddr, q: IpAddr)
  {
    && (q in AsMap(r) <==> q == pa || q in AsMap(t))
    && (q in AsMap(r) ==> AsMap(r)[q] == if q == pa then ha else AsMap(t)[q])
  }

  lemma SetsMap(t: seq<Entry>, r: seq<Entry>, pa: IpAddr, ha: MacAddr)
    requires forall q: IpAddr :: SetsAt(t, r, pa, ha, q)
    ensures AsMap(r) == AsMap(t)[pa := ha]
  {
    var m, n := AsMap(r), AsMap(t)[pa := ha];
    assert forall q: IpAddr :: SetsAt(t, r, pa, ha, q) ==> (q in m <==> q in n);
    assert m.Keys == n.Keys;
    assert forall q: IpAddr :: SetsAt(t, r, pa, ha, q) && q in m ==> m[q] == n[q];
  }

  lemma UpdateKeepsSelect(t: seq<Entry>, pa: IpAddr, ha: MacAddr, now: int, q: IpAddr)
    ensures Select(Update(t, pa, ha, now), q) == Select(t, q)
  {
    var r := Update(t, pa, ha, now);
    assert forall j :: 0 <= j < |t| ==> r[j].used == t[j].used && r[j].pa == t[j].pa;
    SelectSame(t, r, q);
  }

  lemma UpdateAt(t: seq<Entry>, pa: IpAddr, ha: MacAddr, now: int, q: IpAddr)
    requires Select(t, pa) < |t|
    ensures SetsAt(t, Update(t, pa, ha, now), pa, ha, q)
  {
    UpdateKeepsSelect(t, pa, ha, now, q);
    KnownIff(t, q);
    KnownIff(Update(t, pa, ha, now), q);
  }

  lemma OccupyAt(t: seq<Entry>, k: nat, e: Entry, q: IpAddr)
    requires k < |t| && !t[k].used && e.used && Select(t, e.pa) == |t| && Unique(t[k := e])
    ensures SetsAt(t, t[k := e], e.pa, e.ha, q)
  {
    var r := t[k := e];
    if q == e.pa {
      SelectIs(r, k, q);
    } else {
      assert !Holds(t[k], q) && !Holds(r[k], q);
      SelectSame(t, r, q);
    }
    KnownIff(t, q);
    KnownIff(r, q);
  }

  /** An entry for an unknown address in an unused slot adds exactly that address to the map. */
  lemma OccupyUnique(t: seq<Entry>, k: nat, e: Entry)
    requires Unique(t) && k < |t| && !t[k].used && e.used && Select(t, e.pa) == |t|
    ensures Unique(t[k := e]) && AsMap(t[k := e]) == AsMap(t)[e.pa := e.ha]
  {
    var r, pa, ha := t[k := e], e.pa, e.ha;
    assert forall j :: 0 <= j < |t| ==> !Holds(t[j], pa);
    forall q: IpAddr
      ensures SetsAt(t, r, pa, ha, q)
    {
      OccupyAt(t, k, e, q);
    }
    SetsMap(t, r, pa, ha);
  }

  lemma UpdateUnique(t: seq<Entry>, pa: IpAddr, ha: MacAddr, now: int)
    requires Unique(t) && Select(t, pa) < |t|
    ensures Unique(Update(t, pa, ha, now)) && AsMap(Update(t, pa, ha, now)) == AsMap(t)[pa := ha]
  {
    var r := Update(t, pa, ha, now);
    forall q: IpAddr
      ensures SetsAt(t, r, pa, ha, q)
    {
      UpdateAt(t, pa, ha, now, q);
    }
    SetsMap(t, r, pa, ha);
  }

  lemma InsertUnique(t: seq<Entry>, pa: IpAddr, ha: MacAddr, now: int)
    requires Unique(t) && Select(t, pa) == |t| && FirstFree(t) < |t|
    ensures Unique(Insert(t, pa, ha, now)) && AsMap(Insert(t, pa, ha, now)) == AsMap(t)[pa := ha]
  {
    var k := FirstFree(t);
    OccupyUnique(t, k, t[k].(used := true, pa := pa, ha := ha, timestamp := now));
  }

  /**
   * One received message, both locked sections without a gap, is the packet reception of RFC 826 on the map: a
   * known sender is overwritten, an unknown one is added only if we are the target and a slot is free, and
   * nothing else changes.
   */
  lemma ReceptionIsRfc826(t: seq<Entry>, spa: IpAddr, sha: MacAddr, forUs: bool, now: int, later: int)
    requires Unique(t)
    ensures var merged, u := Select(t, spa) < |t|, Update(t, spa, sha, now);
            var r := if !merged && forUs then Insert(u, spa, sha, later) else u;
            && Unique(r)
            && AsMap(r) == if spa in AsMap(t) || (forUs && FirstFree(t) < |t|) then AsMap(t)[spa := sha] else AsMap(t)
  {
    KnownIff(t, spa);
    if Select(t, spa) < |t| {
      UpdateUnique(t, spa, sha, now);
    } else if forUs && FirstFree(t) < |t| {
      InsertUnique(t, spa, sha, later);
    }
  }

  /** The second section on its own keeps addresses unique exactly when the sender is still unknown to it. */
  lemma InsertUniqueIff(t: seq<Entry>, pa: IpAddr, ha: MacAddr, now: int)
    requires Unique(t) && FirstFree(t) < |t|
    ensures Unique(Insert(t, pa, ha, now)) <==> Select(t, pa) == |t|
  {
    if Select(t, pa) == |t| {
      InsertUnique(t, pa, ha, now);
    } else {
      var r, i, k := Insert(t, pa, ha, now), Select(t, pa), FirstFree(t);
      assert Holds(r[i], pa) && Holds(r[k], pa) && i != k;
    }
  }

  // ---- what a resolver is told ---------------------------------------------------------------

  predicate HasFree(t: seq<Entry>)
  {
    exists i :: 0 <= i < |t| && !t[i].used
  }

  /**
   * The answer of arp_resolve, told by the map: a known address is found, an unresolved one is waited for, an unknown
   * one is asked for if there is a free slot and, for a packet to save, memory. Only asking changes the table.
   */
  lemma ResolveIff(t: seq<Entry>, netif: Netif, pa: IpAddr, data: Option<Bytes>, alloc: bool, now: int)
    ensures var (r, a) := Resolve(t, netif, pa, data, alloc, now);
            var m, unresolved := AsMap(t), [0, 0, 0, 0, 0, 0];
            && (a.Found? <==> pa in m && m[pa] != unresolved) && (a.Found? ==> a.ha == m[pa])
            && (a.Wait? <==> pa in m && m[pa] == unresolved)
            && (a.Wait? ==> a.slot < |t| && t[a.slot].used && t[a.slot].pa == pa && t[a.slot].ha == unresolved)
            && (a.Query? <==> pa !in m && HasFree(t) && (data.None? || alloc))
            && (!a.Query? ==> r == t)
  {
    KnownIff(t, pa);
  }

  /** Asking for an address saves the packet in a new, unresolved entry and changes nothing else. */
  lemma QueryAdds(t: seq<Entry>, netif: Netif, pa: IpAddr, data: Option<Bytes>, alloc: bool, now: int)
    returns (k: nat)
    requires Unique(t) && Resolve(t, netif, pa, data, alloc, now).1.Query?
    requires forall i :: 0 <= i < |t| && !t[i].used ==> t[i] == CLEAR
    ensures var r, e := Resolve(t, netif, pa, data, alloc, now).0,
                        Entry(true, pa, [0, 0, 0, 0, 0, 0], now, data, Some(netif));
            && k < |t| && !t[k].used && r == t[k := e]
            && Unique(r) && AsMap(r) == AsMap(t)[pa := [0, 0, 0, 0, 0, 0]]
  {
    k := FirstFree(t);
    OccupyUnique(t, k, Entry(true, pa, ANY, now, data, Some(netif)));
  }

  /** After its wait a resolver is told the address in its slot, unless that is unused or the wait timed out. */
  lemma WakeIff(t: seq<Entry>, slot: nat, timedOut: bool)
    requires slot < |t|
    ensures var (r, a) := Wake(t, slot, timedOut);
            && a == (if t[slot].used && !timedOut then Found(t[slot].ha) else Failed)
            && |r| == |t| && (forall i :: 0 <= i < |t| && i != slot ==> r[i] == t[i])
            && r[slot] == (if t[slot].used && timedOut then CLEAR else t[slot])
  {
  }

  /** A message clears exactly the entries older than 300 seconds, if the last sweep is more than 10 seconds ago. */
  lemma SweepIff(t: seq<Entry>, timestamp: int, now: int, i: nat)
    requires i < |t|
    ensures Swept(t, timestamp, now)[i] ==
            if now - timestamp > 10 && t[i].used && now - t[i].timestamp > 300 then CLEAR else t[i]
    ensures SweptAt(timestamp, now) == if now - timestamp > 10 then now else timestamp
  {
  }
}
