/** The ARP cache of arp.c in place: a fixed table of slots, scanned and updated under the mutex. */
module ArpCache {
  import opened ByteOrder
  import opened Wrappers
  import opened ArpTable

  const TABLE_SIZE: nat := 4096

  class Cache {
    const table: array<Entry>
    var timestamp: int
    /** The packets handed to devices, oldest first. */
    var sent: seq<Sent>

    ghost predicate Valid()
      reads table
    {
      table.Length == TABLE_SIZE &&
      forall i :: 0 <= i < TABLE_SIZE && table[i].data.Some? ==> table[i].netif.Some?
    }

    /** arp.c: arp_init. */
    constructor (now: int)
      ensures Valid() && fresh(table) && table.Length == 4096 && timestamp == now && sent == []
      ensures table[..] == seq(TABLE_SIZE, _ => CLEAR)
    {
      table := new Entry[TABLE_SIZE](_ => CLEAR);
      timestamp := now;
      sent := [];
    }

    /** arp.c: arp_table_freespace. */
    method FreeSpace() returns (i: nat)
      ensures i == FirstFree(table[..])
    {
      i := 0;
      while i < table.Length
        invariant i <= table.Length
        invariant forall j :: 0 <= j < i ==> table[j].used
      {
        if !table[i].used {
          return;
        }
        i := i + 1;
      }
    }

    /** arp.c: arp_table_select. */
    method Find(pa: IpAddr) returns (i: nat)
      ensures i == Select(table[..], pa)
    {
      i := 0;
      while i < table.Length
        invariant i <= table.Length
        invariant forall j :: 0 <= j < i ==> !Holds(table[j], pa)
      {
        if table[i].used && table[i].pa == pa {
          return;
        }
        i := i + 1;
      }
    }

    /** arp.c: arp_table_insert, the second locked section of arp_rx. */
    method Add(pa: IpAddr, ha: MacAddr, now: int) returns (ok: bool)
      requires Valid()
      modifies table
      ensures Valid() && table[..] == Insert(old(table[..]), pa, ha, now)
      ensures ok <==> FirstFree(old(table[..])) < TABLE_SIZE
    {
      var i := FreeSpace();
      if i == table.Length {
        return false;
      }
      table[i] := table[i].(used := true, pa := pa, ha := ha, timestamp := now);
      return true;
    }

    /** arp.c: arp_table_update; `dev` is the device the message came from. */
    method Merge(dev: nat, pa: IpAddr, ha: MacAddr, now: int) returns (merged: bool)
      requires Valid()
      modifies table, this`sent
      ensures Valid() && table[..] == Update(old(table[..]), pa, ha, now)
      ensures sent == old(sent) + Released(old(table[..]), pa, ha)
      ensures merged <==> Select(old(table[..]), pa) < TABLE_SIZE
    {
      var i := Find(pa);
      if i == table.Length {
        return false;
      }
      table[i] := table[i].(ha := ha, timestamp := now);
      if table[i].data.Some? {
        var out := dev;
        if table[i].netif.value.dev != dev {
          out := table[i].netif.value.dev;
        }
        sent := sent + [Sent(out, pa, table[i].data.value, ha)];
        table[i] := table[i].(data := None);
      }
      return true;
    }

    /** arp.c: arp_table_patrol. */
    method Patrol()
      requires Valid()
      modifies table
      ensures Valid() && table[..] == Patrolled(old(table[..]), timestamp)
    {
      for i := 0 to table.Length
        invariant forall j :: 0 <= j < table.Length ==>
                    table[j] == if j < i && Expired(old(table[j]), timestamp) then CLEAR else old(table[j])
      {
        if table[i].used && timestamp - table[i].timestamp > TIMEOUT_SEC {
          table[i] := CLEAR;
        }
      }
    }

    /** arp.c:276-285, the first locked section of arp_rx; `now` and `stamp` are its two readings of the clock. */
    method Receive(dev: nat, spa: IpAddr, sha: MacAddr, now: int, stamp: int) returns (merged: bool)
      requires Valid()
      modifies this`timestamp, this`sent, table
      ensures Valid()
      ensures var t := Swept(old(table[..]), old(timestamp), now);
              && table[..] == Update(t, spa, sha, stamp)
              && sent == old(sent) + Released(t, spa, sha)
              && (merged <==> Select(t, spa) < TABLE_SIZE)
      ensures timestamp == SweptAt(old(timestamp), now)
    {
      if now - timestamp > PATROL_SEC {
        timestamp := now;
        Patrol();
      }
      merged := Merge(dev, spa, sha, stamp);
    }

    /** arp.c: arp_resolve up to its return or its wait. */
    method Begin(netif: Netif, pa: IpAddr, data: Option<Bytes>, alloc: bool, now: int) returns (r: Answer)
      requires Valid()
      modifies table
      ensures Valid() && (table[..], r) == Resolve(old(table[..]), netif, pa, data, alloc, now)
    {
      var i := Find(pa);
      if i < table.Length {
        if table[i].ha == ANY {
          return Wait(i);
        }
        return Found(table[i].ha);
      }
      var k := FreeSpace();
      if k == table.Length {
        return Failed;
      }
      if data.Some? {
        if !alloc {
          return Failed;
        }
        table[k] := table[k].(data := data);
      }
      table[k] := table[k].(used := true, pa := pa, timestamp := now, netif := Some(netif));
      assert table[..] == old(table[..])[k := table[k]];
      return Query;
    }

    /** arp.c:327-337, arp_resolve after its wait on `slot`. */
    method Resume(slot: nat, timedOut: bool) returns (r: Answer)
      requires Valid() && slot < TABLE_SIZE
      modifies table
      ensures Valid() && (table[..], r) == Wake(old(table[..]), slot, timedOut)
    {
      if !table[slot].used || timedOut {
        if table[slot].used {
          table[slot] := CLEAR;
        }
        return Failed;
      }
      return Found(table[slot].ha);
    }
  }
}
