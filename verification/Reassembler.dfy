/** The reassembler of ip.c as it works in place: byte buffers, coverage bitmaps and the list of entries. */
module Reassembler {
  import opened ByteOrder
  import opened Wrappers
  import opened Bitmap
  import opened Reassembly

  const MASK_WORDS: nat := 2048

  /** ip.c: struct ip_fragment. */
  class Buffer {
    const key: Key
    const data: array<uint8>
    const mask: array<Word>
    var len: nat
    var timestamp: int
    /** The bytes marked as received, with the other fields. */
    ghost var view: Entry

    ghost predicate Valid()
      reads this, data, mask
    {
      && data.Length == BUFFER_SIZE && mask.Length == MASK_WORDS
      && view.key == key && view.len == len <= BUFFER_SIZE && view.stamp == timestamp
      && Marks(mask[..], data[..], view.bytes)
    }

    constructor (key: Key)
      ensures Valid() && view == Blank(key)
      ensures fresh(data) && fresh(mask)
    {
      this.key := key;
      data := new uint8[BUFFER_SIZE](_ => 0);
      mask := new Word[MASK_WORDS];
      len := 0;
      timestamp := 0;
      view := Blank(key);
      new;
      MaskClear(mask);
    }

    /** ip.c:208-213. */
    method Receive(f: Fragment, stamp: int)
      requires Valid() && InBounds(f)
      modifies this, data, mask
      ensures Valid() && view == Absorb(old(view), f, stamp)
    {
      Copy(f.payload, f.off);
      assert mask[..] == old(mask[..]);
      MaskSet(mask, f.off, |f.payload|);
      if !f.more {
        len := f.off + |f.payload|;
      }
      timestamp := stamp;
      view := Absorb(view, f, stamp);
      MarksAbsorb(old(mask[..]), mask[..], old(data[..]), data[..], old(view), f, stamp);
    }

    /** memcpy into the buffer. */
    method Copy(payload: Bytes, off: nat)
      requires data.Length == BUFFER_SIZE && off + |payload| <= BUFFER_SIZE
      modifies data
      ensures forall i :: 0 <= i < BUFFER_SIZE ==>
                data[i] == if off <= i < off + |payload| then payload[i - off] else old(data[i])
    {
      for k := 0 to |payload|
        invariant forall i :: 0 <= i < BUFFER_SIZE ==>
                    data[i] == if off <= i < off + k then payload[i - off] else old(data[i])
      {
        data[off + k] := payload[k];
      }
    }

    /** ip.c:216-224. */
    method IsComplete() returns (done: bool)
      requires Valid()
      ensures done <==> Complete(view)
      ensures done ==> data[..len] == Datagram(view)
    {
      if len == 0 {
        return false;
      }
      done := MaskCheck(mask, 0, len);
      assert forall i: nat :: i < len ==> (i in view.bytes <==> BitAt(mask[..], i));
    }
  }

  /** The bitmap marks exactly the positions in `bytes`, and the buffer holds their values. */
  ghost predicate Marks(mask: seq<Word>, data: Bytes, bytes: map<nat, uint8>)
    requires |mask| == MASK_WORDS && |data| == BUFFER_SIZE
  {
    && (forall i: nat :: i < BUFFER_SIZE ==> (i in bytes <==> BitAt(mask, i)))
    && (forall i :: i in bytes ==> i < BUFFER_SIZE && bytes[i] == data[i])
  }

  lemma MarksAbsorb(mask: seq<Word>, mask': seq<Word>, data: Bytes, data': Bytes, en: Entry, f: Fragment, stamp: int)
    requires |mask| == |mask'| == MASK_WORDS && |data| == |data'| == BUFFER_SIZE
    requires InBounds(f) && Marks(mask, data, en.bytes)
    requires forall i: nat :: i < 32 * MASK_WORDS ==>
               (BitAt(mask', i) <==> BitAt(mask, i) || f.off <= i < f.off + |f.payload|)
    requires forall i :: 0 <= i < BUFFER_SIZE ==>
               data'[i] == if f.off <= i < f.off + |f.payload| then f.payload[i - f.off] else data[i]
    ensures Marks(mask', data', Absorb(en, f, stamp).bytes)
  {
    var bytes := Absorb(en, f, stamp).bytes;
    forall i: nat
      ensures i in bytes ==> i < BUFFER_SIZE && bytes[i] == data'[i]
      ensures i < BUFFER_SIZE ==> (i in bytes <==> BitAt(mask', i))
    {
      AbsorbAt(en, f, stamp, i);
    }
  }

  lemma AbsorbAt(en: Entry, f: Fragment, stamp: int, i: nat)
    ensures var bytes := Absorb(en, f, stamp).bytes;
            && (i in bytes <==> i in en.bytes || Covers(f, i))
            && (i in bytes ==> bytes[i] == if Covers(f, i) then ByteAt(f, i) else en.bytes[i])
  {
  }

  /** The list the patrol will leave once it has inspected the first `i` entries. */
  ghost function Outcome(m: seq<Entry>, i: nat, now: int): seq<Entry>
    requires i <= |m|
  {
    m[..i] + Live(m[i..], now)
  }

  lemma OutcomeEnds(m: seq<Entry>, now: int)
    ensures Outcome(m, 0, now) == Live(m, now) && Outcome(m, |m|, now) == m
  {
    assert m[0..] == m && m[..|m|] == m;
  }

  /** Inspecting an entry, and unlinking it if it is late, does not change the outcome. */
  lemma OutcomeStep(m: seq<Entry>, i: nat, now: int)
    requires i < |m|
    ensures Outcome(m, i, now) ==
            if Expired(m[i], now) then Outcome(m[..i] + m[i + 1..], i, now) else Outcome(m, i + 1, now)
  {
    var cut := m[..i] + m[i + 1..];
    assert cut[..i] == m[..i] && cut[i..] == m[i + 1..] == m[i..][1..];
  }

  /** No two positions share an entry, a buffer or a bitmap. */
  ghost predicate Separate(fragments: seq<Buffer>)
  {
    forall i, j :: 0 <= i < j < |fragments| ==>
      && fragments[i] != fragments[j]
      && fragments[i].data != fragments[j].data
      && fragments[i].mask != fragments[j].mask
  }

  class Reassembler {
    var fragments: seq<Buffer>
    var count: int
    /** The entries as values, and the number of entries ever expired. */
    ghost var model: seq<Entry>
    ghost var expired: nat
    ghost var repr: set<object>

    ghost predicate Valid()
      reads this, repr
    {
      && this !in repr && |model| == |fragments|
      && (forall b :: b in fragments ==> b in repr && b.data in repr && b.mask in repr && b.Valid())
      && (forall i :: 0 <= i < |fragments| ==> model[i] == fragments[i].view)
      && Separate(fragments)
    }

    ghost function State(): State
      reads this
    {
      Reassembly.State(model, count, expired)
    }

    constructor ()
      ensures Valid() && fresh(repr) && State() == INITIAL
    {
      fragments, count, model, expired, repr := [], 0, [], 0, {};
    }

    /** Unlink the entry at position `i`. */
    method Unlink(i: nat)
      requires Valid() && i < |fragments|
      modifies this`fragments, this`model
      ensures Valid()
      ensures fragments == old(fragments[..i] + fragments[i + 1..])
      ensures model == old(model[..i] + model[i + 1..])
    {
      fragments := fragments[..i] + fragments[i + 1..];
      model := model[..i] + model[i + 1..];
    }

    /** ip.c:159-170: inspect the entry at `i`, unlink it if it is late, and move on. */
    method Inspect(i: nat, now: int) returns (next: nat, late: int)
      requires Valid() && i < |fragments|
      modifies this`fragments, this`model
      ensures Valid() && next <= |fragments| == old(|fragments|) - late
      ensures if late == 0 then next == i + 1 else late == 1 && next == i
      ensures Outcome(model, next, now) == old(Outcome(model, i, now))
    {
      OutcomeStep(model, i, now);
      assert fragments[i] in fragments;
      if now - fragments[i].timestamp > TIMEOUT_SEC {
        Unlink(i);
        return i, 1;
      }
      return i + 1, 0;
    }

    /** ip.c: ip_fragment_patrol, which returns the number of entries it unlinked. */
    method Patrol(now: int) returns (removed: int)
      requires Valid()
      modifies this`fragments, this`model
      ensures Valid() && model == Live(old(model), now)
      ensures removed == |old(model)| - |model|
    {
      var i: nat := 0;
      removed := 0;
      OutcomeEnds(model, now);
      while i < |fragments|
        invariant Valid() && i <= |fragments| == |old(model)| - removed
        invariant Outcome(model, i, now) == Live(old(model), now)
        decreases |fragments| - i
      {
        var late;
        i, late := Inspect(i, now);
        removed := removed + late;
      }
      OutcomeEnds(model, now);
    }

    /** ip.c: ip_fragment_search. */
    method Search(key: Key) returns (i: nat)
      requires Valid()
      ensures i == Find(model, key)
    {
      i := 0;
      while i < |fragments|
        invariant i <= |fragments|
        invariant forall j :: 0 <= j < i ==> model[j].key != key
      {
        assert fragments[i] in fragments && model[i].key == fragments[i].key;
        if fragments[i].key == key {
          return;
        }
        i := i + 1;
      }
    }

    /** ip.c: ip_fragment_process; `alloc` says whether malloc succeeds. */
    method Process(f: Fragment, t: Ticks, alloc: bool) returns (r: Option<Bytes>)
      requires Valid() && InBounds(f)
      modifies this, repr
      ensures Valid() && fresh(repr - old(repr))
      ensures (State(), r) == Step(old(State()), f, t, alloc)
    {
      Sweep(t);
      var i := FindOrAlloc(f.key, alloc);
      if i < |fragments| {
        r := Finish(i, f, t.stamp);
      } else {
        r := None;
      }
    }

    /** ip.c:184-187; what the patrol returns is not used by the program. */
    method Sweep(t: Ticks)
      requires Valid()
      modifies this`fragments, this`model, this`expired
      ensures Valid() && State() == Reassembly.Patrol(old(State()), t)
    {
      if t.check - 0 > 10 {
        var removed := Patrol(t.patrol);
        expired := expired + removed;
      }
    }

    /** ip.c:190-205. The position is that of the entry to use, or the length of the list on a refusal. */
    method FindOrAlloc(key: Key, alloc: bool) returns (i: nat)
      requires Valid()
      modifies this`fragments, this`model, this`repr, this`count
      ensures Valid() && fresh(repr - old(repr))
      ensures (State(), i) == Admit(old(State()), key, alloc)
    {
      i := Search(key);
      if i == |fragments| && count < MAX_ENTRIES && alloc {
        Alloc(key);
        count := count + 1;
        i := 0;
      }
    }

    /** ip.c: ip_fragment_alloc, when malloc succeeds. */
    method Alloc(key: Key)
      requires Valid()
      modifies this`fragments, this`model, this`repr
      ensures Valid() && fresh(repr - old(repr)) && model == [Blank(key)] + old(model)
    {
      var b := new Buffer(key);
      Link(b);
    }

    /** Put a new entry at the head of the list. */
    method Link(b: Buffer)
      requires Valid() && b.Valid() && b !in repr && b.data !in repr && b.mask !in repr && this !in {b, b.data, b.mask}
      modifies this`fragments, this`model, this`repr
      ensures Valid() && repr == old(repr) + {b, b.data, b.mask} && model == [b.view] + old(model)
    {
      fragments := [b] + fragments;
      model := [b.view] + model;
      repr := repr + {b, b.data, b.mask};
    }

    /** ip.c:207-229. */
    method Finish(i: nat, f: Fragment, stamp: int) returns (r: Option<Bytes>)
      requires Valid() && InBounds(f) && i < |fragments|
      modifies this, repr
      ensures Valid() && repr == old(repr)
      ensures (State(), r) == Reassembly.Finish(old(State()), i, Absorb(old(model[i]), f, stamp))
    {
      ReceiveAt(i, f, stamp);
      assert fragments[i] in fragments;
      var done := fragments[i].IsComplete();
      if !done {
        return None;
      }
      r := Some(fragments[i].data[..fragments[i].len]);
      Unlink(i);
      count := count - 1;
    }

    method ReceiveAt(i: nat, f: Fragment, stamp: int)
      requires Valid() && InBounds(f) && i < |fragments|
      modifies this`model, fragments[i], fragments[i].data, fragments[i].mask
      ensures Valid() && model == old(model)[i := Absorb(old(model[i]), f, stamp)]
    {
      var b := fragments[i];
      b.Receive(f, stamp);
      model := model[i := b.view];
    }
  }
}
