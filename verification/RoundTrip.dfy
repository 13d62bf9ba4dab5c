/** ip_tx against ip_fragment_process: what the one cuts up, the other puts together. */
module RoundTrip {
  import opened ByteOrder
  import opened Wrappers
  import opened Reassembly
  import opened Ip

  /** What a receiver makes of these pieces. */
  function FragmentsOf(key: Key, pieces: seq<Piece>): set<Fragment>
  {
    set p | p in pieces :: FragmentOf(key, p.offset, p.data)
  }

  /** Every piece announces the position it was cut from. */
  predicate Exact(pieces: seq<Piece>, done: nat)
  {
    pieces == [] ||
    (pieces[0].offset % 0x2000 * 8 == done && Exact(pieces[1..], done + |pieces[0].data|))
  }

  lemma FieldRoundTrip(more: bool, done: nat, key: Key, data: Bytes)
    requires done < 0x1_0000
    ensures var f := FragmentOf(key, OffsetField(more, done), data);
            f.more == more && f.off == done / 8 * 8
  {
  }

  lemma OffsetExact(more: bool, done: nat)
    ensures OffsetField(more, done) % 0x2000 * 8 == done <==> done % 8 == 0 && done < 0x1_0000
  {
    assert OffsetField(more, done) % 0x2000 == done / 8 % 0x2000;
  }

  /** Where the last of the pieces of `len` bytes starts. */
  function LastStart(len: nat, cap: nat): nat
    requires 0 < len && 0 < cap
  {
    (len - 1) / cap * cap
  }

  lemma Scale(i: int, j: int, cap: nat)
    requires i <= j
    ensures i * cap <= j * cap
  {
  }

  /** Piece `i` starts inside the payload exactly if `i` is at most the number of full pieces before the last. */
  lemma StartsInside(i: nat, len: nat, cap: nat)
    requires 0 < len && 0 < cap
    ensures i * cap < len <==> i <= (len - 1) / cap
    ensures i <= (len - 1) / cap ==> i * cap <= LastStart(len, cap)
  {
    var q := (len - 1) / cap;
    assert len - 1 == cap * q + (len - 1) % cap;
    if i <= q {
      Scale(i, q, cap);
    } else {
      Scale(q + 1, i, cap);
    }
  }

  lemma StartOf(i: nat, done: nat, len: nat, cap: nat)
    requires 0 < cap && done == i * cap < len
    ensures done <= LastStart(len, cap) && (len <= done + cap ==> done == LastStart(len, cap))
    ensures done + cap == (i + 1) * cap
  {
    StartsInside(i, len, cap);
    assert done + cap == (i + 1) * cap;
    StartsInside(i + 1, len, cap);
  }

  ghost predicate ExactHere(data: Bytes, cap: nat, done: nat, last: nat)
    requires 0 < cap && done <= |data|
  {
    Exact(Pieces(data, cap, done), done) <==>
    done % 8 == 0 && (|data| - done <= cap || cap % 8 == 0) && last < 0x1_0000
  }

  lemma FirstPiece(data: Bytes, cap: nat, done: nat) returns (p: Piece)
    requires 0 < cap && done < |data|
    ensures |p.data| == PieceSize(data, cap, done)
    ensures Pieces(data, cap, done) == [p] + Pieces(data, cap, done + |p.data|)
    ensures p.offset % 0x2000 * 8 == done <==> done % 8 == 0 && done < 0x1_0000
  {
    var n := PieceSize(data, cap, done);
    p := Piece(OffsetField(done + n < |data|, done), data[done..done + n]);
    OffsetExact(done + n < |data|, done);
  }

  lemma Eighths(done: nat, cap: nat)
    ensures done % 8 == 0 ==> ((done + cap) % 8 == 0 <==> cap % 8 == 0)
  {
  }

  lemma ExactStep(data: Bytes, cap: nat, done: nat, last: nat)
    requires 0 < cap && done < |data| && done <= last && (|data| <= done + cap ==> done == last)
    requires done + cap < |data| ==> ExactHere(data, cap, done + cap, last)
    ensures ExactHere(data, cap, done, last)
  {
    var p := FirstPiece(data, cap, done);
    ExactCons(p, Pieces(data, cap, done + |p.data|), done);
    if done + cap < |data| {
      Eighths(done, cap);
    } else {
      assert Exact(Pieces(data, cap, |data|), |data|);
    }
  }

  lemma {:induction false} ExactFrom(data: Bytes, cap: nat, i: nat, done: nat)
    requires 0 < cap && done < |data| && done == i * cap
    ensures ExactHere(data, cap, done, LastStart(|data|, cap))
    decreases |data| - done
  {
    StartOf(i, done, |data|, cap);
    if done + cap < |data| {
      ExactFrom(data, cap, i + 1, done + cap);
    }
    ExactStep(data, cap, done, LastStart(|data|, cap));
  }

  lemma ExactCons(p: Piece, rest: seq<Piece>, done: nat)
    ensures Exact([p] + rest, done) <==> p.offset % 0x2000 * 8 == done && Exact(rest, done + |p.data|)
  {
    assert ([p] + rest)[1..] == rest;
  }

  /**
   * For every payload ip_tx is given: every piece announces the position it was cut from exactly when there is one
   * piece, or the capacity is a multiple of 8 and the last piece starts below 65536, where the offset field wraps.
   */
  lemma ExactIffAligned(data: Bytes, cap: nat)
    requires 0 < cap
    ensures Exact(Pieces(data, cap, 0), 0) <==>
            |data| <= cap || (cap % 8 == 0 && LastStart(|data|, cap) < 0x1_0000)
  {
    if |data| > 0 {
      ExactFrom(data, cap, 0, 0);
      StartsInside(1, |data|, cap);
    }
  }

  lemma EthernetLastStart(len: nat, cap: nat)
    requires 0 < len && cap == 1480
    ensures (len - 1) / cap * cap < 0x1_0000 <==> len <= 66600
  {
    StartsInside(45, len, cap);
  }

  lemma ExactWithin(data: Bytes, cap: nat)
    requires cap == 1480
    ensures Exact(Pieces(data, cap, 0), 0) <==> |data| <= 66600
  {
    if |data| > 0 {
      EthernetLastStart(|data|, cap);
    }
    ExactIffAligned(data, cap);
  }

  /** Over Ethernet that is a payload of at most 66600 bytes. */
  lemma ExactOverEthernet(data: Bytes)
    ensures Exact(Pieces(data, 1480, 0), 0) <==> |data| <= 66600
  {
    ExactWithin(data, 1480);
  }

  /** `all` cuts what follows `done` into pieces that do not overlap. */
  ghost predicate CutsFrom(all: set<Fragment>, data: Bytes, done: nat)
  {
    && (forall f :: f in all ==> Slice(f, data) && done <= f.off)
    && (forall f, g :: f in all && g in all && Covers(g, f.off) ==> f == g)
    && (forall i: nat :: done <= i < |data| ==> Covered(all, i))
  }

  lemma CutsCons(f: Fragment, rest: set<Fragment>, data: Bytes)
    requires Slice(f, data) && CutsFrom(rest, data, f.off + |f.payload|)
    ensures CutsFrom({f} + rest, data, f.off)
  {
    var all := {f} + rest;
    forall i: nat | f.off <= i < |data|
      ensures Covered(all, i)
    {
      if i < f.off + |f.payload| {
        assert f in all && Covers(f, i);
      } else {
        assert Covered(rest, i);
        var g :| g in rest && Covers(g, i);
        assert g in all;
      }
    }
  }

  lemma PieceIsSlice(key: Key, data: Bytes, cap: nat, done: nat)
    requires 0 < cap && done < |data| <= BUFFER_SIZE && done % 8 == 0
    ensures var n := PieceSize(data, cap, done);
            var f := FragmentOf(key, OffsetField(done + n < |data|, done), data[done..done + n]);
            Slice(f, data) && f.off == done && |f.payload| == n
  {
    var n := PieceSize(data, cap, done);
    FieldRoundTrip(done + n < |data|, done, key, data[done..done + n]);
  }

  lemma {:induction false} PiecesPartition(key: Key, data: Bytes, cap: nat, done: nat)
    requires 0 < cap && done <= |data| <= BUFFER_SIZE && cap % 8 == 0
    requires done < |data| ==> done % 8 == 0
    ensures CutsFrom(FragmentsOf(key, Pieces(data, cap, done)), data, done)
    decreases |data| - done
  {
    if done < |data| {
      var n := PieceSize(data, cap, done);
      var p := Piece(OffsetField(done + n < |data|, done), data[done..done + n]);
      var rest := Pieces(data, cap, done + n);
      PiecesPartition(key, data, cap, done + n);
      PieceIsSlice(key, data, cap, done);
      var f := FragmentOf(key, p.offset, p.data);
      assert CutsFrom({f} + FragmentsOf(key, rest), data, done) by { CutsCons(f, FragmentsOf(key, rest), data); }
      assert Pieces(data, cap, done) == [p] + rest;
      FragmentsCons(key, p, rest);
    }
  }

  lemma LaterPieces(key: Key, data: Bytes, cap: nat, done: nat)
    requires 0 < cap && done <= |data| <= BUFFER_SIZE && cap % 8 == 0
    requires done < |data| ==> done % 8 == 0
    ensures forall q :: q in Pieces(data, cap, done) ==> done <= q.offset % 0x2000 * 8
  {
    PiecesPartition(key, data, cap, done);
    forall q | q in Pieces(data, cap, done)
      ensures done <= q.offset % 0x2000 * 8
    {
      assert FragmentOf(key, q.offset, q.data) in FragmentsOf(key, Pieces(data, cap, done));
    }
  }

  /** No piece is cut twice. */
  lemma {:induction false} PiecesDistinct(key: Key, data: Bytes, cap: nat, done: nat)
    requires 0 < cap && done <= |data| <= BUFFER_SIZE && cap % 8 == 0
    requires done < |data| ==> done % 8 == 0
    ensures forall i, j :: 0 <= i < j < |Pieces(data, cap, done)| ==>
              Pieces(data, cap, done)[i] != Pieces(data, cap, done)[j]
    decreases |data| - done
  {
    if done < |data| {
      var p := FirstPiece(data, cap, done);
      PiecesDistinct(key, data, cap, done + |p.data|);
      LaterPieces(key, data, cap, done + |p.data|);
    }
  }

  /** Every piece once, in order, is a complete load whose last item is new. */
  lemma CargoInOrder(pieces: seq<Piece>, cargo: seq<Option<Piece>>)
    requires |cargo| == |pieces| > 0 && forall k :: 0 <= k < |pieces| ==> cargo[k] == Some(pieces[k])
    requires forall i, j :: 0 <= i < j < |pieces| ==> pieces[i] != pieces[j]
    ensures var last := |pieces| - 1;
            && (forall k :: 0 <= k < |cargo| && cargo[k].Some? ==> cargo[k].value in pieces)
            && (forall p :: p in pieces ==> Some(p) in cargo[..last + 1])
            && cargo[last] !in cargo[..last]
  {
    var last := |pieces| - 1;
    assert cargo[..last + 1] == cargo;
    forall p | p in pieces
      ensures Some(p) in cargo
    {
      var k :| 0 <= k < |pieces| && pieces[k] == p;
      assert cargo[k] == Some(p);
    }
  }

  lemma FragmentsCons(key: Key, p: Piece, rest: seq<Piece>)
    ensures FragmentsOf(key, [p] + rest) == {FragmentOf(key, p.offset, p.data)} + FragmentsOf(key, rest)
  {
    assert p in [p] + rest;
    assert forall q :: q in [p] + rest <==> q == p || q in rest;
  }

  /**
   * For every payload the buffer can hold and every capacity in 8-byte units: over every run in which the pieces
   * of the payload arrive in any order, repeated, and interleaved with other traffic, reassembly returns nothing
   * for their key until the last missing piece arrives, and then returns exactly the payload.
   */
  lemma FragmentRoundTrip(s: State, evs: seq<Event>, key: Key, data: Bytes, cap: nat, last: nat)
    requires 0 < |data| <= 65535 && 0 < cap && cap % 8 == 0
    requires Admitted(s, evs, key) && last < |evs|
    requires forall k :: 0 <= k <= last && Concerns(evs[k], key) ==>
               evs[k].f in FragmentsOf(key, Pieces(data, cap, 0))
    requires Seen(evs, last, key) != FragmentsOf(key, Pieces(data, cap, 0))
    requires Seen(evs, last + 1, key) == FragmentsOf(key, Pieces(data, cap, 0))
    ensures forall n :: 0 <= n < last && Concerns(evs[n], key) ==> Output(s, evs, n) == None
    ensures Output(s, evs, last) == Some(data)
    ensures Lookup(After(s, evs, last + 1).entries, key) == None
  {
    PiecesPartition(key, data, cap, 0);
    ReassemblesPartition(s, evs, key, data, FragmentsOf(key, Pieces(data, cap, 0)), last);
  }

  lemma SameFragment(key: Key, p: Piece, q: Piece)
    requires p.offset < 0x4000 && q.offset < 0x4000
    requires FragmentOf(key, p.offset, p.data) == FragmentOf(key, q.offset, q.data)
    ensures p == q
  {
  }

  lemma {:induction false} FieldsAreSmall(data: Bytes, cap: nat, done: nat)
    requires 0 < cap && done <= |data|
    ensures forall p :: p in Pieces(data, cap, done) ==> p.offset < 0x4000 && |p.data| <= cap
    decreases |data| - done
  {
    if done < |data| {
      FieldsAreSmall(data, cap, done + PieceSize(data, cap, done));
    }
  }

  /**
   * `cargo[k]` is the piece event `k` brings, if it brings one; nothing else speaks for `key`; by event `last`
   * every piece has been brought, and that event brings one for the first time.
   */
  ghost predicate Shipment(evs: seq<Event>, key: Key, pieces: seq<Piece>, cargo: seq<Option<Piece>>, last: nat)
  {
    && last < |evs| == |cargo|
    && (forall k :: 0 <= k < |evs| && cargo[k].Some? ==>
          && cargo[k].value in pieces && evs[k].Arrive?
          && evs[k].f == FragmentOf(key, cargo[k].value.offset, cargo[k].value.data))
    && (forall k :: 0 <= k <= last && Concerns(evs[k], key) ==> cargo[k].Some?)
    && (forall p :: p in pieces ==> Some(p) in cargo[..last + 1])
    && cargo[last].Some? && cargo[last] !in cargo[..last]
  }

  lemma {:induction false} SeenIsCargo(evs: seq<Event>, key: Key, pieces: seq<Piece>, cargo: seq<Option<Piece>>,
                                       last: nat, n: nat)
    requires Shipment(evs, key, pieces, cargo, last) && n <= last + 1
    requires forall p :: p in pieces ==> p.offset < 0x4000
    ensures forall p :: p in pieces ==>
              (FragmentOf(key, p.offset, p.data) in Seen(evs, n, key) <==> Some(p) in cargo[..n])
    ensures Seen(evs, n, key) <= FragmentsOf(key, pieces)
  {
    if n > 0 {
      SeenIsCargo(evs, key, pieces, cargo, last, n - 1);
      assert cargo[..n] == cargo[..n - 1] + [cargo[n - 1]];
      forall p | p in pieces && Concerns(evs[n - 1], key) && evs[n - 1].f == FragmentOf(key, p.offset, p.data)
        ensures cargo[n - 1] == Some(p)
      {
        SameFragment(key, p, cargo[n - 1].value);
      }
    }
  }

  /** The round trip, told by which piece each event brings. */
  lemma ShipmentArrives(s: State, evs: seq<Event>, key: Key, data: Bytes, cap: nat, cargo: seq<Option<Piece>>,
                        last: nat)
    requires 0 < |data| <= 65535 && 0 < cap && cap % 8 == 0
    requires Admitted(s, evs, key) && Shipment(evs, key, Pieces(data, cap, 0), cargo, last)
    ensures forall n :: 0 <= n < last && cargo[n].Some? ==> Output(s, evs, n) == None
    ensures Output(s, evs, last) == Some(data)
  {
    var pieces := Pieces(data, cap, 0);
    var all := FragmentsOf(key, pieces);
    FieldsAreSmall(data, cap, 0);
    SeenIsCargo(evs, key, pieces, cargo, last, last);
    SeenIsCargo(evs, key, pieces, cargo, last, last + 1);
    var p := cargo[last].value;
    assert FragmentOf(key, p.offset, p.data) in all;
    assert all <= Seen(evs, last + 1, key);
    FragmentRoundTrip(s, evs, key, data, cap, last);
  }

  /** `evs` brings these pieces, one after the other. */
  predicate Brings(evs: seq<Event>, key: Key, pieces: seq<Piece>)
  {
    && |evs| == |pieces|
    && forall k :: 0 <= k < |evs| ==>
         evs[k].Arrive? && evs[k].f == FragmentOf(key, pieces[k].offset, pieces[k].data)
  }

  lemma BringsShipment(evs: seq<Event>, key: Key, pieces: seq<Piece>) returns (cargo: seq<Option<Piece>>)
    requires |pieces| > 0 && Brings(evs, key, pieces)
    requires forall i, j :: 0 <= i < j < |pieces| ==> pieces[i] != pieces[j]
    ensures Shipment(evs, key, pieces, cargo, |pieces| - 1)
  {
    cargo := seq(|pieces|, k requires 0 <= k < |pieces| => Some(pieces[k]));
    CargoInOrder(pieces, cargo);
    forall k | 0 <= k < |evs|
      ensures evs[k].Arrive? && evs[k].f == FragmentOf(key, pieces[k].offset, pieces[k].data)
    {
    }
  }

  lemma InOrderShipment(key: Key, data: Bytes, cap: nat, evs: seq<Event>) returns (cargo: seq<Option<Piece>>)
    requires 0 < |data| <= 65535 && 0 < cap && cap % 8 == 0
    requires Brings(evs, key, Pieces(data, cap, 0))
    ensures |evs| > 0 && Shipment(evs, key, Pieces(data, cap, 0), cargo, |evs| - 1)
  {
    PiecesDistinct(key, data, cap, 0);
    cargo := BringsShipment(evs, key, Pieces(data, cap, 0));
  }

  /** In particular, the pieces of an admitted datagram that arrive in order come out with the last one. */
  lemma InOrderRoundTrip(s: State, key: Key, data: Bytes, cap: nat, evs: seq<Event>)
    requires 0 < |data| <= 65535 && 0 < cap && cap % 8 == 0
    requires Admitted(s, evs, key) && Brings(evs, key, Pieces(data, cap, 0))
    ensures |evs| > 0 && Output(s, evs, |evs| - 1) == Some(data)
  {
    var cargo := InOrderShipment(key, data, cap, evs);
    ShipmentArrives(s, evs, key, data, cap, cargo, |evs| - 1);
  }

  /**
   * A whole datagram that reaches reassembly only because a flag above the offset is set comes out as it went
   * in, and the list is left as the patrol leaves it.
   */
  lemma WholeDatagram(s: State, key: Key, offset: uint16, data: Bytes, t: Ticks)
    requires 0 < |data| && offset % 0x4000 == 0
    requires Lookup(Patrol(s, t).entries, key) == None && s.count < MAX_ENTRIES
    ensures Step(s, FragmentOf(key, offset, data), t, true) == (Patrol(s, t), Some(data))
  {
    var f := FragmentOf(key, offset, data);
    assert f.off == 0 && !f.more;
    var p := Patrol(s, t);
    var q := State([Blank(key)] + p.entries, p.count + 1, p.expired);
    var en := Absorb(Blank(key), f, t.stamp);
    assert forall i: nat :: i < |data| ==> Covers(f, i);
    assert Complete(en);
    assert Datagram(en) == data;
    assert q.entries[..0] + q.entries[1..] == p.entries;
  }
}
