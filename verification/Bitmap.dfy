/** Coverage bitmaps: the word-wise bit runs of util.c against plain sets of bit positions. */
module Bitmap {

  function Fill(b: bool): (w: seq<bool>)
    ensures |w| == 32 && forall k :: 0 <= k < 32 ==> w[k] == b
  {
    seq(32, _ => b)
  }

  /** A `uint32_t` as its 32 bits, least significant first. */
  type Word = w: seq<bool> | |w| == 32 witness Fill(false)

  const ZERO: Word := Fill(false)
  const ONES: Word := Fill(true)

  function Or(a: Word, b: Word): (r: Word)
  {
    seq(32, k requires 0 <= k < 32 => a[k] || b[k])
  }

  function And(a: Word, b: Word): (r: Word)
  {
    seq(32, k requires 0 <= k < 32 => a[k] && b[k])
  }

  function Xor(a: Word, b: Word): (r: Word)
  {
    seq(32, k requires 0 <= k < 32 => a[k] != b[k])
  }

  /** Shift towards the least significant bit; C leaves shifts by 32 or more undefined. */
  function ShiftRight(a: Word, n: nat): (r: Word)
    requires n < 32
  {
    a[n..] + ZERO[..n]
  }

  function ShiftLeft(a: Word, n: nat): (r: Word)
    requires n < 32
  {
    ZERO[..n] + a[..32 - n]
  }

  /** Bit `i` of an array of words. */
  predicate BitAt(mask: seq<Word>, i: nat)
    requires i < 32 * |mask|
  {
    mask[i / 32][i % 32]
  }

  /** Every bit of the interval `[offset, offset + len)` is set. */
  predicate AllSet(mask: seq<Word>, offset: nat, len: nat)
    requires offset + len <= 32 * |mask|
  {
    forall i: nat :: offset <= i < offset + len ==> BitAt(mask, i)
  }

  /** The mask word both operations build: `n` ones shifted up by `start`; at the tail `start` is 0. */
  function Run(start: nat, n: nat): (r: Word)
    requires 1 <= n && start + n <= 32
  {
    ShiftLeft(ShiftRight(ONES, 32 - n), start)
  }

  lemma RunBits(start: nat, n: nat)
    requires 1 <= n && start + n <= 32
    ensures forall k :: 0 <= k < 32 ==> (Run(start, n)[k] <==> start <= k < start + n)
  {
  }

  /** `(w & run) ^ run` is zero exactly when `w` has all the bits of `run`. */
  lemma MissingBits(w: Word, run: Word)
    ensures Xor(And(w, run), run) == ZERO <==> forall k :: 0 <= k < 32 && run[k] ==> w[k]
  {
    var x := Xor(And(w, run), run);
    if forall k :: 0 <= k < 32 && run[k] ==> w[k] {
      assert forall k :: 0 <= k < 32 ==> !x[k];
    } else {
      var k :| 0 <= k < 32 && run[k] && !w[k];
      assert x[k] && !ZERO[k];
    }
  }

  /** The test both ends of a check use: no bit of the run is missing. */
  lemma RunPresent(w: Word, start: nat, n: nat)
    requires 1 <= n && start + n <= 32
    ensures Xor(And(w, Run(start, n)), Run(start, n)) == ZERO <==> forall k :: start <= k < start + n ==> w[k]
  {
    RunBits(start, n);
    MissingBits(w, Run(start, n));
  }

  lemma TailIsRun(n: nat)
    requires 1 <= n < 32
    ensures ShiftRight(ONES, 32 - n) == Run(0, n)
  {
  }

  /** util.c: maskset. Sets the interval and nothing else. */
  method MaskSet(mask: array<Word>, offset: nat, len: nat)
    requires 0 < len && offset + len <= 32 * mask.Length
    modifies mask
    ensures forall i: nat :: i < 32 * mask.Length ==>
              (BitAt(mask[..], i) <==> old(BitAt(mask[..], i)) || offset <= i < offset + len)
  {
    var so := offset / 32;
    var sb := offset % 32;
    var bl := if len > 32 - sb then 32 - sb else len;
    RunBits(sb, bl);
    mask[so] := Or(mask[so], Run(sb, bl));
    var rest := len - bl;
    var idx := so;
    while idx < so + rest / 32
      invariant so <= idx <= so + rest / 32
      invariant forall w :: so < w <= idx ==> mask[w] == ONES
      invariant forall w :: 0 <= w < mask.Length && w != so && !(so < w <= idx) ==> mask[w] == old(mask[w])
      invariant forall k :: 0 <= k < 32 ==> (mask[so][k] <==> old(mask[so])[k] || sb <= k < sb + bl)
    {
      mask[idx + 1] := ONES;
      idx := idx + 1;
    }
    rest := rest - 32 * (idx - so);
    if rest != 0 {
      RunBits(0, rest);
      TailIsRun(rest);
      mask[idx + 1] := Or(mask[idx + 1], ShiftRight(ONES, 32 - rest));
    }
    assert offset + len == 32 * so + sb + bl + 32 * (idx - so) + rest;
  }

  lemma FullWord(w: Word)
    ensures Xor(w, ONES) == ZERO <==> w == ONES
  {
    MissingBits(w, ONES);
    assert And(w, ONES) == w;
  }

  /** One clear bit inside the interval refutes it. */
  lemma HoleAt(mask: seq<Word>, offset: nat, len: nat, w: nat, k: nat)
    requires w < |mask| && k < 32 && !mask[w][k]
    requires offset <= 32 * w + k < offset + len <= 32 * |mask|
    ensures !AllSet(mask, offset, len)
  {
    assert !BitAt(mask, 32 * w + k);
  }

  /** The three pieces of the scan together cover the interval. */
  lemma PiecesCover(mask: seq<Word>, so: nat, sb: nat, bl: nat, last: nat, rest: nat)
    requires so < last && sb + bl <= 32 && rest < 32
    requires last > so + 1 || rest > 0 ==> sb + bl == 32
    requires (if rest > 0 then last else last - 1) < |mask|
    requires forall k :: sb <= k < sb + bl ==> mask[so][k]
    requires forall w :: so < w < last ==> mask[w] == ONES
    requires rest > 0 ==> forall k :: 0 <= k < rest ==> mask[last][k]
    ensures AllSet(mask, 32 * so + sb, bl + 32 * (last - so - 1) + rest)
  {
    forall i: nat | 32 * so + sb <= i < 32 * (last - 1) + sb + bl + rest
      ensures BitAt(mask, i)
    {
      assert so <= i / 32 <= last;
      assert i / 32 == last ==> i % 32 < rest;
    }
  }

  /** `(w & run) ^ run`: some bit of the run is missing. */
  method LacksRun(w: Word, start: nat, n: nat) returns (lacks: bool)
    requires 1 <= n && start + n <= 32
    ensures lacks <==> exists k :: start <= k < start + n && !w[k]
  {
    RunPresent(w, start, n);
    lacks := Xor(And(w, Run(start, n)), Run(start, n)) != ZERO;
  }

  /** `w ^ 0xffffffff`: some bit of the word is missing. */
  method LacksBit(w: Word) returns (lacks: bool)
    ensures lacks <==> w != ONES
    ensures lacks <==> exists k :: 0 <= k < 32 && !w[k]
  {
    FullWord(w);
    lacks := Xor(w, ONES) != ZERO;
  }

  /** util.c: maskchk. Answers whether the whole interval is set. */
  method MaskCheck(mask: array<Word>, offset: nat, len: nat) returns (full: bool)
    requires 0 < len && offset + len <= 32 * mask.Length
    ensures full <==> AllSet(mask[..], offset, len)
  {
    var so := offset / 32;
    var sb := offset % 32;
    var bl := if len > 32 - sb then 32 - sb else len;
    var lacks := LacksRun(mask[so], sb, bl);
    if lacks {
      ghost var k :| sb <= k < sb + bl && !mask[so][k];
      HoleAt(mask[..], offset, len, so, k);
      return false;
    }
    var rest := len - bl;
    var idx := so;
    while idx < so + rest / 32
      invariant so <= idx <= so + rest / 32
      invariant forall w :: so < w <= idx ==> mask[w] == ONES
    {
      lacks := LacksBit(mask[idx + 1]);
      if lacks {
        ghost var k :| 0 <= k < 32 && !mask[idx + 1][k];
        HoleAt(mask[..], offset, len, idx + 1, k);
        return false;
      }
      idx := idx + 1;
    }
    rest := rest - 32 * (idx - so);
    if rest != 0 {
      lacks := LacksRun(mask[idx + 1], 0, rest);
      if lacks {
        ghost var k :| 0 <= k < rest && !mask[idx + 1][k];
        HoleAt(mask[..], offset, len, idx + 1, k);
        return false;
      }
    }
    PiecesCover(mask[..], so, sb, bl, idx + 1, rest);
    return true;
  }

  /** util.c: maskclr. */
  method MaskClear(mask: array<Word>)
    modifies mask
    ensures forall i: nat :: i < 32 * mask.Length ==> !BitAt(mask[..], i)
  {
    for w := 0 to mask.Length
      invariant forall v :: 0 <= v < w ==> mask[v] == ZERO
    {
      mask[w] := ZERO;
    }
  }
}
