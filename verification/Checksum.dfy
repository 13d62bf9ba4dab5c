/** The Internet checksum of util.c (RFC 1071): deferred carries, two folds, complement. */
module Checksum {
  import opened ByteOrder

  /** The 16-bit words at `data` as the host loads them, plus a trailing odd byte. */
  function WordSum(e: Endian, data: Bytes): (s: nat)
  {
    if |data| == 0 then 0
    else if |data| == 1 then data[0]
    else Load16(e, data[0], data[1]) + WordSum(e, data[2..])
  }

  function Fold(sum: uint32): (r: uint32)
  {
    sum % 0x1_0000 + sum / 0x1_0000
  }

  /** What a 32-bit accumulator holds of a sum. */
  function Wrap32(sum: nat): (r: uint32)
    ensures sum < 0x1_0000_0000 ==> r == sum
  {
    sum % 0x1_0000_0000
  }

  /** Ones-complement value of a sum: its residue modulo 65535, with 65535 for non-zero multiples. */
  function Ones(s: nat): (r: uint16)
    ensures s % 0xffff == r % 0xffff
    ensures r == 0 <==> s == 0
  {
    if s == 0 then 0 else 1 + (s - 1) % 0xffff
  }

  /** The checksum: complement of the ones-complement value of the accumulated sum. */
  function Cksum16(e: Endian, data: Bytes, init: uint32): (r: uint16)
  {
    0xffff - Ones(Wrap32(init + WordSum(e, data)))
  }

  lemma OnesIsUnique(s: nat, r: uint16)
    requires s % 0xffff == r % 0xffff && (r == 0 <==> s == 0)
    ensures r == Ones(s)
  {
  }

  /** Two folds suffice for every 32-bit sum. */
  lemma FoldTwice(sum: uint32)
    ensures Fold(Fold(sum)) == Ones(sum)
  {
    var f := Fold(sum);
    assert sum == f + 0xffff * (sum / 0x1_0000);
    FoldKeepsResidue(sum);
    FoldKeepsResidue(f);
    OnesIsUnique(sum, Fold(f));
  }

  lemma FoldKeepsResidue(sum: uint32)
    ensures Fold(sum) % 0xffff == sum % 0xffff
    ensures Fold(sum) == 0 <==> sum == 0
  {
    assert sum == Fold(sum) + 0xffff * (sum / 0x1_0000);
    AddMultiple(Fold(sum), sum / 0x1_0000);
  }

  lemma AddMultiple(a: int, k: int)
    ensures (a + 0xffff * k) % 0xffff == a % 0xffff
  {
  }

  lemma {:induction false} WordSumBound(e: Endian, data: Bytes)
    ensures WordSum(e, data) <= 0xffff * ((|data| + 1) / 2)
  {
    if |data| > 1 {
      WordSumBound(e, data[2..]);
    }
  }

  /** No 16-bit size overflows the 32-bit sum under any initial value below 2^31; the value is then exact. */
  lemma NoOverflow(e: Endian, data: Bytes, init: uint32)
    requires |data| <= 0xffff && init < 0x8000_0000
    ensures init + WordSum(e, data) < 0x1_0000_0000
    ensures Cksum16(e, data, init) == 0xffff - Ones(init + WordSum(e, data))
  {
    WordSumBound(e, data);
  }

  lemma WrapStep(a: nat, b: nat)
    ensures Wrap32(Wrap32(a) + b) == Wrap32(a + b)
  {
  }

  /** Adding the next word moves it from the remaining data into the accumulator. */
  lemma Accumulate(e: Endian, data: Bytes, at: nat, sum: uint32)
    requires at + 2 <= |data|
    ensures Wrap32(Wrap32(sum + Load16(e, data[at], data[at + 1])) + WordSum(e, data[at + 2..])) ==
            Wrap32(sum + WordSum(e, data[at..]))
  {
    assert data[at..][2..] == data[at + 2..];
    WrapStep(sum + Load16(e, data[at], data[at + 1]), WordSum(e, data[at + 2..]));
  }

  /** The two folds and the complement at the end of cksum16. */
  method Complement(total: uint32) returns (r: uint16)
    ensures r == 0xffff - Ones(total)
  {
    FoldTwice(total);
    var sum := Fold(total);
    sum := Fold(sum);
    r := 0xffff - sum;
  }

  /** util.c: cksum16. */
  method ComputeCksum16(e: Endian, data: Bytes, init: uint32) returns (r: uint16)
    requires |data| <= 0xffff
    ensures r == Cksum16(e, data, init)
  {
    ghost var all := Wrap32(init + WordSum(e, data));
    var sum: uint32 := init;
    var at := 0;
    assert data[0..] == data;
    while |data| - at > 1
      invariant 0 <= at <= |data|
      invariant Wrap32(sum + WordSum(e, data[at..])) == all
    {
      Accumulate(e, data, at, sum);
      sum := Wrap32(sum + Load16(e, data[at], data[at + 1]));
      at := at + 2;
    }
    if |data| - at != 0 {
      sum := Wrap32(sum + data[at]);
    }
    assert sum == all;
    r := Complement(sum);
  }

  // ---- writing a checksum and verifying it ---------------------------------------------------

  /** `data` with the 16-bit value `v` stored at the even offset `at`. */
  function Put16(e: Endian, data: Bytes, at: nat, v: uint16): (r: Bytes)
    requires at + 2 <= |data|
    ensures |r| == |data|
  {
    data[..at] + Store16(e, v) + data[at + 2..]
  }

  lemma {:induction false} WordSumPut(e: Endian, data: Bytes, at: nat, v: uint16)
    requires at % 2 == 0 && at + 2 <= |data|
    requires data[at] == data[at + 1] == 0
    ensures WordSum(e, Put16(e, data, at, v)) == WordSum(e, data) + v
  {
    var r := Put16(e, data, at, v);
    if at == 0 {
      assert r[2..] == data[2..];
    } else {
      WordSumPut(e, data[2..], at - 2, v);
      assert r[2..] == Put16(e, data[2..], at - 2, v);
    }
  }

  /** Whether `c`, the complement of the sum under `p`, cancels a sum of `s` under `q`. */
  lemma Cancels(s: nat, p: nat, q: nat)
    ensures 0xffff == Ones(q + s + (0xffff - Ones(p + s))) <==>
            p % 0xffff == q % 0xffff && (q + s == 0 ==> p == 0)
  {
    var o := Ones(p + s);
    var total := q + s + (0xffff - o);
    var k := (p + s - o) / 0xffff;
    assert p + s == o + 0xffff * k by {
      assert (p + s - o) % 0xffff == 0;
    }
    assert total == q - p + 0xffff * (k + 1);
    AddMultiple(q - p, k + 1);
    assert total % 0xffff == (q - p) % 0xffff;
    assert (q - p) % 0xffff == 0 <==> p % 0xffff == q % 0xffff;
  }

  /**
   * A checksum computed under initial sum `p` with its field zeroed, and stored into that field, verifies to
   * zero under initial sum `q` exactly when the two initial sums are congruent modulo 65535. The one further
   * exception is an all-zero message verified under zero after being summed under a non-zero value.
   */
  lemma WriteThenVerify(e: Endian, data: Bytes, at: nat, p: uint32, q: uint32)
    requires |data| <= 0xffff && p < 0x8000_0000 && q < 0x8000_0000
    requires at % 2 == 0 && at + 2 <= |data|
    requires data[at] == data[at + 1] == 0
    ensures Cksum16(e, Put16(e, data, at, Cksum16(e, data, p)), q) == 0 <==>
            p % 0xffff == q % 0xffff && (q + WordSum(e, data) == 0 ==> p == 0)
  {
    var c := Cksum16(e, data, p);
    NoOverflow(e, data, p);
    NoOverflow(e, Put16(e, data, at, c), q);
    WordSumPut(e, data, at, c);
    Cancels(WordSum(e, data), p, q);
  }

  // ---- byte-order independence ---------------------------------------------------------------

  lemma {:induction false} SwappedSum(data: Bytes)
    requires |data| % 2 == 0
    ensures (0x100 * WordSum(Little, data)) % 0xffff == WordSum(Big, data) % 0xffff
    ensures WordSum(Little, data) == 0 <==> WordSum(Big, data) == 0
  {
    if |data| > 0 {
      SwappedSum(data[2..]);
      var l, b := WordSum(Little, data[2..]), WordSum(Big, data[2..]);
      var x: int := Load16(Little, data[0], data[1]);
      var y := Load16(Big, data[0], data[1]);
      CongruentSum(0x100 * l, b, 0x100 * x, y, data[1]);
    }
  }

  lemma CongruentSum(a: int, b: int, c: int, d: int, k: int)
    requires a % 0xffff == b % 0xffff && c == d + 0xffff * k
    ensures (a + c) % 0xffff == (b + d) % 0xffff
  {
  }

  /** Swapping the bytes multiplies by 256, modulo 65535. */
  lemma SwapScales(o: uint16)
    ensures ByteSwap16(o) % 0xffff == (0x100 * o) % 0xffff
    ensures ByteSwap16(o) == 0 <==> o == 0
  {
    var r := ByteSwap16(o);
    assert 0x100 * o == r + 0xffff * (o / 0x100);
    AddMultiple(r, o / 0x100);
  }

  lemma ScaleResidue(s: int, o: int)
    requires s % 0xffff == o % 0xffff
    ensures (0x100 * s) % 0xffff == (0x100 * o) % 0xffff
  {
    var k := s / 0xffff - o / 0xffff;
    assert 0x100 * s == 0x100 * o + 0xffff * (0x100 * k);
    AddMultiple(0x100 * o, 0x100 * k);
  }

  lemma SwapComplement(o: uint16)
    ensures ByteSwap16(0xffff - o) == 0xffff - ByteSwap16(o)
  {
    var hi, lo := o / 0x100, o % 0x100;
    assert 0xffff - o == 0x100 * (0xff - hi) + (0xff - lo);
  }

  lemma SwapOnes(s: nat, t: nat)
    requires (0x100 * s) % 0xffff == t % 0xffff && (s == 0 <==> t == 0)
    ensures ByteSwap16(0xffff - Ones(s)) == 0xffff - Ones(t)
  {
    var o := Ones(s);
    ScaleResidue(s, o);
    SwapScales(o);
    OnesIsUnique(t, ByteSwap16(o));
    SwapComplement(o);
  }

  lemma SwappedStore(v: uint16)
    ensures Store16(Big, ByteSwap16(v)) == Store16(Little, v)
  {
    var r := ByteSwap16(v);
    assert r / 0x100 == v % 0x100 && r % 0x100 == v / 0x100;
  }

  /**
   * Little- and big-endian hosts compute byte-swapped checksums of the same even-length data, so both store
   * the same two bytes.
   */
  lemma ByteOrderIndependence(data: Bytes)
    requires |data| % 2 == 0 && |data| <= 0xffff
    ensures Cksum16(Big, data, 0) == ByteSwap16(Cksum16(Little, data, 0))
    ensures Store16(Big, Cksum16(Big, data, 0)) == Store16(Little, Cksum16(Little, data, 0))
  {
    SwappedSum(data);
    NoOverflow(Little, data, 0);
    NoOverflow(Big, data, 0);
    SwapOnes(WordSum(Little, data), WordSum(Big, data));
    SwappedStore(Cksum16(Little, data, 0));
  }

  // ---- the sum by positions ------------------------------------------------------------------

  /** What a byte counts for: the high half of a word comes second in memory on a little-endian host. */
  function Weight(e: Endian, i: nat): nat
  {
    if e.Little? == (i % 2 == 0) then 1 else 0x100
  }

  /** Every byte with the weight of its position. */
  function PositionSum(e: Endian, data: Bytes): nat
  {
    if data == [] then 0
    else
      var n := |data| - 1;
      PositionSum(e, data[..n]) + Weight(e, n) * data[n]
  }

  /** The sum of RFC 1071: words in network byte order, an odd byte padded with a zero behind it. */
  function NetSum(data: Bytes): nat
  {
    PositionSum(Big, data)
  }

  lemma {:induction false} PositionSumAppend(e: Endian, a: Bytes, b: Bytes)
    requires |a| % 2 == 0
    ensures PositionSum(e, a + b) == PositionSum(e, a) + PositionSum(e, b)
  {
    if b == [] {
      assert a + b == a;
    } else {
      var n := |b| - 1;
      PositionSumAppend(e, a, b[..n]);
      assert (a + b)[..|a| + n] == a + b[..n];
      assert Weight(e, |a| + n) == Weight(e, n);
    }
  }

  lemma TwoPositions(e: Endian, x: uint8, y: uint8)
    ensures PositionSum(e, [x, y]) == Load16(e, x, y) && PositionSum(e, [x]) == Weight(e, 0) * x
  {
    assert [x, y][..1] == [x] && [x][..0] == [];
    assert PositionSum(e, [x]) == PositionSum(e, []) + Weight(e, 0) * x;
  }

  /** The byte an odd length leaves over is added unshifted; on a big-endian host its position counts for more. */
  function Shortfall(e: Endian, data: Bytes): nat
  {
    if e.Big? && |data| % 2 == 1 then 0xff * (data[|data| - 1] as nat) else 0
  }

  /** The loop of cksum16 sums every byte by its position, up to that. */
  lemma {:induction false} WordSumByPosition(e: Endian, data: Bytes)
    ensures WordSum(e, data) + Shortfall(e, data) == PositionSum(e, data)
  {
    if |data| == 1 {
      assert data == [data[0]];
      TwoPositions(e, data[0], 0);
    } else if |data| > 1 {
      WordSumByPosition(e, data[2..]);
      assert data == [data[0], data[1]] + data[2..];
      PositionSumAppend(e, [data[0], data[1]], data[2..]);
      TwoPositions(e, data[0], data[1]);
    }
  }

  lemma PaddedSum(e: Endian, data: Bytes)
    ensures PositionSum(e, data + [0]) == PositionSum(e, data)
  {
    assert (data + [0])[..|data|] == data;
  }

  /** A zero behind data of odd length changes nothing, except on a big-endian host whose last byte is not zero. */
  lemma PaddingLaw(e: Endian, data: Bytes)
    requires |data| % 2 == 1
    ensures WordSum(e, data + [0]) == WordSum(e, data) <==> e.Little? || data[|data| - 1] == 0
  {
    WordSumByPosition(e, data);
    WordSumByPosition(e, data + [0]);
    PaddedSum(e, data);
  }

  lemma {:induction false} SwappedPositions(data: Bytes)
    ensures (0x100 * PositionSum(Little, data)) % 0xffff == PositionSum(Big, data) % 0xffff
    ensures PositionSum(Little, data) == 0 <==> PositionSum(Big, data) == 0
  {
    if data != [] {
      var n := |data| - 1;
      SwappedPositions(data[..n]);
      var x, y := Weight(Little, n) * data[n], Weight(Big, n) * data[n];
      CongruentSum(0x100 * PositionSum(Little, data[..n]), PositionSum(Big, data[..n]), 0x100 * x, y,
                   if n % 2 == 0 then 0 else data[n]);
    }
  }

  lemma SmallMultiple(s: nat, x: uint8)
    ensures (s + 0xff * x) % 0xffff == s % 0xffff <==> x == 0
  {
    var k := (s + 0xff * x) / 0xffff - s / 0xffff;
    if (s + 0xff * x) % 0xffff == s % 0xffff {
      assert 0xff * x == 0xffff * k;
    }
  }

  /**
   * The stored checksum is that of RFC 1071 for all data on a little-endian host, and on a big-endian one exactly
   * when the length is even or the last byte is zero.
   */
  lemma ChecksumIsRfc1071(e: Endian, data: Bytes)
    requires |data| <= 0xffff
    ensures Hton16(e, Cksum16(e, data, 0)) == 0xffff - Ones(NetSum(data)) <==>
            e.Little? || |data| % 2 == 0 || data[|data| - 1] == 0
  {
    NoOverflow(e, data, 0);
    WordSumByPosition(e, data);
    if e.Little? {
      SwappedPositions(data);
      SwapOnes(WordSum(Little, data), NetSum(data));
    } else if |data| % 2 == 1 {
      SmallMultiple(WordSum(Big, data), data[|data| - 1]);
    }
  }

  lemma OnesIsFull(s: nat)
    ensures Ones(s) == 0xffff <==> s > 0 && s % 0xffff == 0
  {
  }

  /** Data of even length verifies exactly if its words in network order sum to a non-zero multiple of 65535. */
  lemma VerifiesIff(e: Endian, data: Bytes)
    requires |data| <= 0xffff && |data| % 2 == 0
    ensures Cksum16(e, data, 0) == 0 <==> NetSum(data) > 0 && NetSum(data) % 0xffff == 0
  {
    ChecksumIsRfc1071(e, data);
    OnesIsFull(NetSum(data));
    SwapScales(Cksum16(e, data, 0));
  }
}
