/** The TCP checksum across hosts: the pseudo-header tcp_tx sums is not the one tcp_rx sums. */
module TcpChecksum {
  import opened ByteOrder
  import opened Checksum

  const PROTOCOL_TCP: uint16 := 6
  const SUM_AT: nat := 16

  /** tcp.c:272-277: the low half of the sender's address stands where the peer's belongs. */
  function TxPseudo(e: Endian, self: IpAddr, peer: IpAddr, len: uint16): (p: uint32)
  {
    HighHalf(e, self) + LowHalf(e, self) + HighHalf(e, peer) + LowHalf(e, self) +
    Hton16(e, PROTOCOL_TCP) + Hton16(e, len)
  }

  /** tcp.c:311-316. */
  function RxPseudo(e: Endian, src: IpAddr, dst: IpAddr, len: uint16): (p: uint32)
  {
    HighHalf(e, src) + LowHalf(e, src) + HighHalf(e, dst) + LowHalf(e, dst) +
    Hton16(e, PROTOCOL_TCP) + Hton16(e, len)
  }

  /** The segment as tcp_tx sends it: the checksum stored into its zeroed field. */
  function Sealed(e: Endian, self: IpAddr, peer: IpAddr, segment: Bytes): (r: Bytes)
    requires SUM_AT + 2 <= |segment| <= 0xffff
  {
    Put16(e, segment, SUM_AT, Cksum16(e, segment, TxPseudo(e, self, peer, |segment|)))
  }

  /** The checksum test of tcp_rx on a segment from `src` to `dst`. */
  predicate Verifies(e: Endian, src: IpAddr, dst: IpAddr, segment: Bytes)
    requires |segment| <= 0xffff
  {
    Cksum16(e, segment, RxPseudo(e, src, dst, |segment|)) == 0
  }

  /** What tcp_tx sends on a host of one byte order passes the test of tcp_rx on a host of another. */
  predicate Accepted(sender: Endian, receiver: Endian, self: IpAddr, peer: IpAddr, segment: Bytes)
    requires SUM_AT + 2 <= |segment| <= 0xffff
  {
    Verifies(receiver, self, peer, Sealed(sender, self, peer, segment))
  }

  lemma SameResidue(a: int, b: int, c: int)
    ensures (a + b) % 0xffff == (a + c) % 0xffff <==> b % 0xffff == c % 0xffff
  {
    var k, m := (a + b) / 0xffff - (a + c) / 0xffff, b / 0xffff - c / 0xffff;
    if (a + b) % 0xffff == (a + c) % 0xffff {
      assert b == c + 0xffff * k;
      AddMultiple(c, k);
    }
    if b % 0xffff == c % 0xffff {
      assert a + b == a + c + 0xffff * m;
      AddMultiple(a + c, m);
    }
  }

  lemma AcceptedInOrder(e: Endian, self: IpAddr, peer: IpAddr, segment: Bytes)
    requires SUM_AT + 2 <= |segment| <= 0xffff && segment[SUM_AT] == segment[SUM_AT + 1] == 0
    ensures Accepted(e, e, self, peer, segment) <==> LowHalf(e, self) % 0xffff == LowHalf(e, peer) % 0xffff
  {
    var p, q := TxPseudo(e, self, peer, |segment|), RxPseudo(e, self, peer, |segment|);
    WriteThenVerify(e, segment, SUM_AT, p, q);
    assert q > 0 by {
      assert Hton16(Little, 6) == 0x600 && Hton16(Big, 6) == 6;
    }
    SameResidue(p - LowHalf(e, self), LowHalf(e, self), LowHalf(e, peer));
  }

  lemma SwappedPseudo(src: IpAddr, dst: IpAddr, len: uint16)
    ensures var s, t := RxPseudo(Little, src, dst, len), RxPseudo(Big, src, dst, len);
            (0x100 * s) % 0xffff == t % 0xffff && s > 0 && t > 0
  {
    var s, t := RxPseudo(Little, src, dst, len), RxPseudo(Big, src, dst, len);
    var k := src[1] + src[3] + dst[1] + dst[3] + 6 + len % 0x100;
    assert Hton16(Little, 6) == 0x600 && Hton16(Big, 6) == 6;
    assert 0x100 * s == t + 0xffff * k;
    AddMultiple(t, k);
  }

  lemma AddResidues(a: int, b: int, c: int, d: int)
    requires a % 0xffff == b % 0xffff && c % 0xffff == d % 0xffff
    ensures (a + c) % 0xffff == (b + d) % 0xffff
  {
    var k := c / 0xffff - d / 0xffff;
    assert c == d + 0xffff * k;
    CongruentSum(a, b, c, d, k);
  }

  /** The test does not depend on the byte order of the host that makes it. */
  lemma VerifiesAnywhere(src: IpAddr, dst: IpAddr, segment: Bytes)
    requires |segment| <= 0xffff && |segment| % 2 == 0
    ensures Verifies(Little, src, dst, segment) <==> Verifies(Big, src, dst, segment)
  {
    var p, q := RxPseudo(Little, src, dst, |segment|), RxPseudo(Big, src, dst, |segment|);
    var s, t := WordSum(Little, segment), WordSum(Big, segment);
    SwappedPseudo(src, dst, |segment|);
    SwappedSum(segment);
    AddResidues(0x100 * p, q, 0x100 * s, t);
    SwapOnes(p + s, q + t);
    NoOverflow(Little, segment, p);
    NoOverflow(Big, segment, q);
    SwapScales(0xffff - Ones(p + s));
  }

  /**
   * A segment sent by tcp_tx passes the checksum test of tcp_rx on the peer exactly when the low halves of the two
   * addresses, as the sender loads them, agree modulo 65535; whatever the byte order of the peer, if the length is
   * even. On a little-endian sender those are the first two octets, on a big-endian one the last two.
   */
  lemma AcceptedIff(sender: Endian, receiver: Endian, self: IpAddr, peer: IpAddr, segment: Bytes)
    requires SUM_AT + 2 <= |segment| <= 0xffff && segment[SUM_AT] == segment[SUM_AT + 1] == 0
    requires |segment| % 2 == 0 || sender == receiver
    ensures Accepted(sender, receiver, self, peer, segment) <==>
            LowHalf(sender, self) % 0xffff == LowHalf(sender, peer) % 0xffff
  {
    AcceptedInOrder(sender, self, peer, segment);
    if sender != receiver {
      VerifiesAnywhere(self, peer, Sealed(sender, self, peer, segment));
    }
  }

  /** From a little-endian host, every segment of even length to a host on its /16 network passes. */
  lemma SameNetworkAccepted(receiver: Endian, self: IpAddr, peer: IpAddr, segment: Bytes)
    requires SUM_AT + 2 <= |segment| <= 0xffff && segment[SUM_AT] == segment[SUM_AT + 1] == 0
    requires |segment| % 2 == 0 || receiver == Little
    requires self[0] == peer[0] && self[1] == peer[1]
    ensures Accepted(Little, receiver, self, peer, segment)
  {
    AcceptedIff(Little, receiver, self, peer, segment);
  }

  /** From a little-endian 192.168.33.11 to 10.0.0.1 none does. */
  lemma OtherNetworkRefused(receiver: Endian, segment: Bytes)
    requires SUM_AT + 2 <= |segment| <= 0xffff && segment[SUM_AT] == segment[SUM_AT + 1] == 0
    requires |segment| % 2 == 0 || receiver == Little
    ensures !Accepted(Little, receiver, [192, 168, 33, 11], [10, 0, 0, 1], segment)
  {
    AcceptedIff(Little, receiver, [192, 168, 33, 11], [10, 0, 0, 1], segment);
    assert LowHalf(Little, [192, 168, 33, 11]) == 192 + 256 * 168 && LowHalf(Little, [10, 0, 0, 1]) == 10;
  }

  // ---- the checksum of RFC 793 ---------------------------------------------------------------

  /** Section 3.1 of RFC 793: source, destination, zero, protocol 6 and length, in network order. */
  function PseudoHeader(src: IpAddr, dst: IpAddr, len: uint16): Bytes
  {
    src + dst + [0, 6, len / 0x100, len % 0x100]
  }

  /** What RFC 793 sums. */
  function RfcSum(src: IpAddr, dst: IpAddr, segment: Bytes): nat
    requires |segment| <= 0xffff
  {
    NetSum(PseudoHeader(src, dst, |segment|) + segment)
  }

  lemma FourPositions(b: Bytes)
    requires |b| == 4
    ensures NetSum(b) == 0x100 * (b[0] as nat) + b[1] + 0x100 * (b[2] as nat) + b[3]
  {
    assert b == [b[0], b[1]] + [b[2], b[3]];
    PositionSumAppend(Big, [b[0], b[1]], [b[2], b[3]]);
    TwoPositions(Big, b[0], b[1]);
    TwoPositions(Big, b[2], b[3]);
  }

  lemma RfcSumIs(src: IpAddr, dst: IpAddr, segment: Bytes)
    requires |segment| <= 0xffff
    ensures RfcSum(src, dst, segment) == RxPseudo(Big, src, dst, |segment|) + NetSum(segment)
  {
    var len: uint16 := |segment|;
    var tail := [0, 6, len / 0x100, len % 0x100];
    PositionSumAppend(Big, PseudoHeader(src, dst, len), segment);
    PositionSumAppend(Big, src + dst, tail);
    PositionSumAppend(Big, src, dst);
    FourPositions(src);
    FourPositions(dst);
    FourPositions(tail);
  }

  /** A host's sum, turned to network order modulo 65535. */
  function Scaled(e: Endian, x: int): int
  {
    if e.Little? then 0x100 * x else x
  }

  lemma ScaleIsOneToOne(e: Endian, x: int)
    ensures Scaled(e, x) % 0xffff == 0 <==> x % 0xffff == 0
  {
    if e.Little? {
      if x % 0xffff == 0 {
        ScaleResidue(x, 0);
      }
      if (0x100 * x) % 0xffff == 0 {
        ScaleResidue(0x100 * x, 0);
        AddMultiple(x, x);
        assert 0x100 * (0x100 * x) == x + 0xffff * x;
      }
    }
  }

  lemma WordsToNet(e: Endian, data: Bytes)
    ensures e.Big? ==> WordSum(e, data) + Shortfall(e, data) == NetSum(data)
    ensures e.Little? ==> Shortfall(e, data) == 0 && (0x100 * WordSum(e, data)) % 0xffff == NetSum(data) % 0xffff
  {
    WordSumByPosition(e, data);
    SwappedPositions(data);
  }

  lemma PseudoToNet(e: Endian, src: IpAddr, dst: IpAddr, len: uint16)
    ensures e.Little? ==> (0x100 * RxPseudo(e, src, dst, len)) % 0xffff == RxPseudo(Big, src, dst, len) % 0xffff
    ensures e.Big? ==> RxPseudo(e, src, dst, len) == RxPseudo(Big, src, dst, len)
  {
    SwappedPseudo(src, dst, len);
  }

  /** The sum of tcp_rx against that of RFC 793. */
  lemma HostSumIsRfc793(e: Endian, src: IpAddr, dst: IpAddr, segment: Bytes)
    requires |segment| <= 0xffff
    ensures (Scaled(e, RxPseudo(e, src, dst, |segment|) + WordSum(e, segment)) + Shortfall(e, segment)) % 0xffff ==
            RfcSum(src, dst, segment) % 0xffff
  {
    RfcSumIs(src, dst, segment);
    WordsToNet(e, segment);
    PseudoToNet(e, src, dst, |segment|);
    ScaledSum(e, RxPseudo(e, src, dst, |segment|), RxPseudo(Big, src, dst, |segment|), WordSum(e, segment),
              NetSum(segment), Shortfall(e, segment), RfcSum(src, dst, segment));
  }

  lemma ScaledSum(e: Endian, p: nat, q: nat, s: nat, t: nat, short: nat, total: nat)
    requires total == q + t
    requires if e.Big? then p == q && s + short == t
             else short == 0 && (0x100 * p) % 0xffff == q % 0xffff && (0x100 * s) % 0xffff == t % 0xffff
    ensures (Scaled(e, p + s) + short) % 0xffff == total % 0xffff
  {
    if e.Little? {
      AddResidues(0x100 * p, q, 0x100 * s, t);
    }
  }

  lemma Subtract(a: int, b: int, c: int)
    requires (a + c) % 0xffff == b % 0xffff
    ensures a % 0xffff == 0 <==> (b - c) % 0xffff == 0
  {
    var k := (a + c) / 0xffff - b / 0xffff;
    assert a == b - c + 0xffff * k;
    AddMultiple(b - c, k);
  }

  /**
   * A segment passes the test of tcp_rx exactly if its sum according to RFC 793 is a multiple of 65535; but a
   * big-endian host misses 255 times the last byte of a segment of odd length.
   */
  lemma VerifiesIsRfc793(e: Endian, src: IpAddr, dst: IpAddr, segment: Bytes)
    requires |segment| <= 0xffff
    ensures Verifies(e, src, dst, segment) <==> (RfcSum(src, dst, segment) - Shortfall(e, segment)) % 0xffff == 0
  {
    var sum := RxPseudo(e, src, dst, |segment|) + WordSum(e, segment);
    NoOverflow(e, segment, RxPseudo(e, src, dst, |segment|));
    SwappedPseudo(src, dst, |segment|);
    OnesIsFull(sum);
    ScaleIsOneToOne(e, sum);
    HostSumIsRfc793(e, src, dst, segment);
    Subtract(Scaled(e, sum), RfcSum(src, dst, segment), Shortfall(e, segment));
  }

  /** With the checksum stored, the sender's own sum is a multiple of 65535. */
  lemma SealedSum(e: Endian, self: IpAddr, peer: IpAddr, segment: Bytes)
    requires SUM_AT + 2 <= |segment| <= 0xffff && segment[SUM_AT] == segment[SUM_AT + 1] == 0
    ensures var sealed := Sealed(e, self, peer, segment);
            && (TxPseudo(e, self, peer, |segment|) + WordSum(e, sealed)) % 0xffff == 0
            && forall r :: Shortfall(r, sealed) == Shortfall(r, segment)
  {
    var p := TxPseudo(e, self, peer, |segment|);
    var x := p + WordSum(e, segment);
    NoOverflow(e, segment, p);
    WordSumPut(e, segment, SUM_AT, Cksum16(e, segment, p));
    AddResidues(x, Ones(x), 0xffff - Ones(x), 0xffff - Ones(x));
  }

  lemma RfcSumOfSealed(e: Endian, self: IpAddr, peer: IpAddr, segment: Bytes)
    requires SUM_AT + 2 <= |segment| <= 0xffff && segment[SUM_AT] == segment[SUM_AT + 1] == 0
    ensures RfcSum(self, peer, Sealed(e, self, peer, segment)) % 0xffff ==
            (Scaled(e, LowHalf(e, peer) - LowHalf(e, self)) + Shortfall(e, segment)) % 0xffff
  {
    var sealed, d := Sealed(e, self, peer, segment), LowHalf(e, peer) - LowHalf(e, self);
    var x := TxPseudo(e, self, peer, |segment|) + WordSum(e, sealed);
    SealedSum(e, self, peer, segment);
    HostSumIsRfc793(e, self, peer, sealed);
    ScaleIsOneToOne(e, x);
    assert RxPseudo(e, self, peer, |segment|) + WordSum(e, sealed) == x + d;
    assert Scaled(e, x + d) == Scaled(e, x) + Scaled(e, d);
    AddResidues(Scaled(e, x), 0, Scaled(e, d) + Shortfall(e, segment), Scaled(e, d) + Shortfall(e, segment));
  }

  lemma SubtractBoth(a: int, b: int, c: int)
    requires a % 0xffff == b % 0xffff
    ensures (a - c) % 0xffff == (b - c) % 0xffff
  {
    var k := a / 0xffff - b / 0xffff;
    assert a - c == b - c + 0xffff * k;
    AddMultiple(b - c, k);
  }

  /**
   * For segments of any length between hosts of any byte orders: what tcp_tx sends is accepted exactly if the
   * difference of the low address halves, in network order, is made up for by the odd byte the two hosts treat
   * differently.
   */
  lemma AcceptedAlways(sender: Endian, receiver: Endian, self: IpAddr, peer: IpAddr, segment: Bytes)
    requires SUM_AT + 2 <= |segment| <= 0xffff && segment[SUM_AT] == segment[SUM_AT + 1] == 0
    ensures Accepted(sender, receiver, self, peer, segment) <==>
            (Scaled(sender, LowHalf(sender, peer) - LowHalf(sender, self)) +
             Shortfall(sender, segment) - Shortfall(receiver, segment)) % 0xffff == 0
  {
    var sealed := Sealed(sender, self, peer, segment);
    var d := Scaled(sender, LowHalf(sender, peer) - LowHalf(sender, self)) + Shortfall(sender, segment);
    VerifiesIsRfc793(receiver, self, peer, sealed);
    SealedSum(sender, self, peer, segment);
    RfcSumOfSealed(sender, self, peer, segment);
    SubtractBoth(RfcSum(self, peer, sealed), d, Shortfall(receiver, segment));
  }
}
