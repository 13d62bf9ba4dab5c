/** TCP segments as bytes: what tcp_tx sends, what tcp_rx makes of it, and whether its checksum test lets it pass. */
module TcpWire {
  import opened ByteOrder
  import opened Wrappers
  import opened Checksum
  import opened TcpChecksum
  import opened Tcp

  function Bit(on: bool, value: uint8): (r: uint8)
  {
    if on then value else 0
  }

  function FlagByte(f: Flags): (b: uint8)
  {
    Bit(f.fin, 0x01) + Bit(f.syn, 0x02) + Bit(f.rst, 0x04) + Bit(f.psh, 0x08) + Bit(f.ack, 0x10) + Bit(f.urg, 0x20)
  }

  function FlagsOf(b: uint8): (f: Flags)
  {
    Flags(b / 0x02 % 2 == 1, b / 0x10 % 2 == 1, b / 0x04 % 2 == 1, b % 2 == 1, b / 0x08 % 2 == 1, b / 0x20 % 2 == 1)
  }

  /** The header tcp_tx fills in, its checksum field still zero. */
  function Image(e: Endian, g: Segment): (b: Bytes)
    ensures |b| == HDR_SIZE && b[SUM_AT] == b[SUM_AT + 1] == 0
  {
    var sport, dport, wnd := Store16(e, g.sport), Store16(e, g.dport), Store16(e, Hton16(e, g.wnd));
    var s, a := Store32(e, Hton32(e, g.seqNo)), Store32(e, Hton32(e, g.ackNo));
    [sport[0], sport[1], dport[0], dport[1], s[0], s[1], s[2], s[3], a[0], a[1], a[2], a[3],
     0x50, FlagByte(g.flags), wnd[0], wnd[1], 0, 0, 0, 0]
  }

  /** The bytes that leave the host. */
  function Wire(e: Endian, g: Segment): (b: Bytes)
    ensures |b| == HDR_SIZE
  {
    Sealed(e, g.src, g.dst, Image(e, g))
  }

  /** The value of four bytes in network order. */
  function Number(b0: uint8, b1: uint8, b2: uint8, b3: uint8): nat
  {
    0x100_0000 * (b0 as nat) + 0x1_0000 * (b1 as nat) + 0x100 * (b2 as nat) + b3
  }

  /** The bytes of a bare header: ports as they lie in memory, all else in network order. */
  lemma WireLayout(e: Endian, g: Segment)
    ensures var b, f := Wire(e, g), g.flags;
            && Load16(e, b[0], b[1]) == g.sport && Load16(e, b[2], b[3]) == g.dport
            && Number(b[4], b[5], b[6], b[7]) == g.seqNo && Number(b[8], b[9], b[10], b[11]) == g.ackNo
            && b[12] == 0x50 && b[14] == g.wnd / 0x100 && b[15] == g.wnd % 0x100 && b[18] == b[19] == 0
            && b[13] == (if f.fin then 1 else 0) + (if f.syn then 2 else 0) + (if f.rst then 4 else 0) +
                        (if f.psh then 8 else 0) + (if f.ack then 16 else 0) + (if f.urg then 32 else 0)
  {
    var b := Wire(e, g);
    WireBytes(e, g);
    SameNumber(e, g.seqNo, [b[4], b[5], b[6], b[7]]);
    SameNumber(e, g.ackNo, [b[8], b[9], b[10], b[11]]);
    assert b[0] == Store16(e, g.sport)[0] && b[1] == Store16(e, g.sport)[1];
    assert b[2] == Store16(e, g.dport)[0] && b[3] == Store16(e, g.dport)[1];
    WireOrder(e, g.wnd);
    assert b[14] == Store16(e, Hton16(e, g.wnd))[0] && b[15] == Store16(e, Hton16(e, g.wnd))[1];
  }

  lemma SameNumber(e: Endian, v: uint32, b: Bytes)
    requires |b| == 4 && b == Store32(e, Hton32(e, v))
    ensures Number(b[0], b[1], b[2], b[3]) == v
  {
    WireValue32(e, v);
  }

  /** tcp.c: tcp_tx of a bare header, up to ip_tx. */
  method Transmit(e: Endian, g: Segment) returns (b: Bytes)
    ensures b == Wire(e, g)
  {
    var self, peer := g.src, g.dst;
    var pseudo := HighHalf(e, self) + LowHalf(e, self);
    pseudo := pseudo + HighHalf(e, peer);
    pseudo := pseudo + LowHalf(e, self);
    pseudo := pseudo + Hton16(e, PROTOCOL_TCP) + Hton16(e, HDR_SIZE);
    b := Image(e, g);
    var sum := ComputeCksum16(e, b, pseudo);
    b := Put16(e, b, SUM_AT, sum);
  }

  /** The fields tcp_rx and the event switch read. */
  function Parse(e: Endian, src: IpAddr, dst: IpAddr, b: Bytes): (g: Segment)
    requires |b| >= HDR_SIZE
  {
    Segment(src, dst, Load16(e, b[0], b[1]), Load16(e, b[2], b[3]),
            Hton32(e, Load32(e, b[4], b[5], b[6], b[7])), Hton32(e, Load32(e, b[8], b[9], b[10], b[11])),
            FlagsOf(b[13]), b[12] / 0x10 * 4, |b|, Hton16(e, Load16(e, b[14], b[15])))
  }

  /** The digits of a number below 64 in base 2. */
  lemma Digits(b: nat, d0: nat, d1: nat, d2: nat, d3: nat, d4: nat, d5: nat)
    requires d0 <= 1 && d1 <= 1 && d2 <= 1 && d3 <= 1 && d4 <= 1 && d5 <= 1
    requires b == d0 + 0x02 * d1 + 0x04 * d2 + 0x08 * d3 + 0x10 * d4 + 0x20 * d5
    ensures b % 2 == d0 && b / 0x02 % 2 == d1 && b / 0x04 % 2 == d2
    ensures b / 0x08 % 2 == d3 && b / 0x10 % 2 == d4 && b / 0x20 % 2 == d5
  {
    assert b / 0x02 == d1 + 0x02 * d2 + 0x04 * d3 + 0x08 * d4 + 0x10 * d5;
    assert b / 0x04 == d2 + 0x02 * d3 + 0x04 * d4 + 0x08 * d5;
    assert b / 0x08 == d3 + 0x02 * d4 + 0x04 * d5;
    assert b / 0x10 == d4 + 0x02 * d5;
  }

  lemma FlagsRoundTrip(f: Flags)
    ensures FlagsOf(FlagByte(f)) == f
  {
    Digits(FlagByte(f), Bit(f.fin, 1), Bit(f.syn, 1), Bit(f.rst, 1), Bit(f.psh, 1), Bit(f.ack, 1), Bit(f.urg, 1));
  }

  /** A port lies in memory in network order; hosts of different byte orders load it as different numbers. */
  function Reloaded(sender: Endian, receiver: Endian, port: uint16): (r: uint16)
  {
    Hton16(receiver, Hton16(sender, port))
  }

  lemma PortArrives(sender: Endian, receiver: Endian, port: uint16, b0: uint8, b1: uint8)
    requires [b0, b1] == Store16(sender, port)
    ensures Load16(receiver, b0, b1) == Reloaded(sender, receiver, port)
  {
    Hton16Inverse(sender, port);
    WireValue(sender, receiver, Hton16(sender, port));
    assert b0 == Store16(sender, port)[0] && b1 == Store16(sender, port)[1];
  }

  lemma NumberArrives(sender: Endian, receiver: Endian, v: uint32, b0: uint8, b1: uint8, b2: uint8, b3: uint8)
    requires [b0, b1, b2, b3] == Store32(sender, Hton32(sender, v))
    ensures Hton32(receiver, Load32(receiver, b0, b1, b2, b3)) == v
  {
    WireValue32(sender, v);
    WireValue32(receiver, v);
    assert b0 == Octets(v)[0] && b1 == Octets(v)[1] && b2 == Octets(v)[2] && b3 == Octets(v)[3];
  }

  lemma WireBytes(e: Endian, g: Segment)
    ensures var b := Wire(e, g);
            && [b[0], b[1]] == Store16(e, g.sport) && [b[2], b[3]] == Store16(e, g.dport)
            && [b[4], b[5], b[6], b[7]] == Store32(e, Hton32(e, g.seqNo))
            && [b[8], b[9], b[10], b[11]] == Store32(e, Hton32(e, g.ackNo))
            && b[12] == 0x50 && b[13] == FlagByte(g.flags) && [b[14], b[15]] == Store16(e, Hton16(e, g.wnd))
            && b[18] == b[19] == 0
  {
    var b, i := Wire(e, g), Image(e, g);
    forall k | 0 <= k < 16 || 18 <= k < 20
      ensures b[k] == i[k]
    {
      Elsewhere(e, i, SUM_AT, Cksum16(e, i, TxPseudo(e, g.src, g.dst, |i|)), k);
    }
    ImageBytes(e, g);
    assert [b[0], b[1]] == [i[0], i[1]] && [b[2], b[3]] == [i[2], i[3]] && [b[14], b[15]] == [i[14], i[15]];
    assert [b[4], b[5], b[6], b[7]] == [i[4], i[5], i[6], i[7]];
    assert [b[8], b[9], b[10], b[11]] == [i[8], i[9], i[10], i[11]];
  }

  lemma Elsewhere(e: Endian, data: Bytes, at: nat, v: uint16, k: nat)
    requires at + 2 <= |data| && k < |data| && (k < at || at + 2 <= k)
    ensures Put16(e, data, at, v)[k] == data[k]
  {
  }

  lemma ImageBytes(e: Endian, g: Segment)
    ensures var b := Image(e, g);
            && [b[0], b[1]] == Store16(e, g.sport) && [b[2], b[3]] == Store16(e, g.dport)
            && [b[4], b[5], b[6], b[7]] == Store32(e, Hton32(e, g.seqNo))
            && [b[8], b[9], b[10], b[11]] == Store32(e, Hton32(e, g.ackNo))
            && b[12] == 0x50 && b[13] == FlagByte(g.flags) && [b[14], b[15]] == Store16(e, Hton16(e, g.wnd))
            && b[18] == b[19] == 0
  {
  }

  /** The header of any segment, with options and payload behind it, is read with all its fields. */
  lemma FieldsArrive(sender: Endian, receiver: Endian, g: Segment, b: Bytes)
    requires 20 <= |b| == g.len && g.hlen == 4 * (b[12] / 0x10) && b[13] == FlagByte(g.flags)
    requires [b[0], b[1]] == Store16(sender, g.sport) && [b[2], b[3]] == Store16(sender, g.dport)
    requires [b[4], b[5], b[6], b[7]] == Store32(sender, Hton32(sender, g.seqNo))
    requires [b[8], b[9], b[10], b[11]] == Store32(sender, Hton32(sender, g.ackNo))
    requires [b[14], b[15]] == Store16(sender, Hton16(sender, g.wnd))
    ensures Parse(receiver, g.src, g.dst, b) ==
            g.(sport := Reloaded(sender, receiver, g.sport), dport := Reloaded(sender, receiver, g.dport))
  {
    var r := Parse(receiver, g.src, g.dst, b);
    assert r.sport == Reloaded(sender, receiver, g.sport) by { PortArrives(sender, receiver, g.sport, b[0], b[1]); }
    assert r.dport == Reloaded(sender, receiver, g.dport) by { PortArrives(sender, receiver, g.dport, b[2], b[3]); }
    assert r.seqNo == g.seqNo by { NumberArrives(sender, receiver, g.seqNo, b[4], b[5], b[6], b[7]); }
    assert r.ackNo == g.ackNo by { NumberArrives(sender, receiver, g.ackNo, b[8], b[9], b[10], b[11]); }
    assert r.flags == g.flags by { FlagsRoundTrip(g.flags); }
    assert r.wnd == g.wnd by {
      PortArrives(sender, receiver, Hton16(sender, g.wnd), b[14], b[15]);
      Hton16Inverse(sender, g.wnd);
      Hton16Inverse(receiver, g.wnd);
    }
  }

  /** A bare header arrives on a host of either byte order with all its fields. */
  lemma WireArrives(sender: Endian, receiver: Endian, g: Segment)
    requires g.hlen == g.len == HDR_SIZE
    ensures Parse(receiver, g.src, g.dst, Wire(sender, g)) ==
            g.(sport := Reloaded(sender, receiver, g.sport), dport := Reloaded(sender, receiver, g.dport))
  {
    WireBytes(sender, g);
    FieldsArrive(sender, receiver, g, Wire(sender, g));
  }

  /** tcp.c: tcp_rx on the bytes of a segment. */
  function RxBytes(t: seq<Cb>, e: Endian, iface: Iface, src: IpAddr, dst: IpAddr, b: Bytes)
    : (r: (seq<Cb>, Option<Segment>))
    requires |b| <= 0xffff
    ensures |r.0| == |t|
  {
    if |b| < HDR_SIZE then (t, None) else Rx(t, iface, Parse(e, src, dst, b), Verifies(e, src, dst, b))
  }

  /** The low halves of the two addresses agree, as a sender of this byte order sees them. */
  predicate Agree(e: Endian, self: IpAddr, peer: IpAddr)
  {
    LowHalf(e, self) % 0xffff == LowHalf(e, peer) % 0xffff
  }

  /** A receiver acts on a segment of tcp_tx with its fields if the low address halves agree, and else not at all. */
  lemma SentIsReceived(t: seq<Cb>, sender: Endian, receiver: Endian, iface: Iface, g: Segment)
    requires g.hlen == g.len == HDR_SIZE
    ensures RxBytes(t, receiver, iface, g.src, g.dst, Wire(sender, g)) ==
            Rx(t, iface, g.(sport := Reloaded(sender, receiver, g.sport), dport := Reloaded(sender, receiver, g.dport)),
               Agree(sender, g.src, g.dst))
  {
    WireArrives(sender, receiver, g);
    AcceptedIff(sender, receiver, g.src, g.dst, Image(sender, g));
  }
}
