/** IPv4 output and input (ip.c: ip_tx, ip_tx_core, ip_rx) at the level of header bytes. */
module Ip {
  import opened ByteOrder
  import opened Wrappers
  import opened Checksum
  import opened Reassembly

  const HDR_SIZE: nat := 20
  const PACKET_MAX: nat := 4096
  const PAYLOAD_MAX: nat := 65515

  /** ip.h: struct ip_hdr; the 16-bit fields as they are loaded from memory. */
  datatype Header = Header(vhl: uint8, tos: uint8, len: uint16, id: uint16, offset: uint16,
                           ttl: uint8, protocol: uint8, sum: uint16, src: IpAddr, dst: IpAddr)

  function Pack(e: Endian, h: Header): (b: Bytes)
    ensures |b| == HDR_SIZE
  {
    var len, id, offset, sum := Store16(e, h.len), Store16(e, h.id), Store16(e, h.offset), Store16(e, h.sum);
    [h.vhl, h.tos, len[0], len[1], id[0], id[1], offset[0], offset[1], h.ttl, h.protocol, sum[0], sum[1],
     h.src[0], h.src[1], h.src[2], h.src[3], h.dst[0], h.dst[1], h.dst[2], h.dst[3]]
  }

  function Unpack(e: Endian, b: Bytes): (h: Header)
    requires |b| >= HDR_SIZE
  {
    Header(b[0], b[1], Load16(e, b[2], b[3]), Load16(e, b[4], b[5]), Load16(e, b[6], b[7]), b[8], b[9],
           Load16(e, b[10], b[11]), b[12..16], b[16..20])
  }

  // ---- output --------------------------------------------------------------------------------

  /** Who sends what to whom. */
  datatype Flow = Flow(src: IpAddr, dst: IpAddr, protocol: uint8, id: uint16)

  function TxHeader(e: Endian, w: Flow, offset: uint16, len: nat): (h: Header)
    requires len <= PACKET_MAX - HDR_SIZE
  {
    Header(0x45, 0, Hton16(e, HDR_SIZE + len), Hton16(e, w.id), Hton16(e, offset), 0xff, w.protocol, 0, w.src, w.dst)
  }

  /** The bytes ip_tx_core hands to the device. */
  function Packet(e: Endian, w: Flow, offset: uint16, data: Bytes): (p: Bytes)
    requires |data| <= PACKET_MAX - HDR_SIZE
    ensures |p| == HDR_SIZE + |data|
  {
    var h := TxHeader(e, w, offset, |data|);
    Pack(e, h.(sum := Cksum16(e, Pack(e, h), 0))) + data
  }

  /** ip.c: ip_tx_core up to the device. */
  method TxCore(e: Endian, w: Flow, offset: uint16, data: Bytes) returns (p: Bytes)
    requires |data| <= PACKET_MAX - HDR_SIZE
    ensures p == Packet(e, w, offset, data)
  {
    var hlen := HDR_SIZE;
    var vhl := 4 * 16 + hlen / 4;
    var h := Header(vhl, 0, Hton16(e, hlen + |data|), Hton16(e, w.id), Hton16(e, offset), 0xff, w.protocol, 0,
                    w.src, w.dst);
    var sum := ComputeCksum16(e, Pack(e, h), 0);
    p := Pack(e, h.(sum := sum)) + data;
  }

  /** `flag | ((done >> 3) & 0x1fff)`; the two parts share no bit. */
  function OffsetField(more: bool, done: nat): (r: uint16)
  {
    (if more then 0x2000 else 0) + done / 8 % 0x2000
  }

  /** Size of the piece that starts at `done`, for a device carrying `cap` payload bytes per packet. */
  function PieceSize(data: Bytes, cap: nat, done: nat): (n: nat)
    requires 0 < cap && done < |data|
    ensures 0 < n && done + n <= |data| && n <= cap
  {
    if |data| - done < cap then |data| - done else cap
  }

  /** One packet's offset field and payload. */
  datatype Piece = Piece(offset: uint16, data: Bytes)

  /** The cut ip_tx makes, from position `done` on. */
  function Pieces(data: Bytes, cap: nat, done: nat): (r: seq<Piece>)
    requires 0 < cap && done <= |data|
    decreases |data| - done
  {
    if done == |data| then []
    else
      var n := PieceSize(data, cap, done);
      [Piece(OffsetField(done + n < |data|, done), data[done..done + n])] + Pieces(data, cap, done + n)
  }

  /**
   * ip.c: the sending loop of ip_tx, as the arguments of its calls of ip_tx_core. Call `refused` is the first
   * that fails, if it is ever made; the loop then stops with an error.
   */
  method Tx(data: Bytes, mtu: uint16, refused: nat) returns (calls: seq<Piece>, ok: bool)
    requires HDR_SIZE < mtu <= PACKET_MAX
    ensures ok <==> refused >= |Pieces(data, mtu - HDR_SIZE, 0)|
    ensures calls == if ok then Pieces(data, mtu - HDR_SIZE, 0) else Pieces(data, mtu - HDR_SIZE, 0)[..refused + 1]
  {
    var cap := mtu - HDR_SIZE;
    var done := 0;
    calls, ok := [], true;
    ghost var all := Pieces(data, cap, 0);
    ghost var rest := all;
    while done < |data| && ok
      invariant 0 <= done <= |data|
      invariant all == calls + rest && rest == Pieces(data, cap, done)
      invariant if ok then |calls| <= refused else |calls| == refused + 1
      decreases |data| - done
    {
      var slen;
      calls, slen, rest := Turn(data, cap, done, calls, all, rest);
      ok := |calls| - 1 != refused;
      done := done + slen;
    }
  }

  /** ip.c:467-471: one turn of that loop calls ip_tx_core for the next piece. */
  method Turn(data: Bytes, cap: nat, done: nat, calls: seq<Piece>, ghost all: seq<Piece>, ghost rest: seq<Piece>)
    returns (next: seq<Piece>, slen: nat, ghost after: seq<Piece>)
    requires 0 < cap && done < |data| && all == calls + rest && rest == Pieces(data, cap, done)
    ensures 0 < slen && done + slen <= |data| && |next| == |calls| + 1
    ensures all == next + after && after == Pieces(data, cap, done + slen)
  {
    slen := PieceSize(data, cap, done);
    var offset := OffsetField(done + slen < |data|, done);
    next := calls + [Piece(offset, data[done..done + slen])];
    after := rest[1..];
  }

  /** ip.c: ip_generate_id; the counter starts at 128 and wraps at 16 bits. */
  class IdSource {
    var id: uint16

    constructor ()
      ensures id == IdAfter(0) == 128
    {
      id := 128;
    }

    method Generate(ghost calls: nat) returns (r: uint16)
      requires id == IdAfter(calls)
      modifies this
      ensures r == old(id) == IdAfter(calls) && id == IdAfter(calls + 1)
    {
      r := id;
      id := (id + 1) % 0x1_0000;
    }
  }

  /** The identifier of the datagram sent after `calls` others. */
  function IdAfter(calls: nat): (r: uint16)
  {
    (128 + calls) % 0x1_0000
  }

  /** Two datagrams share an identifier exactly when their distance is a multiple of 65536. */
  lemma IdsRepeatIff(i: nat, j: nat)
    requires i <= j
    ensures IdAfter(i) == IdAfter(j) <==> (j - i) % 0x1_0000 == 0
  {
    var k := (128 + j) / 0x1_0000 - (128 + i) / 0x1_0000;
    assert j - i == 0x1_0000 * k + (IdAfter(j) as int - IdAfter(i) as int);
  }

  // ---- input ---------------------------------------------------------------------------------

  datatype Iface = Iface(unicast: IpAddr, broadcast: IpAddr)

  const LIMITED_BROADCAST: IpAddr := [0xff, 0xff, 0xff, 0xff]

  predicate Accepts(iface: Iface, dst: IpAddr)
  {
    dst == iface.unicast || dst == iface.broadcast || dst == LIMITED_BROADCAST
  }

  datatype Verdict = Drop
                   | Direct(protocol: uint8, payload: Bytes, src: IpAddr, dst: IpAddr)
                   | Collect(f: Fragment)

  /** The fragment a header with this offset field announces: `(x & 0x1fff) << 3` and `x & 0x2000`. */
  function FragmentOf(key: Key, offset: uint16, payload: Bytes): (f: Fragment)
  {
    Fragment(key, offset % 0x2000 * 8, offset / 0x2000 % 2 == 1, payload)
  }

  function HeaderLength(dgram: Bytes): nat
    requires |dgram| >= HDR_SIZE
  {
    dgram[0] % 16 * 4
  }

  function TotalLength(e: Endian, dgram: Bytes): nat
    requires |dgram| >= HDR_SIZE
  {
    Hton16(e, Unpack(e, dgram).len)
  }

  /** What ip_rx relies on without checking: the total length covers the header. */
  predicate Sane(e: Endian, dgram: Bytes)
  {
    |dgram| >= HDR_SIZE ==> HeaderLength(dgram) <= TotalLength(e, dgram)
  }

  /** ip.c: ip_rx up to the hand-over. Bytes after the total length are ignored. */
  function Classify(e: Endian, dgram: Bytes, iface: Option<Iface>): (v: Verdict)
    requires Sane(e, dgram)
  {
    if |dgram| < HDR_SIZE then Drop
    else
      var h := Unpack(e, dgram);
      var hlen := HeaderLength(dgram);
      var total := TotalLength(e, dgram);
      if h.vhl / 16 != 4 then Drop
      else if |dgram| < hlen || |dgram| < total then Drop
      else if Cksum16(e, dgram[..hlen], 0) != 0 then Drop
      else if h.ttl == 0 then Drop
      else if iface.None? || !Accepts(iface.value, h.dst) then Drop
      else
        var payload := dgram[hlen..total];
        var offset := Hton16(e, h.offset);
        if offset != 0 then Collect(FragmentOf(Key(h.src, h.dst, h.id, h.protocol), offset, payload))
        else Direct(h.protocol, payload, h.src, h.dst)
  }

  // ---- what a host makes of any bytes --------------------------------------------------------

  /** Four times the low half of the first byte. */
  function HeaderSize(dgram: Bytes): nat
    requires |dgram| >= 20
  {
    dgram[0] % 0x10 * 4
  }

  function TotalSize(dgram: Bytes): nat
    requires |dgram| >= 20
  {
    Word(dgram[2], dgram[3])
  }

  /**
   * A datagram a host acts on, byte by byte: version 4, not cut short, all header bytes, options included, summing to
   * all ones as RFC 1071 has it, a time to live, and one of the host's addresses.
   */
  predicate Genuine(dgram: Bytes, iface: Option<Iface>)
  {
    && |dgram| >= 20 && dgram[0] / 0x10 == 4
    && HeaderSize(dgram) <= |dgram| && TotalSize(dgram) <= |dgram|
    && Ones(NetSum(dgram[..HeaderSize(dgram)])) == 0xffff
    && dgram[8] != 0 && iface.Some?
    && dgram[16..20] in {iface.value.unicast, iface.value.broadcast, [255, 255, 255, 255]}
  }

  /** What a genuine datagram is: whole, or a fragment of the flow its header names. */
  function Content(e: Endian, dgram: Bytes): (v: Verdict)
    requires |dgram| >= 20 && HeaderSize(dgram) <= TotalSize(dgram) <= |dgram|
  {
    var src: IpAddr, dst: IpAddr := dgram[12..16], dgram[16..20];
    var protocol, payload, field := dgram[9], dgram[HeaderSize(dgram)..TotalSize(dgram)], Word(dgram[6], dgram[7]);
    if field == 0 then Direct(protocol, payload, src, dst)
    else
      var key := Key(src, dst, Load16(e, dgram[4], dgram[5]), protocol);
      Collect(Fragment(key, field % 0x2000 * 8, field / 0x2000 % 2 == 1, payload))
  }

  lemma HeaderNumbers(e: Endian, dgram: Bytes)
    requires |dgram| >= 20
    ensures HeaderLength(dgram) == HeaderSize(dgram) && TotalLength(e, dgram) == TotalSize(dgram)
    ensures Hton16(e, Unpack(e, dgram).offset) == Word(dgram[6], dgram[7])
  {
    NetworkOrder(e, dgram[2], dgram[3]);
    NetworkOrder(e, dgram[6], dgram[7]);
  }

  /** The header checksum test, on hosts of either byte order and for headers of any length. */
  lemma HeaderTestIff(e: Endian, dgram: Bytes)
    requires |dgram| >= 20 && HeaderSize(dgram) <= |dgram|
    ensures Cksum16(e, dgram[..HeaderSize(dgram)], 0) == 0 <==> Ones(NetSum(dgram[..HeaderSize(dgram)])) == 0xffff
  {
    var h := dgram[..HeaderSize(dgram)];
    VerifiesIff(e, h);
    OnesIsFull(NetSum(h));
  }

  /** ip_rx on any bytes whatever, from a host of any byte order, with any header length and any options. */
  lemma DatagramArrives(e: Endian, dgram: Bytes, iface: Option<Iface>)
    requires Sane(e, dgram)
    ensures |dgram| >= 20 ==> HeaderSize(dgram) <= TotalSize(dgram)
    ensures Classify(e, dgram, iface) == if Genuine(dgram, iface) then Content(e, dgram) else Drop
  {
    if |dgram| >= 20 {
      HeaderNumbers(e, dgram);
      if HeaderSize(dgram) <= |dgram| {
        HeaderTestIff(e, dgram);
      }
    }
  }

  // ---- what arrives is what was sent ---------------------------------------------------------

  lemma PackIsPut(e: Endian, h: Header, sum: uint16)
    requires h.sum == 0
    ensures Pack(e, h.(sum := sum)) == Put16(e, Pack(e, h), 10, sum)
    ensures Pack(e, h)[10] == Pack(e, h)[11] == 0
  {
  }

  /** A header checksum written by one host verifies on every host. */
  lemma HeaderVerifies(sender: Endian, receiver: Endian, h: Header)
    requires h.sum == 0
    ensures Cksum16(receiver, Pack(sender, h.(sum := Cksum16(sender, Pack(sender, h), 0))), 0) == 0
  {
    var b := Pack(sender, h);
    var c := Cksum16(sender, b, 0);
    PackIsPut(sender, h, c);
    WriteThenVerify(sender, b, 10, 0, 0);
    ByteOrderIndependence(Put16(sender, b, 10, c));
    assert ByteSwap16(0) == 0;
  }

  lemma HeaderWords(sender: Endian, receiver: Endian, w: Flow, offset: uint16, len: nat, c: uint16, dgram: Bytes)
    requires len <= PACKET_MAX - HDR_SIZE && |dgram| >= HDR_SIZE
    requires dgram[..HDR_SIZE] == Pack(sender, TxHeader(sender, w, offset, len).(sum := c))
    ensures Unpack(receiver, dgram).id == Hton16(receiver, w.id)
    ensures TotalLength(receiver, dgram) == HDR_SIZE + len
    ensures Hton16(receiver, Unpack(receiver, dgram).offset) == offset
  {
    var b := dgram[..HDR_SIZE];
    assert dgram[2] == b[2] && dgram[3] == b[3] && dgram[4] == b[4] && dgram[5] == b[5];
    assert dgram[6] == b[6] && dgram[7] == b[7];
    WireValue(sender, receiver, HDR_SIZE + len);
    WireValue(sender, receiver, w.id);
    WireValue(sender, receiver, offset);
  }

  lemma HeaderBytes(sender: Endian, receiver: Endian, w: Flow, offset: uint16, len: nat, c: uint16, dgram: Bytes)
    requires len <= PACKET_MAX - HDR_SIZE && |dgram| >= HDR_SIZE
    requires dgram[..HDR_SIZE] == Pack(sender, TxHeader(sender, w, offset, len).(sum := c))
    ensures var h := Unpack(receiver, dgram);
            && HeaderLength(dgram) == HDR_SIZE && h.vhl / 16 == 4 && h.ttl == 0xff && h.protocol == w.protocol
            && h.src == w.src && h.dst == w.dst
  {
    var b := dgram[..HDR_SIZE];
    assert forall k :: 0 <= k < HDR_SIZE ==> dgram[k] == b[k];
    assert dgram[0] == 0x45;
    assert dgram[12..16] == w.src && dgram[16..20] == w.dst;
  }

  lemma HeaderLayout(e: Endian, w: Flow, offset: uint16, len: nat, sum: uint16)
    requires len <= 4076
    ensures var b, total := Pack(e, TxHeader(e, w, offset, len).(sum := sum)), 20 + len;
            && b[..10] == [0x45, 0, total / 0x100, total % 0x100, w.id / 0x100, w.id % 0x100, offset / 0x100,
                           offset % 0x100, 255, w.protocol]
            && b[12..16] == w.src && b[16..20] == w.dst
  {
    WireOrder(e, HDR_SIZE + len);
    WireOrder(e, w.id);
    WireOrder(e, offset);
  }

  lemma HeaderSums(e: Endian, w: Flow, offset: uint16, len: nat)
    requires len <= 4076
    ensures var h := TxHeader(e, w, offset, len);
            Ones(NetSum(Pack(e, h.(sum := Cksum16(e, Pack(e, h), 0))))) == 0xffff
  {
    var h := TxHeader(e, w, offset, len);
    var b := Pack(e, h.(sum := Cksum16(e, Pack(e, h), 0)));
    HeaderVerifies(e, e, h);
    VerifiesIff(e, b);
    OnesIsFull(NetSum(b));
  }

  /**
   * A packet of ip_tx_core, byte by byte: a header of 20 bytes in network order with a checksum that makes it sum to
   * all ones, and the payload.
   */
  lemma PacketLayout(e: Endian, w: Flow, offset: uint16, data: Bytes)
    requires |data| <= 4076
    ensures var p, len := Packet(e, w, offset, data), 20 + |data|;
            && |p| == len && p[20..] == data
            && p[..10] == [0x45, 0, len / 0x100, len % 0x100, w.id / 0x100, w.id % 0x100, offset / 0x100,
                           offset % 0x100, 255, w.protocol]
            && p[12..16] == w.src && p[16..20] == w.dst
            && Ones(NetSum(p[..20])) == 0xffff
  {
    var h := TxHeader(e, w, offset, |data|);
    var sum := Cksum16(e, Pack(e, h), 0);
    HeaderLayout(e, w, offset, |data|, sum);
    HeaderSums(e, w, offset, |data|);
    Front(Pack(e, h.(sum := sum)), data);
  }

  lemma Front(b: Bytes, data: Bytes)
    requires |b| == 20
    ensures var p := b + data;
            && p[..20] == b && p[20..] == data && p[..10] == b[..10] && p[12..16] == b[12..16] && p[16..20] == b[16..20]
  {
  }

  /** What a host makes of a packet of this flow: nothing if it is not for it, else by the offset field alone. */
  function Understood(receiver: Endian, w: Flow, offset: uint16, data: Bytes, iface: Iface): (v: Verdict)
  {
    if !Accepts(iface, w.dst) then Drop
    else if offset == 0 then Direct(w.protocol, data, w.src, w.dst)
    else Collect(FragmentOf(Key(w.src, w.dst, Hton16(receiver, w.id), w.protocol), offset, data))
  }

  /** The receiving half, for any checksum field: the packet is dropped exactly when it does not verify. */
  lemma SealedArrives(sender: Endian, receiver: Endian, w: Flow, offset: uint16, data: Bytes, trail: Bytes,
                      iface: Iface, c: uint16)
    requires |data| <= PACKET_MAX - HDR_SIZE
    ensures var b := Pack(sender, TxHeader(sender, w, offset, |data|).(sum := c));
            var dgram := b + data + trail;
            && Sane(receiver, dgram)
            && Classify(receiver, dgram, Some(iface)) ==
               if Cksum16(receiver, b, 0) != 0 then Drop else Understood(receiver, w, offset, data, iface)
  {
    var b := Pack(sender, TxHeader(sender, w, offset, |data|).(sum := c));
    var dgram := b + data + trail;
    assert dgram[..HDR_SIZE] == b;
    assert dgram[HDR_SIZE..HDR_SIZE + |data|] == data;
    HeaderWords(sender, receiver, w, offset, |data|, c, dgram);
    HeaderBytes(sender, receiver, w, offset, |data|, c, dgram);
  }

  /**
   * Whatever follows a packet in the frame and whatever the byte orders of the two hosts: a host drops it if the
   * destination is not one of its own, and otherwise recovers exactly the payload.
   */
  lemma PacketArrives(sender: Endian, receiver: Endian, w: Flow, offset: uint16, data: Bytes, trail: Bytes,
                      iface: Iface)
    requires |data| <= PACKET_MAX - HDR_SIZE
    ensures var dgram := Packet(sender, w, offset, data) + trail;
            && Sane(receiver, dgram)
            && Classify(receiver, dgram, Some(iface)) == Understood(receiver, w, offset, data, iface)
  {
    var h := TxHeader(sender, w, offset, |data|);
    var c := Cksum16(sender, Pack(sender, h), 0);
    HeaderVerifies(sender, receiver, h);
    SealedArrives(sender, receiver, w, offset, data, trail, iface, c);
  }
}
