/** Ethernet framing (ethernet.c): header, padding to the minimum size, and the receive filter. */
module Ethernet {
  import opened ByteOrder
  import opened Wrappers

  const HDR_SIZE: nat := 14
  const FRAME_MAX: nat := 1518
  const PAYLOAD_MIN: nat := 46
  const PAYLOAD_MAX: nat := 1500
  const TYPE_IP: uint16 := 0x0800

  const BROADCAST: MacAddr := [0xff, 0xff, 0xff, 0xff, 0xff, 0xff]

  function Zeros(n: nat): (z: Bytes)
    ensures |z| == n
  {
    seq(n, _ => 0)
  }

  function Padding(plen: nat): (n: nat)
  {
    if plen < PAYLOAD_MIN then PAYLOAD_MIN - plen else 0
  }

  /** The frame on the wire: the type in network order, the payload, zeros up to the minimum. */
  function Frame(dst: MacAddr, src: MacAddr, kind: uint16, payload: Bytes): (f: Bytes)
  {
    dst + src + [kind / 0x100, kind % 0x100] + payload + Zeros(Padding(|payload|))
  }

  lemma FrameLayout(dst: MacAddr, src: MacAddr, kind: uint16, payload: Bytes)
    ensures var f, plen := Frame(dst, src, kind, payload), |payload|;
            && |f| == 14 + (if plen < 46 then 46 else plen)
            && f[..6] == dst && f[6..12] == src && f[12] == kind / 0x100 && f[13] == kind % 0x100
            && f[14..14 + plen] == payload && forall k :: 14 + plen <= k < |f| ==> f[k] == 0
  {
    var f, plen := Frame(dst, src, kind, payload), |payload|;
    assert f[14 + plen..] == Zeros(Padding(plen));
    assert forall k :: 14 + plen <= k < |f| ==> f[k] == f[14 + plen..][k - 14 - plen];
  }

  /** memcpy to the end of what has been filled in so far; the rest of the buffer stays zero. */
  method Append(buffer: array<uint8>, at: nat, data: Bytes)
    requires at + |data| <= buffer.Length && buffer[at..] == Zeros(buffer.Length - at)
    modifies buffer
    ensures buffer[..at + |data|] == old(buffer[..at]) + data
    ensures buffer[at + |data|..] == Zeros(buffer.Length - at - |data|)
  {
    for k := 0 to |data|
      invariant buffer[..at + k] == old(buffer[..at]) + data[..k]
      invariant forall i :: at + k <= i < buffer.Length ==> buffer[i] == 0
    {
      buffer[at + k] := data[k];
      assert buffer[..at + k + 1] == buffer[..at + k] + [data[k]];
    }
    assert data[..|data|] == data;
  }

  /** ethernet.c: ethernet_tx up to the raw device; a refusal stands for the error return. */
  method Tx(e: Endian, addr: MacAddr, kind: uint16, payload: Option<Bytes>, dst: Option<MacAddr>)
    returns (r: Option<Bytes>)
    ensures r.Some? <==> payload.Some? && |payload.value| <= 1500 && dst.Some?
    ensures r.Some? ==> r.value == Frame(dst.value, addr, kind, payload.value)
    ensures r.Some? ==>
              var f, plen := r.value, |payload.value|;
              && |f| == 14 + (if plen < 46 then 46 else plen)
              && f[..6] == dst.value && f[6..12] == addr && f[12] == kind / 0x100 && f[13] == kind % 0x100
              && f[14..14 + plen] == payload.value && forall k :: 14 + plen <= k < |f| ==> f[k] == 0
  {
    if payload.None? || |payload.value| > PAYLOAD_MAX || dst.None? {
      return None;
    }
    var frame := new uint8[FRAME_MAX](_ => 0);
    var plen := |payload.value|;
    assert frame[0..] == Zeros(FRAME_MAX) && frame[..0] == [];
    Append(frame, 0, dst.value);
    Append(frame, 6, addr);
    assert frame[..12] == dst.value + addr;
    WireOrder(e, kind);
    Append(frame, 12, Store16(e, Hton16(e, kind)));
    assert frame[..HDR_SIZE] == dst.value + addr + [kind / 0x100, kind % 0x100];
    Append(frame, HDR_SIZE, payload.value);
    var flen := HDR_SIZE + if plen < PAYLOAD_MIN then PAYLOAD_MIN else plen;
    assert frame[..flen] == frame[..HDR_SIZE + plen] + frame[HDR_SIZE + plen..][..Padding(plen)];
    assert frame[HDR_SIZE + plen..][..Padding(plen)] == Zeros(Padding(plen));
    r := Some(frame[..flen]);
    FrameLayout(dst.value, addr, kind, payload.value);
  }

  /** A frame that passed the filter: the type field as loaded from memory, and everything behind the header. */
  datatype Received = Received(wireType: uint16, packet: Bytes)

  /** ethernet.c: ethernet_rx. */
  function Rx(e: Endian, addr: MacAddr, frame: Bytes): (r: Option<Received>)
  {
    if |frame| < HDR_SIZE then None
    else if addr != frame[..6] && BROADCAST != frame[..6] then None
    else Some(Received(Load16(e, frame[12], frame[13]), frame[HDR_SIZE..]))
  }

  /** Any bytes are passed on exactly if they hold a header that addresses this host or every host. */
  lemma RxIff(e: Endian, addr: MacAddr, frame: Bytes)
    ensures Rx(e, addr, frame).Some? <==>
            |frame| >= 14 && (frame[..6] == addr || frame[..6] == [255, 255, 255, 255, 255, 255])
    ensures Rx(e, addr, frame).Some? ==>
              var r := Rx(e, addr, frame).value;
              r.packet == frame[14..] && Hton16(e, r.wireType) == Word(frame[12], frame[13])
  {
    if |frame| >= 14 {
      NetworkOrder(e, frame[12], frame[13]);
    }
  }

  /** A frame reaches exactly the addressed host or, if broadcast, every host; its padding arrives with it. */
  lemma FrameArrives(e: Endian, addr: MacAddr, dst: MacAddr, src: MacAddr, kind: uint16, payload: Bytes)
    ensures Rx(e, addr, Frame(dst, src, kind, payload)) ==
            if dst == addr || dst == [255, 255, 255, 255, 255, 255]
            then Some(Received(Hton16(e, kind), payload + Zeros(Padding(|payload|))))
            else None
  {
    var f := Frame(dst, src, kind, payload);
    assert f[..6] == dst;
    assert f[12] == kind / 0x100 && f[13] == kind % 0x100;
    assert f[HDR_SIZE..] == payload + Zeros(Padding(|payload|));
    WireValue(e, e, kind);
    WireOrder(e, kind);
  }
}
