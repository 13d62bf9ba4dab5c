/** The layers together: ip_tx, ethernet_tx, ethernet_rx, dispatch and ip_rx, between hosts of any byte orders. */
module Delivery {
  import opened ByteOrder
  import opened Wrappers
  import opened Reassembly
  import opened Ip
  import opened IpInput
  import opened RoundTrip
  import Ethernet
  import Net

  /** The number under which ip_rx is registered with the device layer. */
  const IP_RX: nat := 0

  /** Payload bytes in one packet over Ethernet: the MTU of 1500 less the IP header. */
  const CAPACITY: nat := 1480

  datatype Host = Host(e: Endian, mac: MacAddr, iface: Iface, protos: seq<Net.Proto>, protocols: seq<Protocol>)

  /** ip_init has run, and no type or protocol is registered twice. */
  predicate Configured(host: Host)
  {
    && Net.Distinct(host.protos) && Net.Proto(Ethernet.TYPE_IP, IP_RX) in host.protos
    && forall i, j :: 0 <= i < j < |host.protocols| ==> host.protocols[i].kind != host.protocols[j].kind
  }

  /** The handlers dispatch calls, in order; those other than ip_rx do not concern IP. */
  function OnCalls(host: Host, s: State, calls: seq<nat>, packet: Bytes, t: Ticks, alloc: bool)
    : (r: (State, seq<Delivery>))
    requires Sane(host.e, packet)
    decreases calls
  {
    if calls == [] then (s, [])
    else if calls[0] != IP_RX then OnCalls(host, s, calls[1..], packet, t, alloc)
    else
      var (s1, d) := Receive(s, host.protocols, host.e, packet, Some(host.iface), t, alloc);
      var (s2, ds) := OnCalls(host, s1, calls[1..], packet, t, alloc);
      (s2, (if d.Some? then [d.value] else []) + ds)
  }

  predicate FrameSane(host: Host, frame: Bytes)
  {
    var r := Ethernet.Rx(host.e, host.mac, frame);
    r.Some? ==> Sane(host.e, r.value.packet)
  }

  /** Everything a received frame does to the IP layer. */
  function OnFrame(host: Host, s: State, frame: Bytes, t: Ticks, alloc: bool): (r: (State, seq<Delivery>))
    requires FrameSane(host, frame)
  {
    match Ethernet.Rx(host.e, host.mac, frame)
    case None => (s, [])
    case Some(r) => OnCalls(host, s, Net.Called(host.e, host.protos, r.wireType), r.packet, t, alloc)
  }

  /** What the frame means to ip_rx. */
  function Meaning(host: Host, frame: Bytes): (v: Verdict)
    requires FrameSane(host, frame)
  {
    match Ethernet.Rx(host.e, host.mac, frame)
    case None => Drop
    case Some(r) =>
      if IP_RX in Net.Called(host.e, host.protos, r.wireType) then Classify(host.e, r.packet, Some(host.iface))
      else Drop
  }

  /** A frame with the clock readings and the allocation outcome of the call it causes. */
  datatype Arrival = Arrival(frame: Bytes, ticks: Ticks, alloc: bool)

  function EventOf(host: Host, a: Arrival): Event
    requires FrameSane(host, a.frame)
  {
    var v := Meaning(host, a.frame);
    if v.Collect? then Arrive(v.f, a.ticks, a.alloc) else Quiet
  }

  lemma {:induction false} CalledOnce(e: Endian, protos: seq<Net.Proto>, wireType: uint16)
    requires Net.Distinct(protos)
    ensures |Net.Called(e, protos, wireType)| <= 1
  {
    var kind := Hton16(e, wireType);
    Hton16Inverse(e, wireType);
    Net.UniqueDispatch(e, protos, kind);
    if p :| p in protos && p.kind == kind {
    }
  }

  lemma OneCall(host: Host, s: State, call: nat, packet: Bytes, t: Ticks, alloc: bool)
    requires Sane(host.e, packet)
    ensures OnCalls(host, s, [call], packet, t, alloc) ==
            if call != IP_RX then (s, [])
            else
              var (s', d) := Receive(s, host.protocols, host.e, packet, Some(host.iface), t, alloc);
              (s', if d.Some? then [d.value] else [])
  {
    assert [call][1..] == [];
    if call == IP_RX {
      var d := Receive(s, host.protocols, host.e, packet, Some(host.iface), t, alloc).1;
      var ds := if d.Some? then [d.value] else [];
      assert ds + [] == ds;
    }
  }

  /** On frames, the IP layer moves as it does on what they mean. */
  lemma FrameIsEvent(host: Host, s: State, a: Arrival)
    requires FrameSane(host, a.frame) && Configured(host)
    ensures OnFrame(host, s, a.frame, a.ticks, a.alloc) ==
            var (s', d) := Act(s, host.protocols, Meaning(host, a.frame), a.ticks, a.alloc);
            (s', if d.Some? then [d.value] else [])
    ensures OnFrame(host, s, a.frame, a.ticks, a.alloc).0 == Next(s, EventOf(host, a)).0
  {
    var r := Ethernet.Rx(host.e, host.mac, a.frame);
    if r.Some? {
      CalledOnce(host.e, host.protos, r.value.wireType);
      var calls := Net.Called(host.e, host.protos, r.value.wireType);
      if calls != [] {
        assert calls == [calls[0]];
        OneCall(host, s, calls[0], r.value.packet, a.ticks, a.alloc);
      }
    }
  }

  /** The frame that carries one piece of a datagram to the hardware address `to`. */
  function Carrier(sender: Endian, from: MacAddr, to: MacAddr, w: Flow, p: Piece): (f: Bytes)
    requires |p.data| <= CAPACITY
  {
    Ethernet.Frame(to, from, Ethernet.TYPE_IP, Packet(sender, w, p.offset, p.data))
  }

  /** The key under which the host collects the fragments of a flow. */
  function KeyOf(host: Host, w: Flow): Key
  {
    Key(w.src, w.dst, Hton16(host.e, w.id), w.protocol)
  }

  /** Its header names both hardware addresses and the type of IP, 0x0800, and the packet follows. */
  lemma CarrierLayout(sender: Endian, from: MacAddr, to: MacAddr, w: Flow, p: Piece)
    requires |p.data| <= CAPACITY
    ensures var f := Carrier(sender, from, to, w, p);
            && 60 <= |f| <= 1514 && f[..6] == to && f[6..12] == from && f[12] == 0x08 && f[13] == 0x00
            && f[14..34 + |p.data|] == Packet(sender, w, p.offset, p.data)
  {
    Ethernet.FrameLayout(to, from, Ethernet.TYPE_IP, Packet(sender, w, p.offset, p.data));
  }

  /** The hardware addresses this host listens to. */
  predicate Hears(host: Host, to: MacAddr)
  {
    to == host.mac || to == Ethernet.BROADCAST
  }

  /** A carrier arrives at an addressed host as its piece: padding gone, header understood, any byte order. */
  lemma CarrierArrives(sender: Endian, from: MacAddr, to: MacAddr, host: Host, w: Flow, p: Piece, frame: Bytes)
    requires |p.data| <= CAPACITY && Accepts(host.iface, w.dst) && Configured(host) && Hears(host, to)
    requires frame == Carrier(sender, from, to, w, p)
    ensures FrameSane(host, frame)
    ensures Meaning(host, frame) ==
            if p.offset == 0 then Direct(w.protocol, p.data, w.src, w.dst)
            else Collect(FragmentOf(KeyOf(host, w), p.offset, p.data))
  {
    var packet := Packet(sender, w, p.offset, p.data);
    Ethernet.FrameArrives(host.e, host.mac, to, from, Ethernet.TYPE_IP, packet);
    PacketArrives(sender, host.e, w, p.offset, p.data, Ethernet.Zeros(Ethernet.Padding(|packet|)), host.iface);
    Net.UniqueDispatch(host.e, host.protos, Ethernet.TYPE_IP);
  }

  lemma {:induction false} HandUpRegistered(protocols: seq<Protocol>, p: Protocol, payload: Bytes, src: IpAddr,
                                            dst: IpAddr)
    requires p in protocols
    requires forall i, j :: 0 <= i < j < |protocols| ==> protocols[i].kind != protocols[j].kind
    ensures HandUp(protocols, p.kind, payload, src, dst) == Some(Delivery(p.handler, payload, src, dst))
  {
    if protocols[0] != p {
      HandUpRegistered(protocols[1..], p, payload, src, dst);
    }
  }

  lemma DirectDelivery(host: Host, s: State, frame: Bytes, t: Ticks, alloc: bool, handler: nat)
    requires Configured(host) && FrameSane(host, frame) && Meaning(host, frame).Direct?
    requires Protocol(Meaning(host, frame).protocol, handler) in host.protocols
    ensures var v := Meaning(host, frame);
            OnFrame(host, s, frame, t, alloc) == (s, [Delivery(handler, v.payload, v.src, v.dst)])
  {
    var v := Meaning(host, frame);
    FrameIsEvent(host, s, Arrival(frame, t, alloc));
    HandUpRegistered(host.protocols, Protocol(v.protocol, handler), v.payload, v.src, v.dst);
  }

  /** A payload that fits one packet is sent as one, with offset field 0. */
  lemma SinglePiece(data: Bytes)
    requires 0 < |data| <= CAPACITY
    ensures CAPACITY == Ethernet.PAYLOAD_MAX - Ip.HDR_SIZE == 1480
    ensures Pieces(data, CAPACITY, 0) == [Piece(0, data)]
  {
    assert Pieces(data, CAPACITY, |data|) == [];
    assert data[0..|data|] == data;
  }

  /** A payload that needs several packets has no piece with offset field 0. */
  lemma {:induction false} SeveralPieces(data: Bytes, done: nat)
    requires done <= |data| <= PAYLOAD_MAX && (done == 0 ==> |data| > CAPACITY)
    requires done < |data| ==> done % CAPACITY == 0
    ensures forall p :: p in Pieces(data, CAPACITY, done) ==> 0 < p.offset < 0x4000 && |p.data| <= CAPACITY
    decreases |data| - done
  {
    if done < |data| {
      var n := PieceSize(data, CAPACITY, done);
      SeveralPieces(data, done + n);
      assert done > 0 ==> done >= CAPACITY;
      assert 0 < OffsetField(done + n < |data|, done);
    }
  }

  /**
   * Cross-layer delivery: a payload of 1 to 1480 bytes sent by ip_tx over Ethernet reaches the handler registered
   * for its protocol on an addressed host, exactly once, with exactly its bytes; reassembly is not disturbed.
   */
  lemma CrossLayerDelivery(sender: Endian, from: MacAddr, to: MacAddr, host: Host, w: Flow, data: Bytes, handler: nat,
                           s: State, t: Ticks, alloc: bool, frame: Bytes)
    requires 0 < |data| <= CAPACITY && Accepts(host.iface, w.dst) && Configured(host) && Hears(host, to)
    requires Protocol(w.protocol, handler) in host.protocols
    requires frame == Carrier(sender, from, to, w, Piece(0, data))
    ensures FrameSane(host, frame)
    ensures OnFrame(host, s, frame, t, alloc) == (s, [Delivery(handler, data, w.src, w.dst)])
  {
    CarrierArrives(sender, from, to, host, w, Piece(0, data), frame);
    DirectDelivery(host, s, frame, t, alloc, handler);
  }

  /**
   * A whole datagram that ip_rx sends into reassembly only because a flag above the offset is set is delivered as
   * on the direct path, and the list is left as the patrol leaves it.
   */
  lemma FlaggedAgrees(s: State, protocols: seq<Protocol>, key: Key, offset: uint16, data: Bytes, t: Ticks)
    requires 0 < |data| && offset != 0 && offset % 0x4000 == 0
    requires Lookup(Patrol(s, t).entries, key) == None && s.count < MAX_ENTRIES
    ensures Act(s, protocols, Collect(FragmentOf(key, offset, data)), t, true) ==
            (Patrol(s, t), Act(s, protocols, Direct(key.protocol, data, key.src, key.dst), t, true).1)
  {
    WholeDatagram(s, key, offset, data, t);
  }

  // ---- many frames ---------------------------------------------------------------------------

  predicate AllSane(host: Host, arrivals: seq<Arrival>)
  {
    forall a :: a in arrivals ==> FrameSane(host, a.frame)
  }

  /** `evs` is what the frames mean, one event each. */
  predicate Means(host: Host, arrivals: seq<Arrival>, evs: seq<Event>)
    requires AllSane(host, arrivals)
  {
    && |evs| == |arrivals|
    && forall k {:trigger EventOf(host, arrivals[k])} :: 0 <= k < |evs| ==> evs[k] == EventOf(host, arrivals[k])
  }

  /** The reassembler's state after the first `n` frames. */
  function StateAfter(host: Host, s: State, arrivals: seq<Arrival>, n: nat): State
    requires AllSane(host, arrivals) && n <= |arrivals|
  {
    if n == 0 then s
    else
      var a := arrivals[n - 1];
      OnFrame(host, StateAfter(host, s, arrivals, n - 1), a.frame, a.ticks, a.alloc).0
  }

  /** The handler calls that frame `n` causes. */
  function DeliveredBy(host: Host, s: State, arrivals: seq<Arrival>, n: nat): seq<Delivery>
    requires AllSane(host, arrivals) && n < |arrivals|
  {
    var a := arrivals[n];
    OnFrame(host, StateAfter(host, s, arrivals, n), a.frame, a.ticks, a.alloc).1
  }

  lemma {:induction false} FramesAreEvents(host: Host, s: State, arrivals: seq<Arrival>, evs: seq<Event>, n: nat)
    requires AllSane(host, arrivals) && Means(host, arrivals, evs) && n <= |arrivals| && Configured(host)
    ensures StateAfter(host, s, arrivals, n) == After(s, evs, n)
  {
    if n > 0 {
      FramesAreEvents(host, s, arrivals, evs, n - 1);
      FrameIsEvent(host, After(s, evs, n - 1), arrivals[n - 1]);
    }
  }

  lemma CollectDelivery(host: Host, s: State, a: Arrival, handler: nat)
    requires Configured(host) && FrameSane(host, a.frame) && Meaning(host, a.frame).Collect?
    requires Protocol(Meaning(host, a.frame).f.key.protocol, handler) in host.protocols
    ensures var key := Meaning(host, a.frame).f.key;
            OnFrame(host, s, a.frame, a.ticks, a.alloc).1 ==
            match Next(s, EventOf(host, a)).1
            case None => []
            case Some(data) => [Delivery(handler, data, key.src, key.dst)]
  {
    FrameIsEvent(host, s, a);
    var key := Meaning(host, a.frame).f.key;
    var r := Next(s, EventOf(host, a)).1;
    if r.Some? {
      HandUpRegistered(host.protocols, Protocol(key.protocol, handler), r.value, key.src, key.dst);
    }
  }

  /** The frame brings this piece to the host, by its own hardware address or by broadcast. */
  predicate Carries(sender: Endian, from: MacAddr, host: Host, w: Flow, frame: Bytes, p: Piece)
  {
    && |p.data| <= CAPACITY
    && (frame == Carrier(sender, from, host.mac, w, p) || frame == Carrier(sender, from, Ethernet.BROADCAST, w, p))
  }

  /** `cargo[k]` is the piece that frame `k` carries, if it carries one. */
  predicate Loaded(sender: Endian, from: MacAddr, host: Host, w: Flow, arrivals: seq<Arrival>,
                   cargo: seq<Option<Piece>>)
  {
    && |cargo| == |arrivals|
    && forall k :: 0 <= k < |cargo| && cargo[k].Some? ==>
         Carries(sender, from, host, w, arrivals[k].frame, cargo[k].value)
  }

  /** A frame carrying a piece is, to the reassembler, the arrival of that fragment. */
  lemma CargoEvent(sender: Endian, from: MacAddr, host: Host, w: Flow, arrivals: seq<Arrival>,
                   cargo: seq<Option<Piece>>, k: nat)
    requires Loaded(sender, from, host, w, arrivals, cargo) && k < |cargo|
    requires cargo[k].Some? && cargo[k].value.offset != 0
    requires Accepts(host.iface, w.dst) && Configured(host)
    ensures FrameSane(host, arrivals[k].frame)
    ensures Meaning(host, arrivals[k].frame) ==
            Collect(FragmentOf(KeyOf(host, w), cargo[k].value.offset, cargo[k].value.data))
  {
    var frame := arrivals[k].frame;
    var to := if frame == Carrier(sender, from, host.mac, w, cargo[k].value) then host.mac else Ethernet.BROADCAST;
    CarrierArrives(sender, from, to, host, w, cargo[k].value, frame);
  }

  /** Over a run of frames: what frame `n` delivers is what its event hands up. */
  lemma DeliveredIsOutput(host: Host, s: State, arrivals: seq<Arrival>, evs: seq<Event>, n: nat, handler: nat)
    requires Configured(host) && AllSane(host, arrivals) && Means(host, arrivals, evs) && n < |arrivals|
    requires evs[n].Arrive? && Protocol(evs[n].f.key.protocol, handler) in host.protocols
    ensures DeliveredBy(host, s, arrivals, n) ==
            match Output(s, evs, n)
            case None => []
            case Some(data) => [Delivery(handler, data, evs[n].f.key.src, evs[n].f.key.dst)]
  {
    assert evs[n] == EventOf(host, arrivals[n]);
    FramesAreEvents(host, s, arrivals, evs, n);
    CollectDelivery(host, After(s, evs, n), arrivals[n], handler);
  }

  lemma ShipmentDelivered(host: Host, s: State, arrivals: seq<Arrival>, evs: seq<Event>, key: Key, data: Bytes,
                          cap: nat, handler: nat, cargo: seq<Option<Piece>>, last: nat, n: nat)
    requires Configured(host) && AllSane(host, arrivals) && Means(host, arrivals, evs)
    requires Protocol(key.protocol, handler) in host.protocols && 0 < |data| <= PAYLOAD_MAX
    requires 0 < cap && cap % 8 == 0
    requires Admitted(s, evs, key) && Shipment(evs, key, Pieces(data, cap, 0), cargo, last)
    requires n <= last && cargo[n].Some?
    ensures DeliveredBy(host, s, arrivals, n) ==
            if n < last then [] else [Delivery(handler, data, key.src, key.dst)]
  {
    ShipmentArrives(s, evs, key, data, cap, cargo, last);
    DeliveredIsOutput(host, s, arrivals, evs, n, handler);
  }

  /** Loaded frames are a shipment of the datagram's pieces. */
  lemma LoadIsShipment(sender: Endian, from: MacAddr, host: Host, w: Flow, data: Bytes, arrivals: seq<Arrival>,
                       evs: seq<Event>, cargo: seq<Option<Piece>>)
    requires CAPACITY < |data| <= 65515 && Accepts(host.iface, w.dst) && Configured(host)
    requires AllSane(host, arrivals) && Means(host, arrivals, evs)
    requires Loaded(sender, from, host, w, arrivals, cargo)
    requires forall k :: 0 <= k < |cargo| && cargo[k].Some? ==> cargo[k].value in Pieces(data, CAPACITY, 0)
    ensures forall k :: 0 <= k < |cargo| && cargo[k].Some? ==>
              evs[k].Arrive? && evs[k].f == FragmentOf(KeyOf(host, w), cargo[k].value.offset, cargo[k].value.data)
  {
    SeveralPieces(data, 0);
    forall k | 0 <= k < |cargo| && cargo[k].Some?
      ensures evs[k].Arrive? && evs[k].f == FragmentOf(KeyOf(host, w), cargo[k].value.offset, cargo[k].value.data)
    {
      CargoEvent(sender, from, host, w, arrivals, cargo, k);
      assert evs[k] == EventOf(host, arrivals[k]);
    }
  }

  /**
   * End to end: a payload too large for one packet, sent by ip_tx over Ethernet. Whatever order its frames arrive
   * in, however often, and whatever other frames come between, no frame of the datagram causes a delivery until
   * the last missing one, and that one causes exactly one call of the handler, with exactly the payload.
   */
  lemma EndToEnd(sender: Endian, from: MacAddr, host: Host, w: Flow, data: Bytes, handler: nat, s: State,
                 arrivals: seq<Arrival>, evs: seq<Event>, cargo: seq<Option<Piece>>, last: nat)
    requires CAPACITY < |data| <= 65515 && Accepts(host.iface, w.dst) && Configured(host)
    requires Protocol(w.protocol, handler) in host.protocols
    requires AllSane(host, arrivals) && Means(host, arrivals, evs) && Admitted(s, evs, KeyOf(host, w))
    requires Loaded(sender, from, host, w, arrivals, cargo) && last < |cargo|
    requires forall k :: 0 <= k < |cargo| && cargo[k].Some? ==> cargo[k].value in Pieces(data, CAPACITY, 0)
    requires forall k :: 0 <= k <= last && Concerns(evs[k], KeyOf(host, w)) ==> cargo[k].Some?
    requires forall p :: p in Pieces(data, CAPACITY, 0) ==> Some(p) in cargo[..last + 1]
    requires cargo[last].Some? && cargo[last] !in cargo[..last]
    ensures forall n :: 0 <= n < last && cargo[n].Some? ==> DeliveredBy(host, s, arrivals, n) == []
    ensures DeliveredBy(host, s, arrivals, last) == [Delivery(handler, data, w.src, w.dst)]
  {
    var key := KeyOf(host, w);
    LoadIsShipment(sender, from, host, w, data, arrivals, evs, cargo);
    forall n | 0 <= n <= last && cargo[n].Some?
      ensures DeliveredBy(host, s, arrivals, n) ==
              if n < last then [] else [Delivery(handler, data, key.src, key.dst)]
    {
      ShipmentDelivered(host, s, arrivals, evs, key, data, CAPACITY, handler, cargo, last, n);
    }
  }
}
