/** ip_rx as a whole: classification, reassembly and the upper-layer handlers. */
module IpInput {
  import opened ByteOrder
  import opened Wrappers
  import opened Checksum
  import opened Reassembly
  import opened Ip
  import R = Reassembler

  /** ip.c: struct ip_protocol; handlers are named by numbers. */
  datatype Protocol = Protocol(kind: uint8, handler: nat)

  /** A call of an upper-layer handler. */
  datatype Delivery = Delivery(handler: nat, payload: Bytes, src: IpAddr, dst: IpAddr)

  /** The first registration of this type takes the payload. */
  function HandUp(protocols: seq<Protocol>, kind: uint8, payload: Bytes, src: IpAddr, dst: IpAddr): Option<Delivery>
  {
    if protocols == [] then None
    else if protocols[0].kind == kind then Some(Delivery(protocols[0].handler, payload, src, dst))
    else HandUp(protocols[1..], kind, payload, src, dst)
  }

  /** The handler of the first registration of a protocol takes the payload; an unregistered one reaches no handler. */
  lemma {:induction false} HandUpIff(protocols: seq<Protocol>, kind: uint8, payload: Bytes, src: IpAddr, dst: IpAddr)
    ensures HandUp(protocols, kind, payload, src, dst) == None <==> forall p :: p in protocols ==> p.kind != kind
    ensures forall i :: 0 <= i < |protocols| && protocols[i].kind == kind &&
                        (forall j :: 0 <= j < i ==> protocols[j].kind != kind) ==>
              HandUp(protocols, kind, payload, src, dst) == Some(Delivery(protocols[i].handler, payload, src, dst))
  {
    if protocols != [] {
      HandUpIff(protocols[1..], kind, payload, src, dst);
      forall i | 0 < i < |protocols| && protocols[i].kind == kind &&
                 forall j :: 0 <= j < i ==> protocols[j].kind != kind
        ensures HandUp(protocols, kind, payload, src, dst) == Some(Delivery(protocols[i].handler, payload, src, dst))
      {
        assert protocols[1..][i - 1] == protocols[i];
        assert forall j :: 0 <= j < i - 1 ==> protocols[1..][j] == protocols[j + 1];
      }
    }
  }

  /** What ip_rx demands of a datagram without checking it. */
  predicate Processable(e: Endian, dgram: Bytes, iface: Option<Iface>)
  {
    Sane(e, dgram) && (Classify(e, dgram, iface).Collect? ==> InBounds(Classify(e, dgram, iface).f))
  }

  function Receive(s: State, protocols: seq<Protocol>, e: Endian, dgram: Bytes, iface: Option<Iface>, t: Ticks,
                   alloc: bool): (State, Option<Delivery>)
    requires Sane(e, dgram)
  {
    Act(s, protocols, Classify(e, dgram, iface), t, alloc)
  }

  function Act(s: State, protocols: seq<Protocol>, v: Verdict, t: Ticks, alloc: bool): (State, Option<Delivery>)
  {
    match v
    case Drop => (s, None)
    case Direct(protocol, payload, src, dst) => (s, HandUp(protocols, protocol, payload, src, dst))
    case Collect(f) =>
      var (s', r) := Step(s, f, t, alloc);
      (s', if r.None? then None else HandUp(protocols, f.key.protocol, r.value, f.key.src, f.key.dst))
  }

  class Input {
    const reassembler: R.Reassembler
    var protocols: seq<Protocol>

    ghost predicate Valid()
      reads reassembler, reassembler.repr
    {
      reassembler.Valid() && this !in reassembler.repr
    }

    constructor ()
      ensures Valid() && reassembler.State() == INITIAL && protocols == []
      ensures fresh(reassembler) && fresh(reassembler.repr)
    {
      reassembler := new R.Reassembler();
      protocols := [];
    }

    /** ip.c: ip_add_protocol. */
    method AddProtocol(kind: uint8, handler: nat) returns (ok: bool)
      modifies this`protocols
      ensures ok <==> forall p :: p in old(protocols) ==> p.kind != kind
      ensures protocols == if ok then [Protocol(kind, handler)] + old(protocols) else old(protocols)
      ensures ok ==> forall payload, src, dst ::
                       HandUp(protocols, kind, payload, src, dst) == Some(Delivery(handler, payload, src, dst))
    {
      var i := 0;
      while i < |protocols|
        invariant 0 <= i <= |protocols|
        invariant forall j :: 0 <= j < i ==> protocols[j].kind != kind
      {
        if protocols[i].kind == kind {
          return false;
        }
        i := i + 1;
      }
      protocols := [Protocol(kind, handler)] + protocols;
      return true;
    }

    /** ip.c:300-358: the checks, in order. */
    method Check(e: Endian, dgram: Bytes, iface: Option<Iface>) returns (v: Verdict)
      requires Sane(e, dgram)
      ensures v == Classify(e, dgram, iface)
    {
      if |dgram| < HDR_SIZE {
        return Drop;
      }
      var h := Unpack(e, dgram);
      if h.vhl / 16 != 4 {
        return Drop;
      }
      var hlen := h.vhl % 16 * 4;
      if |dgram| < hlen || |dgram| < Hton16(e, h.len) {
        return Drop;
      }
      var sum := ComputeCksum16(e, dgram[..hlen], 0);
      if sum != 0 {
        return Drop;
      }
      if h.ttl == 0 {
        return Drop;
      }
      if iface.None? {
        return Drop;
      }
      if h.dst != iface.value.unicast {
        if h.dst != iface.value.broadcast && h.dst != LIMITED_BROADCAST {
          return Drop;
        }
      }
      var payload := dgram[hlen..Hton16(e, h.len)];
      var offset := Hton16(e, h.offset);
      if offset / 0x2000 % 2 == 1 || offset != 0 {
        return Collect(FragmentOf(Key(h.src, h.dst, h.id, h.protocol), offset, payload));
      }
      return Direct(h.protocol, payload, h.src, h.dst);
    }

    /** ip.c: ip_rx. */
    method Rx(e: Endian, dgram: Bytes, iface: Option<Iface>, t: Ticks, alloc: bool) returns (d: Option<Delivery>)
      requires Valid() && Processable(e, dgram, iface)
      modifies reassembler, reassembler.repr
      ensures Valid() && fresh(reassembler.repr - old(reassembler.repr)) && protocols == old(protocols)
      ensures (reassembler.State(), d) ==
              Receive(old(reassembler.State()), protocols, e, dgram, iface, t, alloc)
    {
      var v := Check(e, dgram, iface);
      d := Hand(v, t, alloc);
    }

    /** ip.c:359-377. */
    method Hand(v: Verdict, t: Ticks, alloc: bool) returns (d: Option<Delivery>)
      requires Valid() && (v.Collect? ==> InBounds(v.f))
      modifies reassembler, reassembler.repr
      ensures Valid() && fresh(reassembler.repr - old(reassembler.repr)) && protocols == old(protocols)
      ensures (reassembler.State(), d) == Act(old(reassembler.State()), protocols, v, t, alloc)
    {
      match v {
        case Drop =>
          d := None;
        case Direct(protocol, payload, src, dst) =>
          d := CallHandler(protocol, payload, src, dst);
        case Collect(f) =>
          var r := reassembler.Process(f, t, alloc);
          if r.None? {
            d := None;
          } else {
            d := CallHandler(f.key.protocol, r.value, f.key.src, f.key.dst);
          }
      }
    }

    /** ip.c:369-374. */
    method CallHandler(kind: uint8, payload: Bytes, src: IpAddr, dst: IpAddr) returns (d: Option<Delivery>)
      ensures d == HandUp(protocols, kind, payload, src, dst)
    {
      var i := 0;
      while i < |protocols|
        invariant 0 <= i <= |protocols|
        invariant HandUp(protocols[i..], kind, payload, src, dst) == HandUp(protocols, kind, payload, src, dst)
      {
        assert protocols[i..][1..] == protocols[i + 1..];
        if protocols[i].kind == kind {
          return Some(Delivery(protocols[i].handler, payload, src, dst));
        }
        i := i + 1;
      }
      return None;
    }
  }
}
