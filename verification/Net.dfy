/** Protocol registration and frame dispatch (net.c). */
module Net {
  import opened ByteOrder

  /** net.c: struct netdev_proto; handlers are named by numbers. */
  datatype Proto = Proto(kind: uint16, handler: nat)

  /** No two registrations share a type. */
  predicate Distinct(protos: seq<Proto>)
  {
    forall i, j :: 0 <= i < j < |protos| ==> protos[i].kind != protos[j].kind
  }

  /** The handlers a frame type reaches: every registration that matches, in list order. */
  function Called(e: Endian, protos: seq<Proto>, wireType: uint16): (calls: seq<nat>)
  {
    if protos == [] then []
    else (if Hton16(e, protos[0].kind) == wireType then [protos[0].handler] else []) + Called(e, protos[1..], wireType)
  }

  /** One attempted registration. */
  function Registered(protos: seq<Proto>, p: Proto, alloc: bool): seq<Proto>
  {
    if alloc && forall q :: q in protos ==> q.kind != p.kind then [p] + protos else protos
  }

  class Registry {
    var protos: seq<Proto>

    constructor ()
      ensures protos == []
    {
      protos := [];
    }

    /** net.c: netdev_proto_register. */
    method Register(kind: uint16, handler: nat, alloc: bool) returns (ok: bool)
      modifies this
      ensures ok <==> alloc && forall p :: p in old(protos) ==> p.kind != kind
      ensures protos == if ok then [Proto(kind, handler)] + old(protos) else old(protos)
      ensures protos == Registered(old(protos), Proto(kind, handler), alloc)
    {
      var i := 0;
      while i < |protos|
        invariant 0 <= i <= |protos|
        invariant forall j :: 0 <= j < i ==> protos[j].kind != kind
      {
        if protos[i].kind == kind {
          return false;
        }
        i := i + 1;
      }
      if !alloc {
        return false;
      }
      protos := [Proto(kind, handler)] + protos;
      return true;
    }

    /** net.c: netdev_rx_handler, which does not stop at a match. */
    method Dispatch(e: Endian, wireType: uint16) returns (calls: seq<nat>)
      ensures calls == Called(e, protos, wireType)
    {
      calls := [];
      var i := 0;
      while i < |protos|
        invariant 0 <= i <= |protos|
        invariant calls + Called(e, protos[i..], wireType) == Called(e, protos, wireType)
      {
        assert protos[i..][1..] == protos[i + 1..];
        if Hton16(e, protos[i].kind) == wireType {
          calls := calls + [protos[i].handler];
        }
        i := i + 1;
      }
    }
  }

  lemma SameType(e: Endian, p: Proto, kind: uint16)
    ensures Hton16(e, p.kind) == Hton16(e, kind) <==> p.kind == kind
  {
    if Hton16(e, p.kind) == Hton16(e, kind) {
      Hton16Injective(e, p.kind, kind);
    }
  }

  /** On any list, the handlers called are exactly those of the registrations that match, also behind another match. */
  lemma {:induction false} CalledIff(e: Endian, protos: seq<Proto>, kind: uint16, handler: nat)
    ensures handler in Called(e, protos, Hton16(e, kind)) <==> Proto(kind, handler) in protos
  {
    if protos != [] {
      CalledIff(e, protos[1..], kind, handler);
      SameType(e, protos[0], kind);
      assert protos == [protos[0]] + protos[1..];
    }
  }

  /**
   * After any registrations, a frame type reaches exactly the handler registered for it, and none if there is no
   * registration, although dispatch does not stop at a match.
   */
  lemma {:induction false} UniqueDispatch(e: Endian, protos: seq<Proto>, kind: uint16)
    requires Distinct(protos)
    ensures forall p :: p in protos && p.kind == kind ==> Called(e, protos, Hton16(e, kind)) == [p.handler]
    ensures (forall p :: p in protos ==> p.kind != kind) ==> Called(e, protos, Hton16(e, kind)) == []
  {
    if protos != [] {
      UniqueDispatch(e, protos[1..], kind);
      if Hton16(e, protos[0].kind) == Hton16(e, kind) {
        Hton16Injective(e, protos[0].kind, kind);
        assert forall p :: p in protos[1..] ==> p.kind != kind;
      }
    }
  }

  /** The list after any sequence of attempts. */
  function AfterAll(attempts: seq<(Proto, bool)>): seq<Proto>
  {
    if attempts == [] then []
    else
      var n := |attempts| - 1;
      Registered(AfterAll(attempts[..n]), attempts[n].0, attempts[n].1)
  }

  lemma {:induction false} RegistrationsDistinct(attempts: seq<(Proto, bool)>)
    ensures Distinct(AfterAll(attempts))
  {
    if attempts != [] {
      RegistrationsDistinct(attempts[..|attempts| - 1]);
    }
  }
}
