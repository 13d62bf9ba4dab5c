/** The control-block table of tcp.c in place. */
module TcpStack {
  import opened ByteOrder
  import opened Wrappers
  import opened Tcp
  import opened Checksum
  import opened TcpChecksum
  import opened TcpWire

  const TABLE_SIZE: nat := 128

  class Stack {
    const table: array<Cb>

    ghost predicate Valid()
    {
      table.Length == TABLE_SIZE
    }

    constructor ()
      ensures Valid() && fresh(table) && table.Length == 128 && table[..] == seq(TABLE_SIZE, _ => ZERO)
    {
      table := new Cb[TABLE_SIZE](_ => ZERO);
    }

    /** tcp.c: tcp_api_open; the result is the slot, or -1. */
    method ApiOpen() returns (soc: int)
      requires Valid()
      modifies table
      ensures table[..] == Open(old(table[..]))
      ensures soc == (if FirstUnused(old(table[..])) < TABLE_SIZE then FirstUnused(old(table[..])) else -1)
    {
      var i := 0;
      while i < table.Length
        invariant 0 <= i <= table.Length
        invariant table[..] == old(table[..])
        invariant forall j :: 0 <= j < i ==> table[j].used
      {
        if !table[i].used {
          assert FirstUnused(table[..]) == i;
          table[i] := table[i].(used := true, state := Closed);
          return i;
        }
        i := i + 1;
      }
      return -1;
    }

    /** tcp.c:435-447: the nested search for a port. */
    method FindPort(e: Endian, from: nat) returns (r: Option<nat>)
      ensures r == PickPort(table[..], e, from)
    {
      var i := from;
      while i <= PORT_MAX
        invariant PickPort(table[..], e, from) == PickPort(table[..], e, i)
        decreases PORT_MAX + 1 - i
      {
        var j := 0;
        while j < table.Length
          invariant 0 <= j <= table.Length
          invariant forall k :: 0 <= k < j ==> !(table[k].used && table[k].port == Hton16(e, i))
        {
          if table[j].used && table[j].port == Hton16(e, i) {
            break;
          }
          j := j + 1;
        }
        assert j < table.Length ==> Taken(table[..], e, i) by {
          if j < table.Length {
            assert table[..][j].used && table[..][j].port == Hton16(e, i);
          }
        }
        if j == table.Length {
          return Some(i);
        }
        i := i + 1;
      }
      return None;
    }

    /** tcp.c: tcp_api_connect up to its wait. */
    method ApiConnect(soc: int, addr: IpAddr, port: uint16, env: Env) returns (ok: bool, out: Option<Segment>)
      requires Valid()
      modifies table
      ensures Connection(table[..], ok, out) == Connect(old(table[..]), soc, addr, port, env)
      ensures !ok ==> soc < 0 || soc >= TABLE_SIZE || !old(table[..])[soc].used ||
                      old(table[..])[soc].state != Closed || env.iface.None? || !env.sends
    {
      if soc < 0 || soc >= table.Length {
        return false, None;
      }
      if !table[soc].used || table[soc].state != Closed {
        return false, None;
      }
      if table[soc].port == 0 {
        var picked := FindPort(env.e, PORT_MIN + env.time % 1024);
        PortSearchSucceeds(table[..], env.e, soc, env.time);
        table[soc] := table[soc].(port := Hton16(env.e, picked.value));
      }
      table[soc] := table[soc].(peerAddr := addr, peerPort := Hton16(env.e, port), iface := env.iface);
      if table[soc].iface.None? {
        assert table[..] == old(table[..])[soc := table[soc]];
        return false, None;
      }
      table[soc] := table[soc].(rcvWnd := WINDOW, iss := env.random);
      if !env.sends {
        assert table[..] == old(table[..])[soc := table[soc]];
        return false, None;
      }
      out := Emit(table[soc], table[soc].iss, 0, SYN);
      table[soc] := table[soc].(sndUna := table[soc].iss, sndNxt := Next32(table[soc].iss), state := SynSent);
      assert table[..] == old(table[..])[soc := table[soc]];
      ok := true;
    }

    /** tcp.c:325-340: the search for the block of a segment; the position is the table size if there is none. */
    method Demux(iface: Iface, g: Segment) returns (i: nat, free: Option<nat>, listener: Option<nat>)
      requires Valid()
      ensures Scan(if i < TABLE_SIZE then Some(i) else None, free, listener) == ScanTo(table[..], TABLE_SIZE, iface, g)
      ensures i <= TABLE_SIZE
    {
      i, free, listener := 0, None, None;
      while i < table.Length
        invariant i <= table.Length
        invariant ScanTo(table[..], i, iface, g) == Scan(None, free, listener)
      {
        var cb := table[i];
        if !cb.used && cb.state == Closed {
          free := Some(i);
        } else if (cb.iface.None? || cb.iface.value == iface) && cb.port == g.dport {
          if cb.peerAddr == g.src && cb.peerPort == g.sport {
            FoundStays(table[..], i, TABLE_SIZE, iface, g);
            return;
          } else if cb.state == Listen && listener.None? {
            listener := Some(i);
          }
        }
        i := i + 1;
      }
    }

    /** tcp.c: tcp_rx, from the bytes of the segment. */
    method ReceiveBytes(e: Endian, iface: Iface, src: IpAddr, dst: IpAddr, b: Bytes) returns (out: Option<Segment>)
      requires Valid() && |b| <= 0xffff
      modifies table
      ensures (table[..], out) == RxBytes(old(table[..]), e, iface, src, dst, b)
    {
      if |b| < HDR_SIZE {
        return None;
      }
      var pseudo := HighHalf(e, src) + LowHalf(e, src) + HighHalf(e, dst) + LowHalf(e, dst);
      pseudo := pseudo + Hton16(e, PROTOCOL_TCP) + Hton16(e, |b|);
      var sum := ComputeCksum16(e, b, pseudo);
      out := Receive(iface, Parse(e, src, dst, b), sum == 0);
    }

    /** The same, once the checksum has been tested. */
    method Receive(iface: Iface, g: Segment, sumOk: bool) returns (out: Option<Segment>)
      requires Valid()
      modifies table
      ensures (table[..], out) == Rx(old(table[..]), iface, g, sumOk)
    {
      if g.dst != iface.unicast {
        return None;
      }
      if g.len < HDR_SIZE {
        return None;
      }
      if !sumOk {
        return None;
      }
      var i, free, listener := Demux(iface, g);
      if i == table.Length {
        if free.None? {
          return None;
        }
        i := free.value;
        table[i] := Prepared(table[..], i, listener, iface, g);
      }
      ghost var cb := table[i];
      assert table[..] == old(table[..])[i := cb];
      out := SegmentArrives(i, g);
      assert table[..] == old(table[..])[i := Arrives(cb, g).0];
    }

    /** tcp.c: tcp_event_segment_arrives on the block in slot `i`. */
    method SegmentArrives(i: nat, g: Segment) returns (out: Option<Segment>)
      requires Valid() && i < TABLE_SIZE
      modifies table
      ensures table[..] == old(table[..])[i := Arrives(old(table[i]), g).0]
      ensures out == Arrives(old(table[i]), g).1
    {
      out := None;
      if table[i].state == Closed {
        if !g.flags.rst {
          if g.flags.ack {
            out := Emit(table[i], g.ackNo, 0, RST);
          } else {
            out := Emit(table[i], 0, (g.seqNo + g.len - g.hlen) % 0x1_0000_0000, RST_ACK);
          }
        }
      } else if table[i].state == SynSent {
        var acceptable := false;
        if g.flags.ack {
          if g.ackNo <= table[i].iss || g.ackNo > table[i].sndNxt {
            out := Emit(table[i], g.ackNo, 0, RST);
            return;
          } else if table[i].sndUna <= g.ackNo <= table[i].sndNxt {
            acceptable := true;
          }
        }
        if g.flags.rst {
          if !acceptable {
            return;
          }
          table[i] := table[i].(state := Closed);
          table[i] := table[i].(used := false);
          return;
        }
        if g.flags.syn {
          table[i] := table[i].(rcvNxt := Next32(g.seqNo), irs := g.seqNo);
          table[i] := table[i].(sndUna := g.ackNo);
          if table[i].sndUna > table[i].iss {
            table[i] := table[i].(state := Established);
            out := Emit(table[i], table[i].sndNxt, table[i].rcvNxt, ACK);
          } else {
            table[i] := table[i].(state := SynRcvd);
            out := Emit(table[i], table[i].iss, table[i].rcvNxt, SYN_ACK);
          }
        }
      }
    }
  }

  /** Once the scan has found a block, the remaining slots do not change its result. */
  lemma {:induction false} FoundStays(t: seq<Cb>, i: nat, n: nat, iface: Iface, g: Segment)
    requires i < n <= |t| && ScanTo(t, i, iface, g).found.None? && Matches(t[i], iface, g)
    ensures ScanTo(t, n, iface, g) == ScanTo(t, i, iface, g).(found := Some(i))
    decreases n
  {
    if i < n - 1 {
      FoundStays(t, i, n - 1, iface, g);
    }
  }
}
