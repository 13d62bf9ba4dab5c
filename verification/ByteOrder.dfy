/** Machine integers, their byte images in memory, and the byte-order conversions of util.c. */
module ByteOrder {

  type uint8 = x: int | 0 <= x < 0x100
  type uint16 = x: int | 0 <= x < 0x1_0000
  type uint32 = x: int | 0 <= x < 0x1_0000_0000

  type Bytes = seq<uint8>

  /** `ip_addr_t` as it lies in memory and on the wire: the code only ever copies and compares it whole. */
  type IpAddr = a: Bytes | |a| == 4 witness [0, 0, 0, 0]

  /** An Ethernet hardware address. */
  type MacAddr = a: Bytes | |a| == 6 witness [0, 0, 0, 0, 0, 0]

  /** The byte order that `byteorder` detects on the running machine. */
  datatype Endian = Little | Big

  // ---- memory images -------------------------------------------------------------------------

  function Load16(e: Endian, b0: uint8, b1: uint8): (v: uint16)
  {
    if e.Little? then b0 + 0x100 * b1 else 0x100 * b0 + b1
  }

  function Store16(e: Endian, v: uint16): (s: Bytes)
    ensures |s| == 2 && Load16(e, s[0], s[1]) == v
  {
    if e.Little? then [v % 0x100, v / 0x100] else [v / 0x100, v % 0x100]
  }

  /** The two 16-bit halves of a 32-bit address, as `x & 0xffff` and `x >> 16` see them. */
  function LowHalf(e: Endian, a: IpAddr): (v: uint16)
  {
    if e.Little? then Load16(e, a[0], a[1]) else Load16(e, a[2], a[3])
  }

  function HighHalf(e: Endian, a: IpAddr): (v: uint16)
  {
    if e.Little? then Load16(e, a[2], a[3]) else Load16(e, a[0], a[1])
  }

  // ---- conversions ---------------------------------------------------------------------------

  /** util.c: byteswap16; the two disjoint bytes are joined by `+` instead of `|`. */
  function ByteSwap16(v: uint16): (r: uint16)
  {
    v % 0x100 * 0x100 + v / 0x100
  }

  /** util.c: hton16 and ntoh16, which are the same conversion. */
  function Hton16(e: Endian, v: uint16): (r: uint16)
  {
    if e.Little? then ByteSwap16(v) else v
  }

  /** Converting twice gives the value back, so the conversion is injective. */
  lemma Hton16Inverse(e: Endian, v: uint16)
    ensures Hton16(e, Hton16(e, v)) == v
  {
    var r := ByteSwap16(v);
    assert r / 0x100 == v % 0x100 && r % 0x100 == v / 0x100;
  }

  lemma Hton16Injective(e: Endian, v: uint16, w: uint16)
    requires Hton16(e, v) == Hton16(e, w)
    ensures v == w
  {
    Hton16Inverse(e, v);
    Hton16Inverse(e, w);
  }

  /** A converted value lies in memory most significant byte first, whatever the host's own order. */
  lemma WireOrder(e: Endian, v: uint16)
    ensures Store16(e, Hton16(e, v)) == [v / 0x100, v % 0x100]
    ensures Hton16(e, Load16(e, v / 0x100, v % 0x100)) == v
  {
  }

  /** A 16-bit field written by one host and read by another, of whichever byte orders, keeps its value. */
  lemma WireValue(sender: Endian, receiver: Endian, v: uint16)
    ensures var b := Store16(sender, Hton16(sender, v));
            && Hton16(receiver, Load16(receiver, b[0], b[1])) == v
            && Load16(receiver, b[0], b[1]) == Hton16(receiver, v)
  {
    WireOrder(sender, v);
    WireOrder(receiver, v);
  }

  /** Two bytes in network order. */
  function Word(b0: uint8, b1: uint8): (v: uint16)
  {
    0x100 * b0 + b1
  }

  lemma NetworkOrder(e: Endian, b0: uint8, b1: uint8)
    ensures Hton16(e, Load16(e, b0, b1)) == Word(b0, b1)
  {
    WireOrder(e, Word(b0, b1));
    assert Word(b0, b1) / 0x100 == b0 && Word(b0, b1) % 0x100 == b1;
  }

  // ---- 32 bits -------------------------------------------------------------------------------

  function Upper(v: uint32): (h: uint16)
  {
    v / 0x1_0000
  }

  function Lower(v: uint32): (l: uint16)
  {
    v % 0x1_0000
  }

  function Join(h: uint16, l: uint16): (v: uint32)
    ensures Upper(v) == h && Lower(v) == l
  {
    0x1_0000 * h + l
  }

  function Load32(e: Endian, b0: uint8, b1: uint8, b2: uint8, b3: uint8): (v: uint32)
  {
    if e.Little? then Join(Load16(e, b2, b3), Load16(e, b0, b1)) else Join(Load16(e, b0, b1), Load16(e, b2, b3))
  }

  function Store32(e: Endian, v: uint32): (s: Bytes)
    ensures |s| == 4 && Load32(e, s[0], s[1], s[2], s[3]) == v
  {
    if e.Little? then Store16(e, Lower(v)) + Store16(e, Upper(v)) else Store16(e, Upper(v)) + Store16(e, Lower(v))
  }

  /** util.c: byteswap32; each half is swapped, and the halves change places. */
  function ByteSwap32(v: uint32): (r: uint32)
  {
    Join(ByteSwap16(Lower(v)), ByteSwap16(Upper(v)))
  }

  /** util.c: hton32 and ntoh32. */
  function Hton32(e: Endian, v: uint32): (r: uint32)
  {
    if e.Little? then ByteSwap32(v) else v
  }

  /** The four bytes of a value, most significant first. */
  function Octets(v: uint32): (b: Bytes)
  {
    [Upper(v) / 0x100, Upper(v) % 0x100, Lower(v) / 0x100, Lower(v) % 0x100]
  }

  /** A 32-bit field lies in network order, and a host of either byte order reads its value. */
  lemma WireValue32(e: Endian, v: uint32)
    ensures Store32(e, Hton32(e, v)) == Octets(v)
    ensures var o := Octets(v);
            v == 0x100_0000 * (o[0] as nat) + 0x1_0000 * (o[1] as nat) + 0x100 * (o[2] as nat) + o[3]
    ensures var b := Octets(v); Hton32(e, Load32(e, b[0], b[1], b[2], b[3])) == v
  {
    WireOrder(e, Upper(v));
    WireOrder(e, Lower(v));
  }
}
