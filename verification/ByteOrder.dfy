/** IPAddress.HostToNetworkOrder and NetworkToHostOrder for 64-bit values, built from two 32-bit swaps.
    Signed values are two's complement bit patterns: bv32 and bv64. */
module ByteOrder {

  datatype Host = LittleEndian | BigEndian

  /** The cast from JITINT32 to JITINT64: flipping the sign bit and subtracting it again copies it upwards. */
  function SignExtend(x: bv32): (r: bv64) {
    ((x as bv64) ^ 0x8000_0000) - 0x8000_0000
  }

  lemma SignIsExtended(x: bv32)
    ensures x & 0x8000_0000 == 0 ==> SignExtend(x) == x as bv64
    ensures x & 0x8000_0000 != 0 ==> SignExtend(x) == 0xFFFF_FFFF_0000_0000 | (x as bv64)
  {
  }

  function Swapped32(x: bv32): (r: bv32) {
    (x << 24) | ((x << 8) & 0xFF_0000) | ((x >> 8) & 0xFF00) | (x >> 24)
  }

  /** htonl, and ntohl. */
  method Htonl(x: bv32, host: Host) returns (y: bv32)
    ensures host.LittleEndian? ==> y == Swapped32(x)
    ensures host.BigEndian? ==> y == x
  {
    if host.LittleEndian? {
      return Swapped32(x);
    }
    return x;
  }

  /** The first byte in memory of the constant 0x0123456789abcdef. */
  function ProbeByte(host: Host): (r: int) {
    if host.LittleEndian? then 0xEF else 0x01
  }

  // ----- What is computed

  function Reversed64(x: bv64): (r: bv64) {
    (x << 56) | ((x << 40) & 0xFF_0000_0000_0000) | ((x << 24) & 0xFF00_0000_0000) | ((x << 8) & 0xFF_0000_0000)
    | ((x >> 8) & 0xFF00_0000) | ((x >> 24) & 0xFF_0000) | ((x >> 40) & 0xFF00) | (x >> 56)
  }

  /** The value with its bytes in network order. */
  function NetworkOrder(x: bv64, host: Host): (r: bv64) {
    if host.LittleEndian? then Reversed64(x) else x
  }

  function LowerHalf(x: bv64): (r: bv32) {
    (x & 0xFFFF_FFFF) as bv32
  }

  function UpperHalf(x: bv64): (r: bv32) {
    ((x & 0xFFFF_FFFF_0000_0000) >> 32) as bv32
  }

  /** Two signed halves put together again: the shift drops the extended sign of one, the mask that of the other. */
  function Joined(upper: bv32, lower: bv32): (r: bv64) {
    (SignExtend(upper) << 32) | (SignExtend(lower) & 0xFFFF_FFFF)
  }

  /** Swapping the halves, each with its bytes reversed, reverses all bytes. */
  lemma HalvesSwapped(x: bv64)
    ensures Joined(Swapped32(LowerHalf(x)), Swapped32(UpperHalf(x))) == Reversed64(x)
  {
  }

  lemma HalvesRejoined(x: bv64)
    ensures Joined(UpperHalf(x), LowerHalf(x)) == x
  {
  }

  method HostToNetworkOrderL(value: bv64, host: Host) returns (result: bv64)
    ensures result == NetworkOrder(value, host)
  {
    var firstHalf := LowerHalf(value);
    var secondHalf := UpperHalf(value);
    firstHalf := Htonl(firstHalf, host);
    secondHalf := Htonl(secondHalf, host);
    if ProbeByte(host) == 0xEF {
      HalvesSwapped(value);
      return Joined(firstHalf, secondHalf);
    }
    HalvesRejoined(value);
    return Joined(secondHalf, firstHalf);
  }

  /** The same steps, with ntohl. */
  method NetworkToHostOrderL(network: bv64, host: Host) returns (result: bv64)
    ensures result == NetworkOrder(network, host)
  {
    var firstHalf := LowerHalf(network);
    var secondHalf := UpperHalf(network);
    firstHalf := Htonl(firstHalf, host);
    secondHalf := Htonl(secondHalf, host);
    if ProbeByte(host) == 0xEF {
      HalvesSwapped(network);
      return Joined(firstHalf, secondHalf);
    }
    HalvesRejoined(network);
    return Joined(secondHalf, firstHalf);
  }

  // ----- What that means, byte by byte

  /** The `k`-th byte of a value, lowest first. */
  function Byte(x: bv64, k: nat): (r: bv64)
    requires k < 8
  {
    match k
    case 0 => x & 0xFF
    case 1 => (x >> 8) & 0xFF
    case 2 => (x >> 16) & 0xFF
    case 3 => (x >> 24) & 0xFF
    case 4 => (x >> 32) & 0xFF
    case 5 => (x >> 40) & 0xFF
    case 6 => (x >> 48) & 0xFF
    case 7 => (x >> 56) & 0xFF
  }

  lemma LowBytesReversed(x: bv64)
    ensures Reversed64(x) & 0xFF == (x >> 56) & 0xFF
    ensures (Reversed64(x) >> 8) & 0xFF == (x >> 48) & 0xFF
    ensures (Reversed64(x) >> 16) & 0xFF == (x >> 40) & 0xFF
    ensures (Reversed64(x) >> 24) & 0xFF == (x >> 32) & 0xFF
  {
  }

  lemma HighBytesReversed(x: bv64)
    ensures (Reversed64(x) >> 32) & 0xFF == (x >> 24) & 0xFF
    ensures (Reversed64(x) >> 40) & 0xFF == (x >> 16) & 0xFF
    ensures (Reversed64(x) >> 48) & 0xFF == (x >> 8) & 0xFF
    ensures (Reversed64(x) >> 56) & 0xFF == x & 0xFF
  {
  }

  /** On a little-endian host all eight bytes change places, whatever the signs of the halves;
      on a big-endian one nothing changes. */
  lemma BytesAreReversed(x: bv64, k: nat)
    requires k < 8
    ensures Byte(NetworkOrder(x, LittleEndian), k) == Byte(x, 7 - k)
    ensures NetworkOrder(x, BigEndian) == x
  {
    LowBytesReversed(x);
    HighBytesReversed(x);
  }

  /** Converting back, which is converting again, undoes the conversion on either host. */
  lemma OrderRoundTrip(x: bv64, host: Host)
    ensures NetworkOrder(NetworkOrder(x, host), host) == x
  {
  }

  /** Given as raw bytes: what the conversion is on a little-endian host. */
  lemma NetworkOrderInPlainTerms(x: bv64)
    ensures NetworkOrder(x, BigEndian) == x
    ensures var r := NetworkOrder(x, LittleEndian);
      && r & 0xFF == (x >> 56) & 0xFF && (r >> 8) & 0xFF == (x >> 48) & 0xFF
      && (r >> 16) & 0xFF == (x >> 40) & 0xFF && (r >> 24) & 0xFF == (x >> 32) & 0xFF
      && (r >> 32) & 0xFF == (x >> 24) & 0xFF && (r >> 40) & 0xFF == (x >> 16) & 0xFF
      && (r >> 48) & 0xFF == (x >> 8) & 0xFF && (r >> 56) & 0xFF == x & 0xFF
  {
    LowBytesReversed(x);
    HighBytesReversed(x);
  }
}
