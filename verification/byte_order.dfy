/**
 * Host/network byte-order conversion (`bpf_htons`, `bpf_ntohs`, `bpf_ntohl`).
 *
 * Network byte order is big-endian. A host is either big-endian, where the
 * conversions are the identity, or little-endian, where they reverse the
 * bytes of the value; the `littleEndianHost` flag chooses between the two.
 * The lemmas tie this choice to memory: storing the converted value on that
 * host lays its bytes out in network order.
 */
module ByteOrder {
  import opened Bits

  /** Exchanges the two bytes of a 16-bit value. */
  function Swap16(x: nat): (r: nat)
    requires x < 0x1_0000
    ensures r < 0x1_0000
    ensures r / 0x100 == x % 0x100 && r % 0x100 == x / 0x100
  {
    (x % 0x100) * 0x100 + x / 0x100
  }

  /** Reverses the four bytes of a 32-bit value. */
  function Swap32(x: nat): (r: nat)
    requires x < 0x1_0000_0000
    ensures r < 0x1_0000_0000
  {
    var b0 := x % 0x100;
    var b1 := x / 0x100 % 0x100;
    var b2 := x / 0x1_0000 % 0x100;
    var b3 := x / 0x100_0000;
    b0 * 0x100_0000 + b1 * 0x1_0000 + b2 * 0x100 + b3
  }

  /**
   * `bpf_htons`: host to network order for a 16-bit value. Whatever the
   * host, the result lies in memory with x's bytes in network order.
   */
  function Htons(littleEndianHost: bool, x: nat): (r: nat)
    requires x < 0x1_0000
    ensures r < 0x1_0000
    ensures Store16(littleEndianHost, r) == BigEndian16(x)
  {
    if littleEndianHost then Swap16(x) else x
  }

  /**
   * `bpf_ntohs`: network to host order for a 16-bit value, the same
   * permutation as `Htons`. The result is the bytes the host keeps in
   * memory for x, read as a network-order number.
   */
  function Ntohs(littleEndianHost: bool, x: nat): (r: nat)
    requires x < 0x1_0000
    ensures r < 0x1_0000
    ensures r == ReadBigEndian16(Store16(littleEndianHost, x))
  {
    Htons(littleEndianHost, x)
  }

  /**
   * `bpf_ntohl`: network to host order for a 32-bit value. The result is the
   * four bytes the host keeps in memory for x, read as a network-order number.
   */
  function Ntohl(littleEndianHost: bool, x: nat): (r: nat)
    requires x < 0x1_0000_0000
    ensures r < 0x1_0000_0000
    ensures r == ReadBigEndian32(Store32(littleEndianHost, x))
  {
    StoredBytes(x);
    if littleEndianHost then Swap32(x) else x
  }

  /** The bytes of a 16-bit value in network order (most significant first). */
  function BigEndian16(x: nat): seq<nat>
    requires x < 0x1_0000
  {
    [x / 0x100, x % 0x100]
  }

  /** The bytes of a 32-bit value in network order (most significant first). */
  function BigEndian32(x: nat): seq<nat>
    requires x < 0x1_0000_0000
  {
    [x / 0x100_0000, x / 0x1_0000 % 0x100, x / 0x100 % 0x100, x % 0x100]
  }

  /** The value of two bytes read in network order. */
  function ReadBigEndian16(bs: seq<nat>): nat
    requires |bs| == 2
  {
    bs[0] * 0x100 + bs[1]
  }

  /** The value of four bytes read in network order. */
  function ReadBigEndian32(bs: seq<nat>): nat
    requires |bs| == 4
  {
    bs[0] * 0x100_0000 + bs[1] * 0x1_0000 + bs[2] * 0x100 + bs[3]
  }

  /** The bytes, at increasing addresses, that a host keeps in memory for a 16-bit value. */
  function Store16(littleEndianHost: bool, v: nat): seq<nat>
    requires v < 0x1_0000
  {
    if littleEndianHost then [v % 0x100, v / 0x100] else [v / 0x100, v % 0x100]
  }

  /** The bytes, at increasing addresses, that a host keeps in memory for a 32-bit value. */
  function Store32(littleEndianHost: bool, v: nat): seq<nat>
    requires v < 0x1_0000_0000
  {
    var be := BigEndian32(v);
    if littleEndianHost then [be[3], be[2], be[1], be[0]] else be
  }

  /** Swapping twice gives the value back. */
  lemma Swap16Involution(x: nat)
    requires x < 0x1_0000
    ensures Swap16(Swap16(x)) == x
  {
  }

  /** A byte swap moves neither the all-zeros nor the all-ones word. */
  lemma Swap16Fixes(x: nat)
    requires x < 0x1_0000
    ensures Swap16(x) == 0 <==> x == 0
    ensures Swap16(x) == 0xFFFF <==> x == 0xFFFF
  {
  }

  /** A 32-bit value is its four bytes, and each 16-bit half is two of them. */
  lemma SplitBytes(x: nat)
    requires x < 0x1_0000_0000
    ensures x / 0x100_0000 == x / 0x1_0000 / 0x100
    ensures x / 0x100 % 0x100 == x % 0x1_0000 / 0x100
    ensures x % 0x100 == x % 0x1_0000 % 0x100
  {
    var hi, lo := x / 0x1_0000, x % 0x1_0000;
    assert x == 0x1_0000 * hi + lo;
    assert hi == 0x100 * (hi / 0x100) + hi % 0x100;
    assert lo == 0x100 * (lo / 0x100) + lo % 0x100;
    DivModUnique(x, 0x100_0000, hi / 0x100, 0x1_0000 * (hi % 0x100) + 0x100 * (lo / 0x100) + lo % 0x100);
    DivModUnique(x, 0x100, 0x100 * hi + lo / 0x100, lo % 0x100);
    DivModUnique(x / 0x100, 0x100, hi, lo / 0x100);
  }

  /**
   * The two 16-bit halves of a byte-reversed 32-bit value are the byte-swapped
   * halves of the original, in the opposite order.
   */
  lemma Swap32Halves(x: nat)
    requires x < 0x1_0000_0000
    ensures Swap32(x) / 0x1_0000 == Swap16(x % 0x1_0000)
    ensures Swap32(x) % 0x1_0000 == Swap16(x / 0x1_0000)
  {
    var b0 := x % 0x100;
    var b1 := x / 0x100 % 0x100;
    var b2 := x / 0x1_0000 % 0x100;
    var b3 := x / 0x100_0000;
    SplitBytes(x);
    var high, low := b0 * 0x100 + b1, b2 * 0x100 + b3;
    assert Swap32(x) == high * 0x1_0000 + low;
    DivModUnique(Swap32(x), 0x1_0000, high, low);
    assert Swap16(x % 0x1_0000) == high;
    assert Swap16(x / 0x1_0000) == low;
  }

  /** Reversing the bytes twice gives the value back. */
  lemma Swap32Involution(x: nat)
    requires x < 0x1_0000_0000
    ensures Swap32(Swap32(x)) == x
  {
    Swap32Halves(x);
    Swap32Halves(Swap32(x));
    Swap16Involution(x % 0x1_0000);
    Swap16Involution(x / 0x1_0000);
  }

  /** A 32-bit value is its four big-endian bytes, whichever order they are read back in. */
  lemma StoredBytes(v: nat)
    requires v < 0x1_0000_0000
    ensures ReadBigEndian32(BigEndian32(v)) == v
    ensures Swap32(v) == ReadBigEndian32([BigEndian32(v)[3], BigEndian32(v)[2], BigEndian32(v)[1], BigEndian32(v)[0]])
  {
    SplitBytes(v);
    var hi, lo := v / 0x1_0000, v % 0x1_0000;
    assert v == 0x1_0000 * hi + lo;
    assert hi == 0x100 * (hi / 0x100) + hi % 0x100;
    assert lo == 0x100 * (lo / 0x100) + lo % 0x100;
  }
}
