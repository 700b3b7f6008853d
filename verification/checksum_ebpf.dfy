/**
 * `verify_ipv4_checksum`: the check that an IPv4 header's checksum field is
 * consistent with the rest of the header.
 *
 * The routine packs the header fields into the ten 16-bit words of the
 * wire format, converts each to network order with `bpf_htons` (the address
 * halves come from `bpf_ntohl`), adds them into a 32-bit accumulator, folds
 * the carries back once, complements, truncates to 16 bits, converts back
 * with `bpf_ntohs` and reports 1 when the result is zero, 0 otherwise.
 *
 * The model follows the C statement by statement on a host of either byte
 * order. The main results: the verdict is 1 exactly when the RFC 1071
 * one's-complement sum of the ten wire words is 0xFFFF, it does not depend
 * on the host's byte order, and for a header without options (IHL = 5) the
 * checksum a sender computes is accepted. Options are not part of the header
 * record; the routine and the model always sum exactly ten words.
 */
module ChecksumEbpf {
  import opened Bits
  import opened ByteOrder
  import opened OnesComplement
  import opened Ipv4

  /**
   * `(version << 12) | (ihl << 8) | diffserv`: with the fields in range the
   * shifted bit ranges do not overlap, and the packed word is the first word
   * of the header on the wire.
   */
  function VersionIhlDiffservWord(h: Header): (w: nat)
    requires WellFormed(h)
    ensures w == WireWords(h)[0]
  {
    WireWordsByField(h);
    VersionIhlDiffservWordAdds(h.version, h.ihl, h.diffserv);
    Or(Or(Shl(h.version, 12), Shl(h.ihl, 8)), h.diffserv)
  }

  /** `(flags << 13) | fragOffset`: the fourth word of the header on the wire. */
  function FlagsFragOffsetWord(h: Header): (w: nat)
    requires WellFormed(h)
    ensures w == WireWords(h)[3]
  {
    Pow2Values();
    WireWordsByField(h);
    OrDisjoint(h.flags, h.fragOffset, 13);
    Or(Shl(h.flags, 13), h.fragOffset)
  }

  /** `(ttl << 8) | protocol`: the fifth word of the header on the wire. */
  function TtlProtocolWord(h: Header): (w: nat)
    requires WellFormed(h)
    ensures w == WireWords(h)[4]
  {
    Pow2Values();
    WireWordsByField(h);
    OrDisjoint(h.ttl, h.protocol, 8);
    Or(Shl(h.ttl, 8), h.protocol)
  }

  /** The ORs of the first header word add disjoint bit ranges. */
  lemma VersionIhlDiffservWordAdds(version: nat, ihl: nat, diffserv: nat)
    requires version < 0x10 && ihl < 0x10 && diffserv < 0x100
    ensures Or(Or(Shl(version, 12), Shl(ihl, 8)), diffserv) == version * 0x1000 + ihl * 0x100 + diffserv
  {
    Pow2Values();
    assert Shl(ihl, 8) == ihl * 0x100 < Pow2(12);
    OrDisjoint(version, Shl(ihl, 8), 12);
    assert Shl(version, 12) + Shl(ihl, 8) == Shl(version * 0x10 + ihl, 8);
    OrDisjoint(version * 0x10 + ihl, diffserv, 8);
  }

  /**
   * `(a >> 16) + (u16) a` with `a = bpf_ntohl(addr)`: one address's share of
   * the sum, which is what its two wire words add up to through `bpf_htons`.
   */
  function AddressContribution(littleEndianHost: bool, addr: nat): (r: nat)
    requires addr < 0x1_0000_0000
    ensures r == Htons(littleEndianHost, addr / 0x1_0000) + Htons(littleEndianHost, addr % 0x1_0000)
  {
    AddressHalves(littleEndianHost, addr);
    var a := Ntohl(littleEndianHost, addr);
    Add32(Shr(a, 16), Trunc(a, 16))
  }

  /**
   * After `bpf_ntohl` the two halves of the address are its two wire words
   * in host order; on a byte-swapping host they come out swapped and in the
   * opposite order.
   */
  lemma AddressHalves(littleEndianHost: bool, addr: nat)
    requires addr < 0x1_0000_0000
    ensures var a := Ntohl(littleEndianHost, addr);
      if littleEndianHost then
        Shr(a, 16) == Htons(littleEndianHost, addr % 0x1_0000)
        && Trunc(a, 16) == Htons(littleEndianHost, addr / 0x1_0000)
      else
        Shr(a, 16) == Htons(littleEndianHost, addr / 0x1_0000)
        && Trunc(a, 16) == Htons(littleEndianHost, addr % 0x1_0000)
  {
    Pow2Values();
    if littleEndianHost {
      Swap32Halves(addr);
    }
  }

  /** The words as the host adds them: each wire word converted with `bpf_htons`. */
  function HostWords(littleEndianHost: bool, ws: seq<nat>): (r: seq<nat>)
    requires AllWords(ws)
    ensures |r| == |ws| && AllWords(r)
    ensures forall i :: 0 <= i < |ws| ==> r[i] == Htons(littleEndianHost, ws[i])
  {
    if littleEndianHost then Swapped(ws) else ws
  }

  /** Each single-word term the routine adds (lines 19-24) is the matching wire word in host order. */
  lemma HeaderTerms(littleEndianHost: bool, h: Header)
    requires WellFormed(h)
    ensures var hw := HostWords(littleEndianHost, WireWords(h));
      && VersionIhlDiffservWord(h) < 0x1_0000
      && FlagsFragOffsetWord(h) < 0x1_0000
      && TtlProtocolWord(h) < 0x1_0000
      && Htons(littleEndianHost, VersionIhlDiffservWord(h)) == hw[0]
      && Htons(littleEndianHost, h.totalLen) == hw[1]
      && Htons(littleEndianHost, h.identification) == hw[2]
      && Htons(littleEndianHost, FlagsFragOffsetWord(h)) == hw[3]
      && Htons(littleEndianHost, TtlProtocolWord(h)) == hw[4]
      && Htons(littleEndianHost, h.hdrChecksum) == hw[5]
  {
    WireWordsByField(h);
  }

  /** Each address the routine adds (lines 25-28) contributes its two wire words in host order. */
  lemma AddressTerms(littleEndianHost: bool, h: Header)
    requires WellFormed(h)
    ensures var hw := HostWords(littleEndianHost, WireWords(h));
      && AddressContribution(littleEndianHost, h.srcAddr) == hw[6] + hw[7]
      && AddressContribution(littleEndianHost, h.dstAddr) == hw[8] + hw[9]
  {
    WireWordsByField(h);
  }

  /**
   * The 32-bit accumulator after the six single-word additions (lines 19-24
   * of the C). Each `+=` is modelled modulo 2^32; none wraps, so the result
   * is the exact sum of the first six host-order words.
   */
  function HeaderWordsSum(littleEndianHost: bool, h: Header): (c: nat)
    requires WellFormed(h)
    ensures var hw := HostWords(littleEndianHost, WireWords(h));
      c == hw[0] + hw[1] + hw[2] + hw[3] + hw[4] + hw[5]
  {
    HeaderTerms(littleEndianHost, h);
    var c1 := Htons(littleEndianHost, VersionIhlDiffservWord(h));
    var c2 := Add32(c1, Htons(littleEndianHost, h.totalLen));
    var c3 := Add32(c2, Htons(littleEndianHost, h.identification));
    var c4 := Add32(c3, Htons(littleEndianHost, FlagsFragOffsetWord(h)));
    var c5 := Add32(c4, Htons(littleEndianHost, TtlProtocolWord(h)));
    Add32(c5, Htons(littleEndianHost, h.hdrChecksum))
  }

  /**
   * Adding six words, then two pairs, in 32-bit arithmetic gives the exact
   * sum of ten 16-bit words: no partial sum reaches 2^32.
   */
  lemma TenWordTotal(hw: seq<nat>, c6: nat, src: nat, dst: nat)
    requires |hw| == 10 && AllWords(hw)
    requires c6 == hw[0] + hw[1] + hw[2] + hw[3] + hw[4] + hw[5]
    requires src == hw[6] + hw[7] && dst == hw[8] + hw[9]
    ensures Add32(Add32(c6, src), dst) == Sum(hw) <= 10 * 0xFFFF
  {
    SumOfTen(hw);
    SumBound(hw);
  }

  /**
   * The 32-bit accumulator after all ten words, the address halves added in
   * pairs (lines 25-28). It is nonetheless the exact sum of the host-order
   * words, because ten words of at most 0xFFFF reach at most 0x9FFF6, far
   * below 2^32.
   */
  function Accumulator(littleEndianHost: bool, h: Header): (c: nat)
    requires WellFormed(h)
    ensures c == Sum(HostWords(littleEndianHost, WireWords(h)))
    ensures c <= 10 * 0xFFFF
  {
    var hw := HostWords(littleEndianHost, WireWords(h));
    var c6 := HeaderWordsSum(littleEndianHost, h);
    var src := AddressContribution(littleEndianHost, h.srcAddr);
    var dst := AddressContribution(littleEndianHost, h.dstAddr);
    AddressTerms(littleEndianHost, h);
    TenWordTotal(hw, c6, src, dst);
    Add32(Add32(c6, src), dst)
  }

  /** `(c & 0xFFFF) + (c >> 16)`: one fold of the carries above bit 15. */
  function FoldOnce(c: nat): (y: nat)
    requires c < 0x1_0000_0000
    ensures y == c % 0x1_0000 + c / 0x1_0000
  {
    Pow2Values();
    AndLowMask(c, 16);
    Add32(And(c, 0xFFFF), Shr(c, 16))
  }

  /** `~y` on a `u32`, truncated to a `u16`, is the 16-bit complement of y's low half. */
  lemma ComplementLowHalf(y: nat)
    requires y < 0x1_0000_0000
    ensures Trunc(Not(y, 32), 16) == 0xFFFF - y % 0x1_0000
  {
    Pow2Values();
    NotComplement(y, 32);
    DivModUnique(0xFFFF_FFFF - y, 0x1_0000, 0xFFFF - y / 0x1_0000, 0xFFFF - y % 0x1_0000);
  }

  /**
   * `bpf_ntohs(~((c & 0xFFFF) + (c >> 16)))` stored in a `u16`: one carry
   * fold, a 32-bit complement, truncation to 16 bits and the final order
   * conversion. It is zero exactly when the folded value has all ones in
   * its low 16 bits.
   */
  function Residue(littleEndianHost: bool, c: nat): (res: nat)
    requires c < 0x1_0000_0000
    ensures res == 0 <==> FoldOnce(c) % 0x1_0000 == 0xFFFF
  {
    var t := Trunc(Not(FoldOnce(c), 32), 16);
    ComplementLowHalf(FoldOnce(c));
    Swap16Fixes(t);
    Ntohs(littleEndianHost, t)
  }

  /**
   * The once-folded accumulator has all ones in its low 16 bits exactly when
   * the accumulator is a positive multiple of 0xFFFF other than 0xFFFFFFFF;
   * for that one value the fold yields 0x1FFFE and a second fold would be needed.
   */
  lemma OneFoldAllOnes(c: nat)
    requires c < 0x1_0000_0000
    ensures (c % 0x1_0000 + c / 0x1_0000) % 0x1_0000 == 0xFFFF
      <==> c > 0 && c % MODULUS == 0 && c != 0xFFFF_FFFF
  {
    var lo, hi := c % 0x1_0000, c / 0x1_0000;
    var y := lo + hi;
    assert c == 0x1_0000 * hi + lo;
    assert c == MODULUS * hi + y;
    ModAddMultiple(y, hi);
    assert y % MODULUS == c % MODULUS;
    assert y == 0 <==> c == 0;
    assert y == 2 * MODULUS <==> c == 0xFFFF_FFFF;
    assert y <= 2 * MODULUS;
  }

  /**
   * One fold decides like the full end-around-carry fold for every 32-bit
   * accumulator except 0xFFFFFFFF: its low 16 bits are all ones exactly when
   * the fully folded sum is 0xFFFF, unless the accumulator is 0xFFFFFFFF,
   * where the full fold gives 0xFFFF and one fold does not.
   */
  lemma SingleFoldVerdict(c: nat)
    requires c < 0x1_0000_0000
    ensures FoldOnce(c) % 0x1_0000 == 0xFFFF <==> Fold(c) == 0xFFFF && c != 0xFFFF_FFFF
  {
    OneFoldAllOnes(c);
    FoldAllOnes(c);
    if c == 0xFFFF_FFFF {
      ModAddMultiple(0, 0x1_0001);
    }
  }

  /** The host's byte order cannot change whether the folded sum of its words is all ones. */
  lemma HostWordsVerdict(littleEndianHost: bool, ws: seq<nat>)
    requires AllWords(ws)
    ensures Fold(Sum(HostWords(littleEndianHost, ws))) == 0xFFFF <==> OnesComplementSum(ws) == 0xFFFF
  {
    DeferredCarries(ws);
    if littleEndianHost {
      ByteOrderIndependence(ws);
      Swap16Fixes(Fold(Sum(ws)));
    }
  }

  /**
   * When the accumulator holds the exact sum of the host-order words and
   * stays below 0xFFFFFFFF, the routine's residue is zero exactly when the
   * one's-complement sum of the words in network order is 0xFFFF.
   */
  lemma ResidueVerdict(littleEndianHost: bool, ws: seq<nat>, c: nat)
    requires AllWords(ws)
    requires c == Sum(HostWords(littleEndianHost, ws)) && c < 0xFFFF_FFFF
    ensures Residue(littleEndianHost, c) == 0 <==> OnesComplementSum(ws) == 0xFFFF
  {
    SingleFoldVerdict(c);
    HostWordsVerdict(littleEndianHost, ws);
  }

  /**
   * `verify_ipv4_checksum`: 1 when the header's checksum is correct, that is
   * when the one's-complement sum of the ten header words, checksum field
   * included, is 0xFFFF; 0 otherwise.
   */
  function VerifyIpv4Checksum(littleEndianHost: bool, h: Header): (r: nat)
    requires WellFormed(h)
    ensures r == 0 || r == 1
    ensures r == 1 <==> OnesComplementSum(WireWords(h)) == 0xFFFF
  {
    var c := Accumulator(littleEndianHost, h);
    ResidueVerdict(littleEndianHost, WireWords(h), c);
    var res := Residue(littleEndianHost, c);
    if res == 0 then 1 else 0
  }

  /** Closed form: the header is accepted exactly when the plain sum of its words is a positive multiple of 0xFFFF. */
  lemma VerdictClosedForm(littleEndianHost: bool, h: Header)
    requires WellFormed(h)
    ensures VerifyIpv4Checksum(littleEndianHost, h) == 1
      <==> Sum(WireWords(h)) > 0 && Sum(WireWords(h)) % 0xFFFF == 0
  {
    DeferredCarries(WireWords(h));
    FoldAllOnes(Sum(WireWords(h)));
  }

  /** The verdict is the same on a big-endian and on a little-endian host. */
  lemma VerdictIndependentOfHostByteOrder(h: Header)
    requires WellFormed(h)
    ensures VerifyIpv4Checksum(true, h) == VerifyIpv4Checksum(false, h)
  {
  }

  /**
   * The checksum a sender puts in an option-free header (section 3.1 of
   * RFC 791): the complement of the one's-complement sum of the ten header
   * words with the checksum field taken as zero. Filling it in makes the
   * plain sum of the words a positive multiple of 0xFFFF.
   */
  function ComputeChecksum(h: Header): (r: nat)
    requires WellFormed(h)
    ensures r <= 0xFFFF
    ensures var s := Sum(WireWords(h.(hdrChecksum := r))); s > 0 && s % MODULUS == 0
  {
    var ws0 := WireWords(h.(hdrChecksum := 0));
    var r := 0xFFFF - OnesComplementSum(ws0);
    var filled := h.(hdrChecksum := r);
    assert filled.(hdrChecksum := 0) == h.(hdrChecksum := 0);
    ChecksumFieldAdds(filled);
    DeferredCarries(ws0);
    ComplementCompletes(Sum(ws0), r);
    r
  }

  /**
   * For a header without options, the routine accepts exactly the checksum
   * a sender computes, and also 0xFFFF, the other one's-complement zero,
   * where the computed value is 0.
   */
  lemma ChecksumAcceptance(littleEndianHost: bool, h: Header)
    requires WellFormed(h)
    ensures VerifyIpv4Checksum(littleEndianHost, h) == 1
      <==> h.hdrChecksum == ComputeChecksum(h) || (ComputeChecksum(h) == 0 && h.hdrChecksum == 0xFFFF)
  {
    var ws0 := WireWords(h.(hdrChecksum := 0));
    var s0, ck := Sum(ws0), h.hdrChecksum;
    assert VerifyIpv4Checksum(littleEndianHost, h) == 1 <==> s0 + ck > 0 && (s0 + ck) % MODULUS == 0 by {
      ChecksumFieldAdds(h);
      VerdictClosedForm(littleEndianHost, h);
    }
    assert ComputeChecksum(h) == 0xFFFF - Fold(s0) by {
      DeferredCarries(ws0);
    }
    ComplementCompletes(s0, ck);
  }

  /** Round trip: filling in the computed checksum makes any well-formed header pass. */
  lemma ChecksumRoundTrip(littleEndianHost: bool, h: Header)
    requires WellFormed(h)
    ensures VerifyIpv4Checksum(littleEndianHost, h.(hdrChecksum := ComputeChecksum(h))) == 1
  {
    var h' := h.(hdrChecksum := ComputeChecksum(h));
    assert h'.(hdrChecksum := 0) == h.(hdrChecksum := 0);
    ChecksumAcceptance(littleEndianHost, h');
  }

  /** The plain sum of the wire words, field by field. */
  lemma WireSum(h: Header)
    requires WellFormed(h)
    ensures Sum(WireWords(h)) == h.version * 0x1000 + h.ihl * 0x100 + h.diffserv
      + h.totalLen + h.identification + h.flags * 0x2000 + h.fragOffset
      + h.ttl * 0x100 + h.protocol + h.hdrChecksum
      + h.srcAddr / 0x1_0000 + h.srcAddr % 0x1_0000 + h.dstAddr / 0x1_0000 + h.dstAddr % 0x1_0000
  {
    WireWordsByField(h);
    SumOfTen(WireWords(h));
  }

  /** The checksum field enters the plain sum as one term: the rest of the header sums as with the field zeroed. */
  lemma ChecksumFieldAdds(h: Header)
    requires WellFormed(h)
    ensures Sum(WireWords(h)) == Sum(WireWords(h.(hdrChecksum := 0))) + h.hdrChecksum
  {
    WireSum(h);
    WireSum(h.(hdrChecksum := 0));
  }

  /** A TCP header from 10.0.0.1 to 10.0.0.2 with TTL 64. */
  const TCP_EXAMPLE: Header := Header(4, 5, 0, 20, 0, 0, 0, 64, 6, 0x66E2, 0x0A00_0001, 0x0A00_0002)

  /** The example header's checksum 0x66E2 is correct, and it is what a sender computes. */
  lemma TcpExampleAccepted(littleEndianHost: bool)
    ensures ComputeChecksum(TCP_EXAMPLE) == 0x66E2
    ensures VerifyIpv4Checksum(littleEndianHost, TCP_EXAMPLE) == 1
  {
    var h0 := TCP_EXAMPLE.(hdrChecksum := 0);
    WireSum(h0);
    assert h0.srcAddr / 0x1_0000 == 0x0A00 && h0.srcAddr % 0x1_0000 == 1;
    assert h0.dstAddr / 0x1_0000 == 0x0A00 && h0.dstAddr % 0x1_0000 == 2;
    assert Sum(WireWords(h0)) == 0x991D;
    DeferredCarries(WireWords(h0));
    assert Fold(0x991D) == 0x991D;
    assert TCP_EXAMPLE.(hdrChecksum := ComputeChecksum(TCP_EXAMPLE)) == TCP_EXAMPLE;
    ChecksumRoundTrip(littleEndianHost, TCP_EXAMPLE);
  }

  /** Lowering the TTL to 63 without updating the checksum makes the same header fail. */
  lemma TcpExampleTtlChangedRejected(littleEndianHost: bool)
    ensures VerifyIpv4Checksum(littleEndianHost, TCP_EXAMPLE.(ttl := 63)) == 0
  {
    var h := TCP_EXAMPLE.(ttl := 63);
    WireSum(h);
    assert h.srcAddr / 0x1_0000 == 0x0A00 && h.srcAddr % 0x1_0000 == 1;
    assert h.dstAddr / 0x1_0000 == 0x0A00 && h.dstAddr % 0x1_0000 == 2;
    assert Sum(WireWords(h)) == 0xFEFF;
    VerdictClosedForm(littleEndianHost, h);
  }

  /** The header with every field zero. */
  const ZERO_HEADER: Header := Header(0, 0, 0, 0, 0, 0, 0, 0, 0, 0, 0, 0)

  /** The all-zero header's checksum is 0xFFFF, not 0, and with it the header passes. */
  lemma ZeroHeaderChecksum(littleEndianHost: bool)
    ensures ComputeChecksum(ZERO_HEADER) == 0xFFFF
    ensures VerifyIpv4Checksum(littleEndianHost, ZERO_HEADER.(hdrChecksum := 0xFFFF)) == 1
  {
    var h := ZERO_HEADER;
    assert h.(hdrChecksum := 0) == h;
    WireSum(h);
    assert Sum(WireWords(h)) == 0;
    DeferredCarries(WireWords(h));
    assert OnesComplementSum(WireWords(h)) == 0;
    assert ComputeChecksum(h) == 0xFFFF;
    ChecksumRoundTrip(littleEndianHost, h);
    assert h.(hdrChecksum := ComputeChecksum(h)) == h.(hdrChecksum := 0xFFFF);
  }

  /** With checksum 0 the all-zero header fails: its words sum to zero, not to 0xFFFF. */
  lemma ZeroHeaderRejected(littleEndianHost: bool)
    ensures VerifyIpv4Checksum(littleEndianHost, ZERO_HEADER) == 0
  {
    WireSum(ZERO_HEADER);
    VerdictClosedForm(littleEndianHost, ZERO_HEADER);
  }
}
