/**
 * The IPv4 header of section 3.1 of RFC 791, as the parsed record the
 * checksum routine receives, and its on-wire layout.
 *
 * Field values are numbers as the host holds them; the width of each field
 * on the wire is a precondition (`WellFormed`). `HeaderBytes` lays the
 * fields out as the twenty bytes of the option-free header, and `WireWords`
 * reads them back as the ten big-endian 16-bit words the Internet checksum
 * covers.
 */
module Ipv4 {
  import opened ByteOrder
  import opened OnesComplement

  datatype Header = Header(
    version: nat,
    ihl: nat,
    diffserv: nat,
    totalLen: nat,
    identification: nat,
    flags: nat,
    fragOffset: nat,
    ttl: nat,
    protocol: nat,
    hdrChecksum: nat,
    srcAddr: nat,
    dstAddr: nat)

  /** Every field fits the width RFC 791 gives it. */
  predicate WellFormed(h: Header)
  {
    && h.version < 0x10
    && h.ihl < 0x10
    && h.diffserv < 0x100
    && h.totalLen < 0x1_0000
    && h.identification < 0x1_0000
    && h.flags < 0x8
    && h.fragOffset < 0x2000
    && h.ttl < 0x100
    && h.protocol < 0x100
    && h.hdrChecksum < 0x1_0000
    && h.srcAddr < 0x1_0000_0000
    && h.dstAddr < 0x1_0000_0000
  }

  /**
   * The header's twenty bytes in transmission order: version in the high and
   * IHL in the low nibble of byte 0, flags in the top three bits of byte 6
   * above the fragment offset, multi-byte fields most significant byte first.
   */
  function HeaderBytes(h: Header): (bs: seq<nat>)
    requires WellFormed(h)
    ensures |bs| == 20
    ensures forall i :: 0 <= i < |bs| ==> bs[i] < 0x100
  {
    [ h.version * 0x10 + h.ihl, h.diffserv,
      h.totalLen / 0x100, h.totalLen % 0x100,
      h.identification / 0x100, h.identification % 0x100,
      h.flags * 0x20 + h.fragOffset / 0x100, h.fragOffset % 0x100,
      h.ttl, h.protocol,
      h.hdrChecksum / 0x100, h.hdrChecksum % 0x100 ]
    + BigEndian32(h.srcAddr) + BigEndian32(h.dstAddr)
  }

  /** Consecutive byte pairs read as big-endian 16-bit words. */
  function Words(bs: seq<nat>): (ws: seq<nat>)
    requires |bs| % 2 == 0
    requires forall i :: 0 <= i < |bs| ==> bs[i] < 0x100
    ensures |ws| == |bs| / 2 && AllWords(ws)
  {
    seq(|bs| / 2, i requires 0 <= i < |bs| / 2 => ReadBigEndian16(bs[2 * i .. 2 * i + 2]))
  }

  /** The ten 16-bit words of the header as they appear on the wire. */
  function WireWords(h: Header): (ws: seq<nat>)
    requires WellFormed(h)
    ensures |ws| == 10 && AllWords(ws)
  {
    Words(HeaderBytes(h))
  }

  /** Each wire word in terms of the fields packed into it. */
  lemma WireWordsByField(h: Header)
    requires WellFormed(h)
    ensures WireWords(h)[0] == h.version * 0x1000 + h.ihl * 0x100 + h.diffserv
    ensures WireWords(h)[1] == h.totalLen
    ensures WireWords(h)[2] == h.identification
    ensures WireWords(h)[3] == h.flags * 0x2000 + h.fragOffset
    ensures WireWords(h)[4] == h.ttl * 0x100 + h.protocol
    ensures WireWords(h)[5] == h.hdrChecksum
    ensures WireWords(h)[6] == h.srcAddr / 0x1_0000 && WireWords(h)[7] == h.srcAddr % 0x1_0000
    ensures WireWords(h)[8] == h.dstAddr / 0x1_0000 && WireWords(h)[9] == h.dstAddr % 0x1_0000
  {
    var bs := HeaderBytes(h);
    var ws := WireWords(h);
    assert forall i :: 0 <= i < 10 ==> ws[i] == bs[2 * i] * 0x100 + bs[2 * i + 1];
    AddressWords(h.srcAddr);
    AddressWords(h.dstAddr);
    assert ws[0] == h.version * 0x1000 + h.ihl * 0x100 + h.diffserv;
    assert ws[1] == h.totalLen;
    assert ws[2] == h.identification;
    assert ws[3] == h.flags * 0x2000 + h.fragOffset;
    assert ws[5] == h.hdrChecksum;
    assert bs[12] == BigEndian32(h.srcAddr)[0] && bs[13] == BigEndian32(h.srcAddr)[1];
    assert bs[14] == BigEndian32(h.srcAddr)[2] && bs[15] == BigEndian32(h.srcAddr)[3];
    assert bs[16] == BigEndian32(h.dstAddr)[0] && bs[17] == BigEndian32(h.dstAddr)[1];
    assert bs[18] == BigEndian32(h.dstAddr)[2] && bs[19] == BigEndian32(h.dstAddr)[3];
  }

  /** The two words an address occupies on the wire are its high and low halves. */
  lemma AddressWords(a: nat)
    requires a < 0x1_0000_0000
    ensures BigEndian32(a)[0] * 0x100 + BigEndian32(a)[1] == a / 0x1_0000
    ensures BigEndian32(a)[2] * 0x100 + BigEndian32(a)[3] == a % 0x1_0000
  {
    SplitBytes(a);
  }
}
