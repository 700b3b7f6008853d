# IPv4 header checksum verification, modelled in Dafny

This project models `verify_ipv4_checksum` from the P4 compiler's eBPF test
data. The C helper takes a parsed IPv4 header (section 3.1 of RFC 791) and
decides whether its header checksum is correct under the Internet checksum of
RFC 1071. Here is what it does:

- It packs the sub-byte fields into 16-bit words with shifts and ORs.
- It converts every word to network order with `bpf_htons`. The two
  addresses go through `bpf_ntohl` and are split into halves.
- It adds all ten words into a `u32` accumulator.
- It folds the carries back once, complements, truncates to `u16` and
  converts with `bpf_ntohs`.
- It returns 1 when the result is zero and 0 otherwise.

The model follows the C statement by statement, on a host of either byte
order:

- The byte order is a `littleEndianHost` flag. On a big-endian host the
  conversion macros are the identity. On a little-endian host they are
  `Swap16`/`Swap32`.
- Header fields are natural numbers. A `WellFormed` precondition gives each
  field the width RFC 791 gives it.
- The C operators `<<`, `>>`, `|`, `&`, `~`, the casts to narrower unsigned
  types and the 32-bit `+=` are defined on naturals in `Bits`.
  - `Or`, `And` and `Not` are defined bit by bit.
  - Fixed-width wrap-around is written out.

Each proof relates the routine to an independent reference. That reference
has two parts:

- The header's on-wire byte layout (`Ipv4.HeaderBytes`, read back as ten
  big-endian words by `Ipv4.WireWords`).
- The step-by-step one's-complement sum of RFC 1071
  (`OnesComplement.OnesComplementSum`).

The main results:

- The routine returns 1 exactly when the one's-complement sum of the ten wire
  words, checksum field included, is 0xFFFF. It returns 0 otherwise.
- The verdict does not depend on the host's byte order.
- For a header without options (IHL = 5), the routine accepts exactly the
  checksum a sender computes. It also accepts 0xFFFF in the one case where
  the computed checksum is 0, because 0xFFFF is the other one's-complement
  zero. Options are not part of the header record and are never summed.
- Folding the carries only once is enough. The ten-word sum is at most
  0x9FFF6, and one fold gives the wrong verdict only for the accumulator
  value 0xFFFFFFFF.

Modules: `Bits` (C operators), `ByteOrder` (the conversion macros and byte
layouts), `OnesComplement` (RFC 1071 arithmetic), `Ipv4` (the header and its
wire words), `ChecksumEbpf` (the routine and its properties).

The routine returns a `u8` that is 1 or 0, although the file's header comment
declares it as `bool verify_ipv4_checksum(in IPv4_h iphdr)`
(extern-checksum-ebpf.c:6). The model follows the definition and returns the
number.

## Model

| member | source | states |
|---|---|---|
| Bits.OrDisjoint | ci-test/testdata/extern_modules/extern-checksum-ebpf.c:19-23 | ORing a value shifted left by k bits with a value below 2^k is their sum, so the packed fields cannot overlap |
| Bits.AndLowMask | ci-test/testdata/extern_modules/extern-checksum-ebpf.c:30 | masking with 2^k - 1 (here `& 0xFFFF`) keeps exactly the value modulo 2^k |
| Bits.NotComplement | ci-test/testdata/extern_modules/extern-checksum-ebpf.c:30 | `~` on a w-bit value x is 2^w - 1 - x |
| Bits.Add32 | ci-test/testdata/extern_modules/extern-checksum-ebpf.c:20-28 | `+=` on the `u32` accumulator stays below 2^32, and adds exactly whenever the true sum fits in 32 bits |
| ByteOrder.Swap16Fixes | ci-test/testdata/extern_modules/extern-checksum-ebpf.c:30 | a byte swap maps 0 to 0 and 0xFFFF to 0xFFFF and no other word to either, so `bpf_ntohs` cannot change whether the residue is zero |
| ByteOrder.Swap32Halves | ci-test/testdata/extern_modules/extern-checksum-ebpf.c:25-28 | the 16-bit halves of a byte-reversed address are the byte-swapped halves of the original, in the opposite order |
| ByteOrder.Swap32Involution | ci-test/testdata/extern_modules/extern-checksum-ebpf.c:25-26 | reversing the bytes of a 32-bit value twice gives it back |
| ByteOrder.Htons | ci-test/testdata/extern_modules/extern-checksum-ebpf.c:19-24 | on either host, the value `bpf_htons` returns lies in memory with its bytes in network order (most significant first) |
| ByteOrder.Ntohs | ci-test/testdata/extern_modules/extern-checksum-ebpf.c:30 | `bpf_ntohs` returns the bytes the host keeps in memory read as a big-endian number |
| ByteOrder.Ntohl | ci-test/testdata/extern_modules/extern-checksum-ebpf.c:25-26 | `bpf_ntohl` returns the four bytes the host keeps in memory read as a big-endian number |
| ByteOrder.StoredBytes | ci-test/testdata/extern_modules/extern-checksum-ebpf.c:25-26 | reading an address's big-endian byte layout back gives the address, and reading the reversed layout gives its byte reversal |
| Ipv4.WireWordsByField | ci-test/testdata/extern_modules/extern-checksum-ebpf.c:19-28 | each of the ten big-endian words read off the header's RFC 791 byte layout is the field combination the routine builds for it; the address words are the high and low halves |
| OnesComplement.SumBound | ci-test/testdata/extern_modules/extern-checksum-ebpf.c:19-28 | n words of at most 0xFFFF sum to at most n * 0xFFFF |
| OnesComplement.SwappedSumCongruent | ci-test/testdata/extern_modules/extern-checksum-ebpf.c:19-30 | byte-swapping every word multiplies the sum by 256 modulo 0xFFFF, and the swapped sum is zero exactly when the original is |
| OnesComplement.DeferredCarries | ci-test/testdata/extern_modules/extern-checksum-ebpf.c:19-30 | adding into a wide accumulator and folding the carries in at the end equals the step-by-step one's-complement sum (section 2(C) of RFC 1071) |
| OnesComplement.ByteOrderIndependence | ci-test/testdata/extern_modules/extern-checksum-ebpf.c:19-30 | summing byte-swapped words and folding gives the byte-swapped folded sum (section 2(B) of RFC 1071) |
| OnesComplement.FoldAllOnes | ci-test/testdata/extern_modules/extern-checksum-ebpf.c:30-32 | the fully folded sum is 0xFFFF exactly when the plain sum is a positive multiple of 0xFFFF |
| OnesComplement.ComplementCompletes | ci-test/testdata/extern_modules/extern-checksum-ebpf.c:24 | adding a 16-bit word c to a sum gives a positive multiple of 0xFFFF exactly when c is the complement of the folded sum, or both are 0xFFFF |
| ChecksumEbpf.VersionIhlDiffservWordAdds | ci-test/testdata/extern_modules/extern-checksum-ebpf.c:19 | with fields in range, OR-ing version shifted left 12, ihl shifted left 8 and diffserv gives the sum of the three |
| ChecksumEbpf.VersionIhlDiffservWord | ci-test/testdata/extern_modules/extern-checksum-ebpf.c:19 | version shifted left 12, ihl shifted left 8 and diffserv, OR-ed together, give the first 16-bit word of the header's RFC 791 wire layout |
| ChecksumEbpf.FlagsFragOffsetWord | ci-test/testdata/extern_modules/extern-checksum-ebpf.c:22 | flags shifted left 13 OR-ed with fragOffset give the fourth wire word |
| ChecksumEbpf.TtlProtocolWord | ci-test/testdata/extern_modules/extern-checksum-ebpf.c:23 | ttl shifted left 8 OR-ed with protocol give the fifth wire word |
| ChecksumEbpf.AddressHalves | ci-test/testdata/extern_modules/extern-checksum-ebpf.c:25-28 | after `bpf_ntohl`, `>> 16` and `(u16)` give the address's two wire words in host order, swapped and exchanged on a little-endian host; the address adds the same as the two wire words through `bpf_htons` |
| ChecksumEbpf.AddressContribution | ci-test/testdata/extern_modules/extern-checksum-ebpf.c:25-28 | `(a >> 16) + (u16) a` for `a = bpf_ntohl(addr)` adds exactly the address's high and low wire words, each through `bpf_htons` |
| ChecksumEbpf.HeaderTerms | ci-test/testdata/extern_modules/extern-checksum-ebpf.c:19-24 | each of the six single-word terms is the matching wire word in host order, and the three packed words fit in 16 bits |
| ChecksumEbpf.AddressTerms | ci-test/testdata/extern_modules/extern-checksum-ebpf.c:25-28 | each address contributes its two wire words in host order |
| ChecksumEbpf.HeaderWordsSum | ci-test/testdata/extern_modules/extern-checksum-ebpf.c:19-24 | the six `u32` additions never wrap: the accumulator holds the exact sum of the first six wire words in host order |
| ChecksumEbpf.TenWordTotal | ci-test/testdata/extern_modules/extern-checksum-ebpf.c:27-28 | adding the two address pairs to the six-word sum in 32-bit arithmetic gives the exact sum of all ten words, at most 10 * 0xFFFF = 0x9FFF6 |
| ChecksumEbpf.Accumulator | ci-test/testdata/extern_modules/extern-checksum-ebpf.c:19-28 | the accumulator equals the plain sum of the ten wire words in host order and is at most 10 * 0xFFFF |
| ChecksumEbpf.FoldOnce | ci-test/testdata/extern_modules/extern-checksum-ebpf.c:30 | `(c & 0xFFFF) + (c >> 16)` is the low half plus the high half of c |
| ChecksumEbpf.ComplementLowHalf | ci-test/testdata/extern_modules/extern-checksum-ebpf.c:30 | `~y` truncated to `u16` is 0xFFFF minus the low half of y |
| ChecksumEbpf.Residue | ci-test/testdata/extern_modules/extern-checksum-ebpf.c:30 | `res` is zero exactly when the once-folded accumulator has all ones in its low 16 bits |
| ChecksumEbpf.OneFoldAllOnes | ci-test/testdata/extern_modules/extern-checksum-ebpf.c:30 | the once-folded value has all ones in its low 16 bits exactly when the accumulator is a positive multiple of 0xFFFF other than 0xFFFFFFFF |
| ChecksumEbpf.SingleFoldVerdict | ci-test/testdata/extern_modules/extern-checksum-ebpf.c:30 | one fold plus truncation agrees with the full end-around-carry fold for every 32-bit accumulator except 0xFFFFFFFF, where they disagree |
| ChecksumEbpf.HostWordsVerdict | ci-test/testdata/extern_modules/extern-checksum-ebpf.c:19-30 | the folded sum of the host-order words is 0xFFFF exactly when the one's-complement sum of the network-order words is, on either host |
| ChecksumEbpf.ResidueVerdict | ci-test/testdata/extern_modules/extern-checksum-ebpf.c:30-33 | for an exact accumulator below 0xFFFFFFFF, `res == 0` exactly when the one's-complement sum of the wire words is 0xFFFF |
| ChecksumEbpf.VerifyIpv4Checksum | ci-test/testdata/extern_modules/extern-checksum-ebpf.c:14-35 | the result is 0 or 1, and it is 1 exactly when the RFC 1071 one's-complement sum of the ten wire words, checksum included, is 0xFFFF |
| ChecksumEbpf.VerdictClosedForm | ci-test/testdata/extern_modules/extern-checksum-ebpf.c:18-34 | the header is accepted exactly when the plain sum of its ten wire words is non-zero and divisible by 0xFFFF |
| ChecksumEbpf.VerdictIndependentOfHostByteOrder | ci-test/testdata/extern_modules/extern-checksum-ebpf.c:19-30 | the verdict is the same on a big-endian and a little-endian host |
| ChecksumEbpf.WireSum | ci-test/testdata/extern_modules/extern-checksum-ebpf.c:19-28 | the plain sum of the ten wire words, written field by field, with each address contributing its high and low halves |
| ChecksumEbpf.ChecksumFieldAdds | ci-test/testdata/extern_modules/extern-checksum-ebpf.c:24 | the checksum field enters the sum as one term: the header sums to the same header with the field zeroed, plus the field |
| ChecksumEbpf.ComputeChecksum | ci-test/testdata/extern_modules/extern-checksum-ebpf.c:24 | the checksum a sender computes for an option-free header fits in 16 bits, and filling it in makes the plain sum of the ten wire words a positive multiple of 0xFFFF |
| ChecksumEbpf.ChecksumAcceptance | ci-test/testdata/extern_modules/extern-checksum-ebpf.c:14 | for an option-free header (IHL = 5), the routine accepts exactly the checksum a sender computes (section 3.1 of RFC 791), and 0xFFFF where the computed checksum is 0 |
| ChecksumEbpf.ChecksumRoundTrip | ci-test/testdata/extern_modules/extern-checksum-ebpf.c:14 | filling in the computed checksum makes every well-formed header pass |
| ChecksumEbpf.TcpExampleAccepted | ci-test/testdata/extern_modules/extern-checksum-ebpf.c:16-35 | the TCP header 10.0.0.1 to 10.0.0.2 with TTL 64 has computed checksum 0x66E2 and passes on either host |
| ChecksumEbpf.TcpExampleTtlChangedRejected | ci-test/testdata/extern_modules/extern-checksum-ebpf.c:16-35 | the same header with TTL 63 and the old checksum fails |
| ChecksumEbpf.ZeroHeaderChecksum | ci-test/testdata/extern_modules/extern-checksum-ebpf.c:16-35 | the all-zero header's computed checksum is 0xFFFF, not 0, and with it the header passes |
| ChecksumEbpf.ZeroHeaderRejected | ci-test/testdata/extern_modules/extern-checksum-ebpf.c:16-35 | the all-zero header with checksum 0 fails |

## Left out

- The layout and C field types of `struct IPv4_h` come from `test.h`, which
  is not part of this model. The header is a record of naturals, and
  `Ipv4.WellFormed` imposes the widths of RFC 791. The routine's `(u16)`
  casts of in-range fields change nothing, so they are not written out.
- The bodies of the libbpf byte-order macros are not modelled. Each macro is
  either the identity or a byte reversal, chosen by `littleEndianHost`.
- The following are outside the model: eBPF verifier and loader constraints,
  `static inline`, and the encoding of the `u8` result beyond the values 0
  and 1. So are the P4 compiler that generates and calls this helper and the
  continuous-integration scripts around it.
- Purity is not stated as a lemma. Every member is a Dafny function of its
  arguments, so equal headers give equal verdicts by construction.
- The claim that flipping a single bit makes the check fail "with
  overwhelming probability" is left out. The code does not promise it, and
  the one's-complement sum has known blind spots (for example, exchanging
  two words).
- ChecksumAcceptance: states acceptance only for the option-free header.
  IPv4 options are not part of the header record, and both the C and the
  model always sum exactly the ten fixed words. For IHL > 5 the options
  never enter the sum, so the accepted checksum is not the one RFC 791
  defines over the whole header.
