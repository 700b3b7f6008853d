/**
 * The Internet checksum arithmetic of RFC 1071: one's-complement addition of
 * 16-bit words with end-around carry.
 *
 * `OnesComplementSum` is the reference: words are added one at a time and
 * every carry out of bit 15 is added back at once. `Fold(Sum(ws))` is the
 * deferred form that implementations use: add into a wide accumulator and
 * fold the carries in at the end. The lemmas prove the two agree (section
 * 2(C) of RFC 1071), that byte-swapping every word byte-swaps the result
 * (section 2(B)), and a closed form for the all-ones result.
 */
module OnesComplement {
  import opened ByteOrder

  /** 2^16 - 1: 2^16 is congruent to 1 modulo it, which is why end-around carry works. */
  const MODULUS: nat := 0xFFFF

  /** Every element fits in 16 bits. */
  predicate AllWords(ws: seq<nat>)
  {
    forall i :: 0 <= i < |ws| ==> ws[i] < 0x1_0000
  }

  /** The plain sum of a sequence, with no carry discarded. */
  function Sum(ws: seq<nat>): nat
  {
    if |ws| == 0 then 0 else ws[0] + Sum(ws[1..])
  }

  /** Every word byte-swapped. */
  function Swapped(ws: seq<nat>): (r: seq<nat>)
    requires AllWords(ws)
    ensures |r| == |ws| && AllWords(r)
  {
    seq(|ws|, i requires 0 <= i < |ws| => Swap16(ws[i]))
  }

  /** Adding a multiple of the modulus does not change the residue. */
  lemma ModAddMultiple(s: int, k: int)
    ensures (MODULUS * k + s) % MODULUS == s % MODULUS
  {
  }

  /** Residues add. */
  lemma CongruentAdd(a: nat, b: nat, a': nat, b': nat)
    requires a % MODULUS == a' % MODULUS && b % MODULUS == b' % MODULUS
    ensures (a + b) % MODULUS == (a' + b') % MODULUS
  {
    assert a + b == MODULUS * (a / MODULUS + b / MODULUS) + (a % MODULUS + b % MODULUS);
    assert a' + b' == MODULUS * (a' / MODULUS + b' / MODULUS) + (a % MODULUS + b % MODULUS);
    ModAddMultiple(a % MODULUS + b % MODULUS, a / MODULUS + b / MODULUS);
    ModAddMultiple(a % MODULUS + b % MODULUS, a' / MODULUS + b' / MODULUS);
  }

  /** Multiplying congruent values by 256 keeps them congruent. */
  lemma CongruentTimes256(a: nat, a': nat)
    requires a % MODULUS == a' % MODULUS
    ensures (0x100 * a) % MODULUS == (0x100 * a') % MODULUS
  {
    assert 0x100 * a == MODULUS * (0x100 * (a / MODULUS)) + 0x100 * (a % MODULUS);
    assert 0x100 * a' == MODULUS * (0x100 * (a' / MODULUS)) + 0x100 * (a % MODULUS);
    ModAddMultiple(0x100 * (a % MODULUS), 0x100 * (a / MODULUS));
    ModAddMultiple(0x100 * (a % MODULUS), 0x100 * (a' / MODULUS));
  }

  /**
   * A 16-bit value is determined by its residue and by whether it is zero:
   * one's-complement arithmetic on non-zero sums never yields the
   * all-zeros representation of zero.
   */
  lemma CanonicalUnique(a: nat, b: nat)
    requires a <= 0xFFFF && b <= 0xFFFF
    requires a % MODULUS == b % MODULUS
    requires a == 0 <==> b == 0
    ensures a == b
  {
  }

  /**
   * Repeatedly adds the carries above bit 15 back into the low 16 bits until
   * the value fits in 16 bits (the end-around carry of RFC 1071 applied to a
   * wide accumulator).
   */
  function Fold(x: nat): (r: nat)
    ensures r <= 0xFFFF
    ensures r % MODULUS == x % MODULUS
    ensures r == 0 <==> x == 0
    decreases x
  {
    if x < 0x1_0000 then x
    else
      ModAddMultiple(x % 0x1_0000 + x / 0x1_0000, x / 0x1_0000);
      Fold(x % 0x1_0000 + x / 0x1_0000)
  }

  /** One's-complement addition of two 16-bit words: add, then add any carry back in. */
  function OnesAdd(a: nat, b: nat): (r: nat)
    requires a <= 0xFFFF && b <= 0xFFFF
    ensures r <= 0xFFFF
    ensures r % MODULUS == (a + b) % MODULUS
    ensures r == 0 <==> a == 0 && b == 0
  {
    if a + b > 0xFFFF then a + b - 0x1_0000 + 1 else a + b
  }

  /** The one's-complement sum of a sequence of 16-bit words, carrying at every step. */
  function OnesComplementSum(ws: seq<nat>): (r: nat)
    requires AllWords(ws)
    ensures r <= 0xFFFF
  {
    if |ws| == 0 then 0 else OnesAdd(ws[0], OnesComplementSum(ws[1..]))
  }

  /** n words of at most 0xFFFF each sum to at most n * 0xFFFF. */
  lemma {:induction false} SumBound(ws: seq<nat>)
    requires AllWords(ws)
    ensures Sum(ws) <= |ws| * 0xFFFF
    decreases |ws|
  {
    if |ws| != 0 {
      SumBound(ws[1..]);
    }
  }

  /**
   * Deferring the carries changes nothing (section 2(C) of RFC 1071): the
   * step-by-step one's-complement sum equals the plain sum folded once at the end.
   */
  lemma {:induction false} DeferredCarries(ws: seq<nat>)
    requires AllWords(ws)
    ensures OnesComplementSum(ws) == Fold(Sum(ws))
    decreases |ws|
  {
    if |ws| != 0 {
      var rest := ws[1..];
      DeferredCarries(rest);
      var f := Fold(Sum(rest));
      CongruentAdd(ws[0], f, ws[0], Sum(rest));
      CanonicalUnique(OnesAdd(ws[0], f), Fold(Sum(ws)));
    }
  }

  /** Swapping the bytes of a word multiplies it by 256, modulo 0xFFFF. */
  lemma Swap16Congruent(x: nat)
    requires x < 0x1_0000
    ensures Swap16(x) % MODULUS == (0x100 * x) % MODULUS
  {
    assert 0x100 * x == MODULUS * (x / 0x100) + Swap16(x);
    ModAddMultiple(Swap16(x), x / 0x100);
  }

  /** Hence the sum of the byte-swapped words is 256 times the sum, modulo 0xFFFF. */
  lemma {:induction false} SwappedSumCongruent(ws: seq<nat>)
    requires AllWords(ws)
    ensures Sum(Swapped(ws)) % MODULUS == (0x100 * Sum(ws)) % MODULUS
    ensures Sum(Swapped(ws)) == 0 <==> Sum(ws) == 0
    decreases |ws|
  {
    if |ws| != 0 {
      var rest := ws[1..];
      assert Swapped(ws)[1..] == Swapped(rest);
      SwappedSumCongruent(rest);
      Swap16Congruent(ws[0]);
      Swap16Fixes(ws[0]);
      CongruentAdd(Swap16(ws[0]), Sum(Swapped(rest)), 0x100 * ws[0], 0x100 * Sum(rest));
      assert 0x100 * ws[0] + 0x100 * Sum(rest) == 0x100 * Sum(ws);
    }
  }

  /**
   * Byte-order independence (section 2(B) of RFC 1071): summing the
   * byte-swapped words and folding gives the byte-swapped folded sum.
   */
  lemma ByteOrderIndependence(ws: seq<nat>)
    requires AllWords(ws)
    ensures Fold(Sum(Swapped(ws))) == Swap16(Fold(Sum(ws)))
  {
    var f := Fold(Sum(ws));
    SwappedSumCongruent(ws);
    CongruentTimes256(Sum(ws), f);
    Swap16Congruent(f);
    Swap16Fixes(f);
    CanonicalUnique(Fold(Sum(Swapped(ws))), Swap16(f));
  }

  /** The folded sum is all ones exactly when the plain sum is a positive multiple of 0xFFFF. */
  lemma FoldAllOnes(x: nat)
    ensures Fold(x) == 0xFFFF <==> x > 0 && x % MODULUS == 0
  {
  }

  /**
   * Adding a 16-bit word c to a sum s gives a positive multiple of 0xFFFF
   * exactly when c is the complement of the folded sum, or when both the
   * folded sum and c are 0xFFFF (the two one's-complement zeros).
   */
  lemma ComplementCompletes(s: nat, c: nat)
    requires c <= 0xFFFF
    ensures s + c > 0 && (s + c) % MODULUS == 0
      <==> c == 0xFFFF - Fold(s) || (Fold(s) == 0xFFFF && c == 0xFFFF)
  {
    var f := Fold(s);
    CongruentAdd(s, c, f, c);
    assert s + c > 0 <==> f + c > 0;
    assert (f + c) % MODULUS == 0 <==> f + c == 0 || f + c == MODULUS || f + c == 2 * MODULUS;
  }

  /** Peeling one term off a suffix sum. */
  lemma SumStep(ws: seq<nat>, i: nat)
    requires i < |ws|
    ensures Sum(ws[i..]) == ws[i] + Sum(ws[i + 1..])
  {
    assert ws[i..][1..] == ws[i + 1..];
  }

  /** The sum of ten words written out term by term. */
  lemma SumOfTen(ws: seq<nat>)
    requires |ws| == 10
    ensures Sum(ws) == ws[0] + ws[1] + ws[2] + ws[3] + ws[4] + ws[5] + ws[6] + ws[7] + ws[8] + ws[9]
  {
    assert ws[0..] == ws;
    assert ws[10..] == [];
    SumStep(ws, 0); SumStep(ws, 1); SumStep(ws, 2); SumStep(ws, 3); SumStep(ws, 4);
    SumStep(ws, 5); SumStep(ws, 6); SumStep(ws, 7); SumStep(ws, 8); SumStep(ws, 9);
  }
}
