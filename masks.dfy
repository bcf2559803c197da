/**
 * The split enumeration of getBalanceOptions: masks over the ten roster indices, the
 * bitCount helper, the bit test `mask & (1 << i)`, and the combinatorics showing that the
 * kept masks are exactly the 126 canonical 5/5 partitions.
 */
module Masks {

  function Pow2(n: nat): (r: nat)
    ensures r >= 1
  {
    if n == 0 then 1 else 2 * Pow2(n - 1)
  }

  /** The digit character of a single binary digit. */
  function BinaryDigit(b: nat): char
    requires b < 2
  {
    if b == 0 then '0' else '1'
  }

  /** `m.toString(2)`: the binary numeral of m, most significant digit first, "0" for zero. */
  function Binary(m: nat): (r: string)
    ensures |r| >= 1
  {
    if m < 2 then [BinaryDigit(m)] else Binary(m / 2) + [BinaryDigit(m % 2)]
  }

  /** `s.replace(/0/g, "")`: s without its '0' characters. */
  function RemoveZeros(s: string): (r: string)
    ensures |r| <= |s|
    ensures '0' !in r
  {
    if s == [] then []
    else RemoveZeros(s[..|s| - 1]) + (if s[|s| - 1] == '0' then [] else [s[|s| - 1]])
  }

  /** bitCount: the length of the binary numeral once its zeros are removed. */
  function BitCount(m: nat): nat {
    |RemoveZeros(Binary(m))|
  }

  /** Reference population count: the number of one bits, by arithmetic. */
  function PopCount(m: nat): nat {
    if m == 0 then 0 else m % 2 + PopCount(m / 2)
  }

  /** `(mask & (1 << i)) != 0`: bit i of m is set. */
  predicate Bit(m: nat, i: nat) {
    if i == 0 then m % 2 == 1 else Bit(m / 2, i - 1)
  }

  /** The number of set bits among positions 0 .. n-1. */
  function PopBelow(m: nat, n: nat): nat {
    if n == 0 then 0 else PopBelow(m, n - 1) + (if Bit(m, n - 1) then 1 else 0)
  }

  /**
   * The filter of the enumeration loop, stated by arithmetic: five bits set, bit 0 (the
   * first roster entry) among them. The loop itself tests BitCount, which BitCountIsPopCount
   * shows to agree.
   */
  predicate Kept(m: nat) {
    PopCount(m) == 5 && Bit(m, 0)
  }

  /** The masks 0 .. hi-1 that the enumeration loop keeps, in the order it visits them. */
  function KeptMasks(hi: nat): seq<nat> {
    if hi == 0 then [] else KeptMasks(hi - 1) + (if Kept(hi - 1) then [hi - 1] else [])
  }

  /** Binomial coefficient by Pascal's rule. */
  function Binomial(n: nat, k: nat): nat {
    if k == 0 then 1 else if n == 0 then 0 else Binomial(n - 1, k - 1) + Binomial(n - 1, k)
  }

  /** The number of values below hi whose population count is k. */
  function CountPop(hi: nat, k: nat): nat {
    if hi == 0 then 0 else CountPop(hi - 1, k) + (if PopCount(hi - 1) == k then 1 else 0)
  }

  // ----- bitCount agrees with the arithmetic population count -----

  lemma {:induction false} RemoveZerosAppend(s: string, t: string)
    ensures |RemoveZeros(s + t)| == |RemoveZeros(s)| + |RemoveZeros(t)|
    decreases |t|
  {
    if t == [] {
      assert s + t == s;
    } else {
      var t' := t[..|t| - 1];
      assert (s + t)[..|s + t| - 1] == s + t';
      RemoveZerosAppend(s, t');
      assert |RemoveZeros(t)| == |RemoveZeros(t')| + (if t[|t| - 1] == '0' then 0 else 1);
    }
  }

  /** bitCount counts exactly the one bits of the mask. */
  lemma {:induction false} BitCountIsPopCount(m: nat)
    ensures BitCount(m) == PopCount(m)
    decreases m
  {
    if m >= 2 {
      BitCountIsPopCount(m / 2);
      RemoveZerosAppend(Binary(m / 2), [BinaryDigit(m % 2)]);
      assert RemoveZeros([BinaryDigit(m % 2)]) == RemoveZeros([]) + (if m % 2 == 0 then [] else [BinaryDigit(m % 2)]);
    } else {
      assert RemoveZeros([BinaryDigit(m)]) == RemoveZeros([]) + (if m == 0 then [] else [BinaryDigit(m)]);
    }
  }

  // ----- bits of a mask -----

  lemma {:induction false} PopBelowShift(m: nat, n: nat)
    ensures PopBelow(m, n + 1) == m % 2 + PopBelow(m / 2, n)
    decreases n
  {
    if n > 0 {
      PopBelowShift(m, n - 1);
    }
  }

  lemma {:induction false} BitAbove(m: nat, n: nat, i: nat)
    requires m < Pow2(n) && n <= i
    ensures !Bit(m, i)
    decreases i
  {
    if i > 0 {
      BitAbove(m / 2, if n == 0 then 0 else n - 1, i - 1);
    }
  }

  /** For a mask below 2^n, counting the set bits at positions below n gives its population count. */
  lemma {:induction false} PopBelowIsPopCount(m: nat, n: nat)
    requires m < Pow2(n)
    ensures PopBelow(m, n) == PopCount(m)
    decreases n
  {
    if n > 0 {
      PopBelowShift(m, n - 1);
      PopBelowIsPopCount(m / 2, n - 1);
    }
  }

  /** A mask below 2^n is determined by its bits at positions below n. */
  lemma {:induction false} BitsDetermineMask(m1: nat, m2: nat, n: nat)
    requires m1 < Pow2(n) && m2 < Pow2(n)
    requires forall i :: 0 <= i < n ==> Bit(m1, i) == Bit(m2, i)
    ensures m1 == m2
    decreases n
  {
    if n > 0 {
      forall i | 0 <= i < n - 1
        ensures Bit(m1 / 2, i) == Bit(m2 / 2, i)
      {
        assert Bit(m1, i + 1) == Bit(m2, i + 1);
      }
      BitsDetermineMask(m1 / 2, m2 / 2, n - 1);
      assert Bit(m1, 0) == Bit(m2, 0);
    }
  }

  /** Complementing a mask within n bits flips exactly its bits below n. */
  lemma {:induction false} ComplementBit(m: nat, n: nat, i: nat)
    requires m < Pow2(n) && i < n
    ensures Bit(Pow2(n) - 1 - m, i) == !Bit(m, i)
    decreases i
  {
    var c := Pow2(n) - 1 - m;
    assert c == 2 * (Pow2(n - 1) - 1 - m / 2) + (1 - m % 2);
    if i > 0 {
      ComplementBit(m / 2, n - 1, i - 1);
    }
  }

  /** Complementing within n bits turns a population count of k into n - k. */
  lemma {:induction false} ComplementPopCount(m: nat, n: nat)
    requires m < Pow2(n)
    ensures PopCount(Pow2(n) - 1 - m) == n - PopCount(m)
    decreases n
  {
    if n > 0 {
      var c := Pow2(n) - 1 - m;
      var h, b := Pow2(n - 1) - 1 - m / 2, 1 - m % 2;
      assert c == 2 * h + b;
      assert c % 2 == b && c / 2 == h;
      assert PopCount(c) == b + PopCount(h);
      assert PopCount(m) == m % 2 + PopCount(m / 2);
      ComplementPopCount(m / 2, n - 1);
      PopCountBound(m / 2, n - 1);
    }
  }

  lemma {:induction false} PopCountBound(m: nat, n: nat)
    requires m < Pow2(n)
    ensures PopCount(m) <= n
    decreases n
  {
    if n > 0 {
      PopCountBound(m / 2, n - 1);
    }
  }

  // ----- the kept masks -----

  lemma {:induction false} KeptMasksMembers(hi: nat)
    ensures forall m: nat :: m in KeptMasks(hi) <==> m < hi && Kept(m)
    decreases hi
  {
    if hi > 0 {
      KeptMasksMembers(hi - 1);
      var last := if Kept(hi - 1) then [hi - 1] else [];
      assert KeptMasks(hi) == KeptMasks(hi - 1) + last;
      forall m: nat
        ensures m in KeptMasks(hi) <==> m < hi && Kept(m)
      {
        assert m in KeptMasks(hi) <==> m in KeptMasks(hi - 1) || m in last;
      }
    }
  }

  /** The loop visits masks in ascending order, so each kept mask occurs once. */
  lemma {:induction false} KeptMasksIncreasing(hi: nat)
    ensures forall i, j :: 0 <= i < j < |KeptMasks(hi)| ==> KeptMasks(hi)[i] < KeptMasks(hi)[j]
    decreases hi
  {
    if hi > 0 {
      KeptMasksIncreasing(hi - 1);
      KeptMasksMembers(hi - 1);
      var p := KeptMasks(hi - 1);
      forall i | 0 <= i < |p|
        ensures p[i] < hi - 1
      {
        assert p[i] in p;
      }
    }
  }

  lemma {:induction false} CountPopDouble(half: nat, k: nat)
    ensures CountPop(2 * half, k) == CountPop(half, k) + (if k == 0 then 0 else CountPop(half, k - 1))
    decreases half
  {
    if half > 0 {
      CountPopDouble(half - 1, k);
      var h := half - 1;
      assert (2 * h) % 2 == 0 && (2 * h) / 2 == h;
      assert (2 * h + 1) % 2 == 1 && (2 * h + 1) / 2 == h;
      assert PopCount(2 * h) == PopCount(h);
      assert PopCount(2 * h + 1) == PopCount(h) + 1;
      assert 2 * half == 2 * h + 2;
      assert CountPop(2 * h + 2, k) == CountPop(2 * h + 1, k) + (if PopCount(2 * h + 1) == k then 1 else 0);
      assert CountPop(2 * h + 1, k) == CountPop(2 * h, k) + (if PopCount(2 * h) == k then 1 else 0);
    }
  }

  /** Exactly Binomial(n, k) values below 2^n have k bits set. */
  lemma {:induction false} CountPopBinomial(n: nat, k: nat)
    ensures CountPop(Pow2(n), k) == Binomial(n, k)
    decreases n
  {
    if n == 0 {
      assert CountPop(1, k) == (if k == 0 then 1 else 0);
    } else {
      CountPopDouble(Pow2(n - 1), k);
      CountPopBinomial(n - 1, k);
      if k > 0 {
        CountPopBinomial(n - 1, k - 1);
      }
    }
  }

  lemma KeptPair(h: nat)
    ensures !Kept(2 * h)
    ensures Kept(2 * h + 1) <==> PopCount(h) == 4
  {
    var m := 2 * h + 1;
    assert m % 2 == 1 && m / 2 == h;
    assert (2 * h) % 2 == 0;
    assert PopCount(m) == 1 + PopCount(h);
  }

  lemma KeptMasksPairStep(h: nat)
    ensures |KeptMasks(2 * h + 2)| == |KeptMasks(2 * h)| + (if PopCount(h) == 4 then 1 else 0)
  {
    KeptPair(h);
    assert KeptMasks(2 * h + 1) == KeptMasks(2 * h);
    assert |KeptMasks(2 * h + 2)| == |KeptMasks(2 * h + 1)| + (if Kept(2 * h + 1) then 1 else 0);
  }

  lemma {:induction false} KeptMasksCountPop(half: nat)
    ensures |KeptMasks(2 * half)| == CountPop(half, 4)
    decreases half
  {
    if half > 0 {
      var h := half - 1;
      KeptMasksCountPop(h);
      KeptMasksPairStep(h);
      assert 2 * half == 2 * h + 2;
      assert CountPop(half, 4) == CountPop(h, 4) + (if PopCount(h) == 4 then 1 else 0);
    }
  }

  /**
   * For the ten-entry roster (n = 10, so the loop runs to 1 << n = 1024) the enumeration
   * keeps C(9,4) = 126 masks, half of the C(10,5) = 252 five-element subsets.
   */
  lemma KeptMaskCount(n: nat)
    requires n == 10
    ensures |KeptMasks(Pow2(n))| == 126
  {
    assert Pow2(n) == 2 * Pow2(n - 1);
    KeptMasksCountPop(Pow2(n - 1));
    CountPopBinomial(n - 1, 4);
    NineChooseFour(n - 1);
  }

  /*
   * C(9,4) = 126 row by row of Pascal's triangle. The row index is a parameter rather than a
   * literal so that the verifier follows these steps instead of unfolding Binomial on its own.
   */

  lemma FifthRow(n: nat)
    requires n == 4
    ensures Binomial(n, 0) == 1 && Binomial(n, 1) == 4 && Binomial(n, 2) == 6
    ensures Binomial(n, 3) == 4 && Binomial(n, 4) == 1
  {
    assert Binomial(1, 0) == 1 && Binomial(1, 1) == 1;
  }

  lemma NextRow(n: nat, c0: nat, c1: nat, c2: nat, c3: nat, c4: nat)
    requires n >= 1
    requires Binomial(n - 1, 0) == c0 && Binomial(n - 1, 1) == c1 && Binomial(n - 1, 2) == c2
    requires Binomial(n - 1, 3) == c3 && Binomial(n - 1, 4) == c4
    ensures Binomial(n, 0) == 1 && Binomial(n, 1) == c0 + c1 && Binomial(n, 2) == c1 + c2
    ensures Binomial(n, 3) == c2 + c3 && Binomial(n, 4) == c3 + c4
  {
  }

  lemma NineChooseFour(n: nat)
    requires n == 9
    ensures Binomial(n, 4) == 126
  {
    var m := n - 5;
    FifthRow(m);
    NextRow(m + 1, 1, 4, 6, 4, 1);
    NextRow(m + 2, 1, 5, 10, 10, 5);
    NextRow(m + 3, 1, 6, 15, 20, 15);
    NextRow(m + 4, 1, 7, 21, 35, 35);
    NextRow(m + 5, 1, 8, 28, 56, 70);
  }

  /**
   * Every five-element subset of the ten indices, given as a mask m, is enumerated either
   * as itself or as its complement, never both: each unordered 5/5 partition appears once.
   */
  lemma PartitionEnumeratedOnce(n: nat, m: nat)
    requires n == 10 && m < Pow2(n) && PopCount(m) == 5
    ensures PopCount(Pow2(n) - 1 - m) == 5
    ensures (m in KeptMasks(Pow2(n))) != ((Pow2(n) - 1 - m) in KeptMasks(Pow2(n)))
  {
    KeptComplement(n, m);
    KeptMasksMembers(Pow2(n));
  }

  lemma KeptComplement(n: nat, m: nat)
    requires n == 10 && m < Pow2(n) && PopCount(m) == 5
    ensures PopCount(Pow2(n) - 1 - m) == 5
    ensures Kept(m) != Kept(Pow2(n) - 1 - m)
  {
    ComplementPopCount(m, n);
    ComplementBit(m, n, 0);
  }

  /**
   * Every kept mask lies below 1 << n, has bit 0 set and five of its n bits set, and sets no
   * bit at a position n or above, so it deals only roster indices.
   */
  lemma KeptMaskBits(n: nat, m: nat)
    requires m in KeptMasks(Pow2(n))
    ensures m < Pow2(n) && Bit(m, 0)
    ensures PopBelow(m, n) == 5
    ensures forall i: nat :: n <= i ==> !Bit(m, i)
  {
    KeptMasksMembers(Pow2(n));
    PopBelowIsPopCount(m, n);
    forall i: nat | n <= i
      ensures !Bit(m, i)
    {
      BitAbove(m, n, i);
    }
  }

  // ----- index sets and the masks that deal them -----

  /** The indices 0 .. n-1. */
  function Below(n: nat): set<nat> {
    if n == 0 then {} else Below(n - 1) + {n - 1}
  }

  lemma {:induction false} BelowMembers(n: nat)
    ensures forall i: nat :: i in Below(n) <==> i < n
    decreases n
  {
    if n > 0 {
      BelowMembers(n - 1);
    }
  }

  /** The indices below n whose bit is set in m: the Radiant indices of the mask. */
  function BitSet(m: nat, n: nat): set<nat> {
    set i: nat | i < n && Bit(m, i)
  }

  /** The mask whose bit i is bits[i]. */
  function MaskOf(bits: seq<bool>): nat {
    if bits == [] then 0 else (if bits[0] then 1 else 0) + 2 * MaskOf(bits[1..])
  }

  lemma {:induction false} MaskOfBits(bits: seq<bool>)
    ensures MaskOf(bits) < Pow2(|bits|)
    ensures forall i :: 0 <= i < |bits| ==> Bit(MaskOf(bits), i) == bits[i]
    decreases |bits|
  {
    if bits != [] {
      var m, r := MaskOf(bits), MaskOf(bits[1..]);
      var low := if bits[0] then 1 else 0;
      MaskOfBits(bits[1..]);
      assert m == low + 2 * r;
      assert m % 2 == low && m / 2 == r;
      forall i | 0 < i < |bits|
        ensures Bit(m, i) == bits[i]
      {
        assert Bit(m, i) == Bit(r, i - 1);
        assert bits[1..][i - 1] == bits[i];
      }
    }
  }

  /** Every set of indices below n is the bit set of some mask below 2^n. */
  lemma MaskForSet(n: nat, s: set<nat>) returns (m: nat)
    requires s <= Below(n)
    ensures m < Pow2(n) && BitSet(m, n) == s
  {
    var bits := seq(n, i requires 0 <= i < n => i in s);
    BelowMembers(n);
    m := MaskOf(bits);
    MaskOfBits(bits);
    forall i: nat
      ensures i in BitSet(m, n) <==> i in s
    {
      if i < n {
        assert Bit(m, i) == bits[i];
      }
    }
  }

  /** The number of set bits below n is the size of the bit set. */
  lemma {:induction false} BitSetCard(m: nat, n: nat)
    ensures |BitSet(m, n)| == PopBelow(m, n)
    decreases n
  {
    if n > 0 {
      BitSetCard(m, n - 1);
      var top := if Bit(m, n - 1) then {n - 1} else {};
      assert BitSet(m, n) == BitSet(m, n - 1) + top;
      assert n - 1 !in BitSet(m, n - 1);
    }
  }

  /** Complementing a mask within n bits complements its bit set within the indices below n. */
  lemma ComplementBitSet(m: nat, n: nat)
    requires m < Pow2(n)
    ensures BitSet(Pow2(n) - 1 - m, n) == Below(n) - BitSet(m, n)
  {
    BelowMembers(n);
    forall i: nat | i < n
      ensures Bit(Pow2(n) - 1 - m, i) == !Bit(m, i)
    {
      ComplementBit(m, n, i);
    }
  }

  /** Masks below 2^n with the same bit set are equal. */
  lemma BitSetDetermines(m1: nat, m2: nat, n: nat)
    requires m1 < Pow2(n) && m2 < Pow2(n) && BitSet(m1, n) == BitSet(m2, n)
    ensures m1 == m2
  {
    forall i | 0 <= i < n
      ensures Bit(m1, i) == Bit(m2, i)
    {
      assert i in BitSet(m1, n) <==> i in BitSet(m2, n);
    }
    BitsDetermineMask(m1, m2, n);
  }

  /** The mask deals s to one side: its bit set is s or the rest of the indices below n. */
  predicate Deals(m: nat, n: nat, s: set<nat>) {
    BitSet(m, n) == s || BitSet(m, n) == Below(n) - s
  }

  /** A mask below 2^n that deals the other side from m is the complement of m. */
  lemma OppositeIsComplement(n: nat, m1: nat, m2: nat)
    requires m1 < Pow2(n) && m2 < Pow2(n) && BitSet(m2, n) == Below(n) - BitSet(m1, n)
    ensures m2 == Pow2(n) - 1 - m1
  {
    ComplementBitSet(m1, n);
    BitSetDetermines(Pow2(n) - 1 - m1, m2, n);
  }

  /**
   * Two masks that deal opposite sides are never both kept: exactly one of them has bit 0 set,
   * so exactly one puts the first roster entry in Radiant.
   */
  lemma OppositeNotBothKept(n: nat, m1: nat, m2: nat)
    requires 0 < n && m1 < Pow2(n) && m2 < Pow2(n)
    ensures BitSet(m2, n) == Below(n) - BitSet(m1, n) ==> !(Kept(m1) && Kept(m2))
  {
    if BitSet(m2, n) == Below(n) - BitSet(m1, n) {
      OppositeIsComplement(n, m1, m2);
      ComplementBit(m1, n, 0);
    }
  }

  /** Two kept masks that deal the same set are the same mask. */
  lemma KeptDealsOnce(n: nat, s: set<nat>, m1: nat, m2: nat)
    requires 0 < n && m1 < Pow2(n) && m2 < Pow2(n) && Kept(m1) && Kept(m2)
    requires Deals(m1, n, s) && Deals(m2, n, s)
    ensures m1 == m2
  {
    OppositeNotBothKept(n, m1, m2);
    OppositeNotBothKept(n, m2, m1);
    assert BitSet(m1, n) == BitSet(m2, n);
    BitSetDetermines(m1, m2, n);
  }

  /**
   * Each five-element set of the ten indices is dealt by exactly one kept mask, at exactly
   * one place of the enumeration: every unordered 5/5 partition appears once.
   */
  lemma SubsetDealtOnce(n: nat, s: set<nat>)
    requires n == 10 && s <= Below(n) && |s| == 5
    ensures exists k :: 0 <= k < |KeptMasks(Pow2(n))| && Deals(KeptMasks(Pow2(n))[k], n, s)
    ensures forall j, k ::
              (0 <= j < |KeptMasks(Pow2(n))| && 0 <= k < |KeptMasks(Pow2(n))|
               && Deals(KeptMasks(Pow2(n))[j], n, s) && Deals(KeptMasks(Pow2(n))[k], n, s)) ==> j == k
  {
    SubsetDealt(n, s);
    DealtAtMostOnce(n, s);
  }

  /** Some kept mask deals a given five-element set of the ten indices. */
  lemma SubsetDealt(n: nat, s: set<nat>)
    requires n == 10 && s <= Below(n) && |s| == 5
    ensures exists m :: m in KeptMasks(Pow2(n)) && Deals(m, n, s)
  {
    var m := MaskForSet(n, s);
    BitSetCard(m, n);
    PopBelowIsPopCount(m, n);
    PartitionEnumeratedOnce(n, m);
    if m in KeptMasks(Pow2(n)) {
      assert Deals(m, n, s);
    } else {
      ComplementBitSet(m, n);
      assert Deals(Pow2(n) - 1 - m, n, s);
    }
  }

  /** No two places of the enumeration deal the same set. */
  lemma DealtAtMostOnce(n: nat, s: set<nat>)
    requires 0 < n
    ensures forall j, k ::
              (0 <= j < |KeptMasks(Pow2(n))| && 0 <= k < |KeptMasks(Pow2(n))|
               && Deals(KeptMasks(Pow2(n))[j], n, s) && Deals(KeptMasks(Pow2(n))[k], n, s)) ==> j == k
  {
    var masks := KeptMasks(Pow2(n));
    KeptMasksMembers(Pow2(n));
    KeptMasksIncreasing(Pow2(n));
    forall j, k | 0 <= j < |masks| && 0 <= k < |masks| && Deals(masks[j], n, s) && Deals(masks[k], n, s)
      ensures j == k
    {
      assert masks[j] in masks && masks[k] in masks;
      KeptDealsOnce(n, s, masks[j], masks[k]);
    }
  }
}
