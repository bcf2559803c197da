/**
 * getBalanceOptions: split the first ten roster entries into two squads of five in every
 * canonical way, score each split by role coverage and rank gap, sort the splits and
 * return the best few.
 */
module BalanceView {
  import opened Types
  import opened Masks
  import opened Options

  function Min(a: int, b: int): int {
    if a <= b then a else b
  }

  function Abs(x: int): (r: nat)
    ensures r == x || r == -x
  {
    if x < 0 then -x else x
  }

  /**
   * The roster entries whose bit in mask is set (inRadiant) or clear (not inRadiant), in
   * ascending roster-index order: the contents of `radiant` or `dire` after the inner loop.
   */
  function Side(roster: seq<Player>, mask: nat, inRadiant: bool): seq<Player> {
    if roster == [] then []
    else Side(roster[..|roster| - 1], mask, inRadiant)
         + (if Bit(mask, |roster| - 1) == inRadiant then [roster[|roster| - 1]] else [])
  }

  /** The distinct position labels held by the members of a group. */
  function Labels(group: seq<Player>): set<Position> {
    if group == [] then {}
    else Labels(group[..|group| - 1]) + LabelSet(group[|group| - 1].positions)
  }

  /** `group.reduce((s, p) => s + p.rank, 0)`: the group's rank total, summed from the left. */
  function RankSum(group: seq<Player>): int {
    if group == [] then 0 else RankSum(group[..|group| - 1]) + group[|group| - 1].rank
  }

  /** The option the loop body records for one kept mask. */
  function MakeOption(roster: seq<Player>, mask: nat): BalanceOption {
    var radiant := Side(roster, mask, true);
    var dire := Side(roster, mask, false);
    BalanceOption(radiant, dire, |Labels(radiant)| + |Labels(dire)|, Abs(RankSum(radiant) - RankSum(dire)))
  }

  /** The options built for the given masks, in the same order. */
  function OptionsFor(roster: seq<Player>, masks: seq<nat>): (r: seq<BalanceOption>)
    ensures |r| == |masks|
  {
    if masks == [] then []
    else OptionsFor(roster, masks[..|masks| - 1]) + [MakeOption(roster, masks[|masks| - 1])]
  }

  /**
   * `allSplits` once the enumeration loop is done: one option per kept mask below
   * 1 << |roster|, ascending by mask.
   */
  function AllSplits(roster: seq<Player>): seq<BalanceOption> {
    OptionsFor(roster, KeptMasks(Pow2(|roster|)))
  }

  /** What getBalanceOptions returns. */
  function BalanceOptions(players: seq<Player>, maxOptions: nat): seq<BalanceOption> {
    var roster := players[..Min(10, |players|)];
    if |roster| < 10 then []
    else
      var sorted := InsertionSort(AllSplits(roster));
      sorted[..Min(maxOptions, |sorted|)]
  }

  lemma OptionsForNextMask(roster: seq<Player>, mask: nat)
    ensures OptionsFor(roster, KeptMasks(mask + 1))
         == OptionsFor(roster, KeptMasks(mask)) + (if Kept(mask) then [MakeOption(roster, mask)] else [])
  {
    if Kept(mask) {
      assert KeptMasks(mask + 1) == KeptMasks(mask) + [mask];
    } else {
      assert KeptMasks(mask + 1) == KeptMasks(mask);
    }
  }

  /** A mask the loop skips adds no option. */
  lemma SkippedMask(roster: seq<Player>, mask: nat)
    requires BitCount(mask) != 5 || !Bit(mask, 0)
    ensures OptionsFor(roster, KeptMasks(mask + 1)) == OptionsFor(roster, KeptMasks(mask))
  {
    BitCountIsPopCount(mask);
    OptionsForNextMask(roster, mask);
  }

  /** A mask the loop keeps adds its own option. */
  lemma KeptMask(roster: seq<Player>, mask: nat)
    requires BitCount(mask) == 5 && Bit(mask, 0)
    ensures OptionsFor(roster, KeptMasks(mask + 1)) == OptionsFor(roster, KeptMasks(mask)) + [MakeOption(roster, mask)]
  {
    BitCountIsPopCount(mask);
    OptionsForNextMask(roster, mask);
  }

  /** The roster indices below n whose bit in mask equals inRadiant, ascending. */
  function Indices(n: nat, mask: nat, inRadiant: bool): seq<nat> {
    if n == 0 then []
    else Indices(n - 1, mask, inRadiant) + (if Bit(mask, n - 1) == inRadiant then [n - 1] else [])
  }

  // ----- the two squads of one split -----

  /**
   * Indices lists exactly the indices below n whose bit equals inRadiant, each once, in
   * strictly ascending order.
   */
  lemma {:induction false} IndicesCharacterised(n: nat, mask: nat, inRadiant: bool)
    ensures forall i: nat :: i in Indices(n, mask, inRadiant) <==> i < n && Bit(mask, i) == inRadiant
    ensures forall j, k :: 0 <= j < k < |Indices(n, mask, inRadiant)|
              ==> Indices(n, mask, inRadiant)[j] < Indices(n, mask, inRadiant)[k]
  {
    if n > 0 {
      var init := Indices(n - 1, mask, inRadiant);
      IndicesCharacterised(n - 1, mask, inRadiant);
      var idx := Indices(n, mask, inRadiant);
      assert idx == init + (if Bit(mask, n - 1) == inRadiant then [n - 1] else []);
      forall j, k | 0 <= j < k < |idx|
        ensures idx[j] < idx[k]
      {
        if k < |init| {
          assert idx[j] == init[j] && idx[k] == init[k];
        } else {
          assert idx[j] == init[j] && init[j] in init;
        }
      }
    }
  }

  /**
   * The inner loop deals roster[i] to radiant exactly when bit i of the mask is set: each
   * squad is the roster read at the indices of its side, in ascending index order.
   */
  lemma {:induction false} SideAtIndices(roster: seq<Player>, mask: nat, inRadiant: bool)
    ensures |Side(roster, mask, inRadiant)| == |Indices(|roster|, mask, inRadiant)|
    ensures forall k :: 0 <= k < |Side(roster, mask, inRadiant)|
              ==> Indices(|roster|, mask, inRadiant)[k] < |roster|
                  && Side(roster, mask, inRadiant)[k] == roster[Indices(|roster|, mask, inRadiant)[k]]
  {
    if roster != [] {
      var init := roster[..|roster| - 1];
      SideAtIndices(init, mask, inRadiant);
      IndicesCharacterised(|init|, mask, inRadiant);
      forall k | 0 <= k < |Side(init, mask, inRadiant)|
        ensures Side(roster, mask, inRadiant)[k] == roster[Indices(|roster|, mask, inRadiant)[k]]
      {
        assert Indices(|init|, mask, inRadiant)[k] in Indices(|init|, mask, inRadiant);
      }
    }
  }

  /** The radiant squad has as many members as the mask has set bits among the roster's indices. */
  lemma {:induction false} SideSizes(roster: seq<Player>, mask: nat)
    ensures |Side(roster, mask, true)| == PopBelow(mask, |roster|)
    ensures |Side(roster, mask, true)| + |Side(roster, mask, false)| == |roster|
  {
    if roster != [] {
      SideSizes(roster[..|roster| - 1], mask);
    }
  }

  /** The two squads together hold every roster entry exactly as often as the roster does. */
  lemma {:induction false} SidesPermuteRoster(roster: seq<Player>, mask: nat)
    ensures multiset(Side(roster, mask, true)) + multiset(Side(roster, mask, false)) == multiset(roster)
  {
    if roster != [] {
      var init, last := roster[..|roster| - 1], roster[|roster| - 1];
      SidesPermuteRoster(init, mask);
      assert roster == init + [last];
      if Bit(mask, |roster| - 1) {
        assert Side(roster, mask, true) == Side(init, mask, true) + [last];
        assert Side(roster, mask, false) == Side(init, mask, false);
      } else {
        assert Side(roster, mask, true) == Side(init, mask, true);
        assert Side(roster, mask, false) == Side(init, mask, false) + [last];
      }
    }
  }

  /** With bit 0 set, the first roster entry leads the radiant squad. */
  lemma {:induction false} FirstInRadiant(roster: seq<Player>, mask: nat)
    requires roster != [] && Bit(mask, 0)
    ensures Side(roster, mask, true) != [] && Side(roster, mask, true)[0] == roster[0]
  {
    if |roster| > 1 {
      FirstInRadiant(roster[..|roster| - 1], mask);
    }
  }

  /** The complementary mask (n bits) deals the same two squads with their roles swapped. */
  lemma {:induction false} ComplementSwapsSides(roster: seq<Player>, mask: nat, inRadiant: bool)
    requires mask < Pow2(|roster|)
    ensures Side(roster, Pow2(|roster|) - 1 - mask, inRadiant) == Side(roster, mask, !inRadiant)
  {
    SideComplementPrefix(roster, mask, inRadiant, |roster|);
    assert roster[..|roster|] == roster;
  }

  lemma {:induction false} SideComplementPrefix(roster: seq<Player>, mask: nat, inRadiant: bool, j: nat)
    requires mask < Pow2(|roster|) && j <= |roster|
    ensures Side(roster[..j], Pow2(|roster|) - 1 - mask, inRadiant) == Side(roster[..j], mask, !inRadiant)
  {
    if j > 0 {
      SideComplementPrefix(roster, mask, inRadiant, j - 1);
      ComplementBit(mask, |roster|, j - 1);
      assert roster[..j][..j - 1] == roster[..j - 1];
    }
  }

  // ----- scores -----

  lemma RankSumAppend(group: seq<Player>, x: Player)
    ensures RankSum(group + [x]) == RankSum(group) + x.rank
  {
    assert (group + [x])[..|group|] == group;
  }

  lemma LabelsAppend(group: seq<Player>, x: Player)
    ensures Labels(group + [x]) == Labels(group) + LabelSet(x.positions)
  {
    assert (group + [x])[..|group|] == group;
  }

  /** The rank sums of the two squads add up to the rank sum of the whole roster. */
  lemma {:induction false} RankSumSplit(roster: seq<Player>, mask: nat)
    ensures RankSum(Side(roster, mask, true)) + RankSum(Side(roster, mask, false)) == RankSum(roster)
  {
    if roster != [] {
      var init := roster[..|roster| - 1];
      var x := roster[|roster| - 1];
      var b := Bit(mask, |roster| - 1);
      RankSumSplit(init, mask);
      RankSumAppend(Side(init, mask, b), x);
      assert Side(roster, mask, b) == Side(init, mask, b) + [x];
      assert Side(roster, mask, !b) == Side(init, mask, !b);
    }
  }

  /** A label belongs to a group's coverage set exactly when some member lists it. */
  lemma {:induction false} LabelsMembers(group: seq<Player>)
    ensures forall p :: p in Labels(group) <==> exists k :: 0 <= k < |group| && p in group[k].positions
  {
    if group != [] {
      var init := group[..|group| - 1];
      LabelsMembers(init);
      forall p | p in Labels(group)
        ensures exists k :: 0 <= k < |group| && p in group[k].positions
      {
        if p !in Labels(init) {
          assert p in group[|group| - 1].positions;
        } else {
          var k :| 0 <= k < |init| && p in init[k].positions;
          assert group[k] == init[k];
        }
      }
      forall p | exists k :: 0 <= k < |group| && p in group[k].positions
        ensures p in Labels(group)
      {
        var k :| 0 <= k < |group| && p in group[k].positions;
        if k < |init| {
          assert init[k] == group[k];
        }
      }
    }
  }

  /** Every label a squad covers is listed by some roster entry. */
  lemma {:induction false} SideLabels(roster: seq<Player>, mask: nat, inRadiant: bool)
    ensures Labels(Side(roster, mask, inRadiant)) <= Labels(roster)
  {
    if roster != [] {
      var init := roster[..|roster| - 1];
      var x := roster[|roster| - 1];
      SideLabels(init, mask, inRadiant);
      assert Labels(roster) == Labels(init) + LabelSet(x.positions);
      if Bit(mask, |roster| - 1) == inRadiant {
        LabelsAppend(Side(init, mask, inRadiant), x);
        assert Side(roster, mask, inRadiant) == Side(init, mask, inRadiant) + [x];
      } else {
        assert Side(roster, mask, inRadiant) == Side(init, mask, inRadiant);
      }
    }
  }

  lemma {:induction false} SubsetCard<T>(a: set<T>, b: set<T>)
    requires a <= b
    ensures |a| <= |b|
    decreases |b|
  {
    if b != {} {
      var x :| x in b;
      SubsetCard(a - {x}, b - {x});
    }
  }

  /** A group whose members list only role labels covers at most the five roles. */
  lemma CoverageAtMostFive(group: seq<Player>)
    requires AllLabelsValid(group)
    ensures |Labels(group)| <= 5
  {
    LabelsMembers(group);
    forall p | p in Labels(group)
      ensures p in ValidPositions
    {
      var k :| 0 <= k < |group| && p in group[k].positions;
      assert IsValidPosition(p);
    }
    SubsetCard(Labels(group), ValidPositions);
    ValidPositionsCount();
  }

  /**
   * The scores of one split: the coverage is the sum of the two squads' distinct label
   * counts, between 0 and 10 when all labels are role labels, and diff is the distance of
   * the radiant rank sum from half the roster's total, never negative.
   */
  lemma SplitScores(roster: seq<Player>, mask: nat)
    ensures MakeOption(roster, mask).totalCoverage
         == |Labels(MakeOption(roster, mask).radiant)| + |Labels(MakeOption(roster, mask).dire)|
    ensures AllLabelsValid(roster) ==> 0 <= MakeOption(roster, mask).totalCoverage <= 10
    ensures MakeOption(roster, mask).diff == Abs(2 * RankSum(MakeOption(roster, mask).radiant) - RankSum(roster))
    ensures MakeOption(roster, mask).diff >= 0
  {
    RankSumSplit(roster, mask);
    if AllLabelsValid(roster) {
      CoverageAtMostTen(roster, mask);
    }
  }

  lemma CoverageAtMostTen(roster: seq<Player>, mask: nat)
    requires AllLabelsValid(roster)
    ensures |Labels(Side(roster, mask, true))| + |Labels(Side(roster, mask, false))| <= 10
  {
    SideValid(roster, mask, true);
    SideValid(roster, mask, false);
    CoverageAtMostFive(Side(roster, mask, true));
    CoverageAtMostFive(Side(roster, mask, false));
  }

  lemma SideValid(roster: seq<Player>, mask: nat, inRadiant: bool)
    requires AllLabelsValid(roster)
    ensures AllLabelsValid(Side(roster, mask, inRadiant))
  {
    SideAtIndices(roster, mask, inRadiant);
    var side := Side(roster, mask, inRadiant);
    forall k, p | 0 <= k < |side| && p in side[k].positions
      ensures IsValidPosition(p)
    {
      assert side[k] == roster[Indices(|roster|, mask, inRadiant)[k]];
    }
  }

  // ----- the 126 splits -----

  lemma {:induction false} OptionsForAt(roster: seq<Player>, masks: seq<nat>)
    ensures forall k :: 0 <= k < |masks| ==> OptionsFor(roster, masks)[k] == MakeOption(roster, masks[k])
  {
    if masks != [] {
      OptionsForAt(roster, masks[..|masks| - 1]);
    }
  }

  /**
   * A ten-entry roster yields 126 splits; the k-th comes from the k-th kept mask, which has
   * bit 0 and five bits set, and deals two squads of five that together permute the roster,
   * the first roster entry leading the radiant squad.
   */
  lemma AllSplitsShape(roster: seq<Player>)
    requires |roster| == 10
    ensures |AllSplits(roster)| == 126
    ensures forall k :: 0 <= k < 126 ==>
              var o := AllSplits(roster)[k];
              var m := KeptMasks(Pow2(|roster|))[k];
              o == MakeOption(roster, m) && Kept(m) && m < Pow2(|roster|)
              && |o.radiant| == 5 && |o.dire| == 5
              && multiset(o.radiant) + multiset(o.dire) == multiset(roster)
              && o.radiant[0] == roster[0]
  {
    var masks := KeptMasks(Pow2(|roster|));
    KeptMaskCount(|roster|);
    OptionsForAt(roster, masks);
    KeptMasksMembers(Pow2(|roster|));
    forall k | 0 <= k < 126
      ensures var o := AllSplits(roster)[k];
              var m := masks[k];
              o == MakeOption(roster, m) && Kept(m) && m < Pow2(|roster|)
              && |o.radiant| == 5 && |o.dire| == 5
              && multiset(o.radiant) + multiset(o.dire) == multiset(roster)
              && o.radiant[0] == roster[0]
    {
      var m := masks[k];
      assert m in masks;
      KeptMaskBits(|roster|, m);
      SideSizes(roster, m);
      SidesPermuteRoster(roster, m);
      FirstInRadiant(roster, m);
    }
  }

  /**
   * Every unordered 5/5 partition of the ten roster indices is enumerated exactly once: for
   * any mask with five of ten bits set, exactly one of it and its complement is kept, and the
   * two deal the same pair of squads, swapped.
   */
  lemma PartitionsEnumeratedOnce(roster: seq<Player>, mask: nat)
    requires |roster| == 10 && mask < Pow2(|roster|) && PopCount(mask) == 5
    ensures (mask in KeptMasks(Pow2(|roster|))) != ((Pow2(|roster|) - 1 - mask) in KeptMasks(Pow2(|roster|)))
    ensures Side(roster, Pow2(|roster|) - 1 - mask, true) == Side(roster, mask, false)
    ensures Side(roster, Pow2(|roster|) - 1 - mask, false) == Side(roster, mask, true)
  {
    PartitionEnumeratedOnce(|roster|, mask);
    ComplementSwapsSides(roster, mask, true);
    ComplementSwapsSides(roster, mask, false);
  }

  /** Split k of the enumeration puts the indices s, or the indices outside s, in Radiant. */
  predicate SplitDeals(roster: seq<Player>, k: nat, s: set<nat>)
    requires k < |KeptMasks(Pow2(|roster|))|
  {
    var radiant := set i | i in Indices(|roster|, KeptMasks(Pow2(|roster|))[k], true);
    radiant == s || radiant == Below(|roster|) - s
  }

  /** The Radiant indices of a mask are its bit set. */
  lemma RadiantIndexSet(n: nat, mask: nat)
    ensures (set i | i in Indices(n, mask, true)) == BitSet(mask, n)
  {
    IndicesCharacterised(n, mask, true);
  }

  /**
   * For every choice s of five of the ten roster indices, exactly one split k of allSplits
   * deals s to one side and the other five indices to the other.
   */
  lemma EachPartitionListedOnce(roster: seq<Player>, s: set<nat>)
    requires |roster| == 10 && s <= Below(|roster|) && |s| == 5
    ensures |AllSplits(roster)| == |KeptMasks(Pow2(|roster|))|
    ensures exists k :: 0 <= k < |AllSplits(roster)| && SplitDeals(roster, k, s)
    ensures forall j, k ::
              (0 <= j < |AllSplits(roster)| && 0 <= k < |AllSplits(roster)|
               && SplitDeals(roster, j, s) && SplitDeals(roster, k, s)) ==> j == k
  {
    var n := |roster|;
    var masks := KeptMasks(Pow2(n));
    forall k | 0 <= k < |masks|
      ensures SplitDeals(roster, k, s) <==> Deals(masks[k], n, s)
    {
      RadiantIndexSet(n, masks[k]);
    }
    SubsetDealtOnce(n, s);
  }

  // ----- what getBalanceOptions returns -----

  /** Fewer than ten entries give no options; only the first ten entries matter. */
  lemma FirstTenOnly(players: seq<Player>, maxOptions: nat)
    ensures |players| < 10 ==> BalanceOptions(players, maxOptions) == []
    ensures |players| >= 10 ==> BalanceOptions(players, maxOptions) == BalanceOptions(players[..10], maxOptions)
  {
    if |players| >= 10 {
      assert players[..10][..10] == players[..10];
    }
  }

  /** The result holds min(maxOptions, 126) options for a roster of ten or more. */
  lemma BalanceOptionsLength(players: seq<Player>, maxOptions: nat)
    ensures |BalanceOptions(players, maxOptions)| == if |players| < 10 then 0 else Min(maxOptions, 126)
  {
    if |players| >= 10 {
      var roster := players[..10];
      AllSplitsShape(roster);
      SortPermutes(AllSplits(roster));
    }
  }

  /** The result is ordered by coverage descending, then diff ascending. */
  lemma BalanceOptionsOrdered(players: seq<Player>, maxOptions: nat)
    ensures forall i, j :: 0 <= i < j < |BalanceOptions(players, maxOptions)| ==>
              var a := BalanceOptions(players, maxOptions)[i];
              var b := BalanceOptions(players, maxOptions)[j];
              a.totalCoverage > b.totalCoverage || (a.totalCoverage == b.totalCoverage && a.diff <= b.diff)
  {
    if |players| >= 10 {
      var sorted := InsertionSort(AllSplits(players[..10]));
      SortSorted(AllSplits(players[..10]));
      var r := BalanceOptions(players, maxOptions);
      assert r == sorted[..|r|];
      forall i, j | 0 <= i < j < |r|
        ensures Compare(r[i], r[j]) <= 0
      {
        assert r[i] == sorted[i] && r[j] == sorted[j];
      }
    }
  }

  /** Every option in the result is one of the splits of the first ten entries. */
  lemma BalanceOptionsFromSplits(players: seq<Player>, maxOptions: nat)
    requires |players| >= 10
    ensures forall o :: o in BalanceOptions(players, maxOptions) ==> o in AllSplits(players[..10])
  {
    var all := AllSplits(players[..10]);
    var sorted := InsertionSort(all);
    SortPermutes(all);
    var r := BalanceOptions(players, maxOptions);
    assert r == sorted[..|r|];
    forall o | o in r
      ensures o in all
    {
      assert o in multiset(sorted);
    }
  }

  /**
   * The first option is a best split: no split of the first ten entries has higher
   * coverage, and none with the same coverage has a smaller diff.
   */
  lemma BestFirst(players: seq<Player>, maxOptions: nat)
    requires |players| >= 10 && maxOptions >= 1
    ensures BalanceOptions(players, maxOptions) != []
    ensures forall o :: o in AllSplits(players[..10]) ==>
              var best := BalanceOptions(players, maxOptions)[0];
              best.totalCoverage > o.totalCoverage
              || (best.totalCoverage == o.totalCoverage && best.diff <= o.diff)
  {
    var all := AllSplits(players[..10]);
    BalanceOptionsLength(players, maxOptions);
    AllSplitsShape(players[..10]);
    SortFirstIsBest(all);
  }

  /**
   * Stability: the result is the prefix of any ordering of the splits that is sorted by
   * (coverage descending, diff ascending) and keeps equally scored splits in ascending mask
   * order; in particular equally scored splits in the result appear in enumeration order.
   */
  lemma StableResult(players: seq<Player>, maxOptions: nat, ordering: seq<BalanceOption>)
    requires |players| >= 10
    requires Sorted(ordering)
    requires forall cov, diff :: WithKey(ordering, cov, diff) == WithKey(AllSplits(players[..10]), cov, diff)
    ensures |ordering| == 126
    ensures BalanceOptions(players, maxOptions) == ordering[..Min(maxOptions, 126)]
  {
    var all := AllSplits(players[..10]);
    SortCharacterised(all, ordering);
    SortPermutes(all);
    AllSplitsShape(players[..10]);
  }

  // ----- the imperative code -----

  /** coverageOf: collects the group's position labels into a set and returns its size. */
  method CoverageOf(group: seq<Player>) returns (size: nat)
    ensures size == |Labels(group)|
  {
    var seen: set<Position> := {};
    for k := 0 to |group|
      invariant seen == Labels(group[..k])
    {
      var positions := group[k].positions;
      for q := 0 to |positions|
        invariant seen == Labels(group[..k]) + LabelSet(positions[..q])
      {
        seen := seen + {positions[q]};
      }
      assert positions[..|positions|] == positions;
      assert group[..k + 1][..k] == group[..k];
    }
    assert group[..|group|] == group;
    size := |seen|;
  }

  /** The inner loop of getBalanceOptions: deal each roster entry to radiant or dire by its bit. */
  method PartitionByMask(roster: seq<Player>, mask: nat) returns (radiant: seq<Player>, dire: seq<Player>)
    ensures radiant == Side(roster, mask, true)
    ensures dire == Side(roster, mask, false)
  {
    radiant, dire := [], [];
    for i := 0 to |roster|
      invariant radiant == Side(roster[..i], mask, true)
      invariant dire == Side(roster[..i], mask, false)
    {
      assert roster[..i + 1][..i] == roster[..i];
      if Bit(mask, i) {
        radiant := radiant + [roster[i]];
      } else {
        dire := dire + [roster[i]];
      }
    }
    assert roster[..|roster|] == roster;
  }

  /** The loop body for a kept mask: deal the roster, then score the two squads. */
  method ScoreSplit(roster: seq<Player>, mask: nat) returns (option: BalanceOption)
    ensures option == MakeOption(roster, mask)
  {
    var radiant, dire := PartitionByMask(roster, mask);
    var covA := CoverageOf(radiant);
    var covB := CoverageOf(dire);
    var sumA := RankSum(radiant);
    var sumB := RankSum(dire);
    option := BalanceOption(radiant, dire, covA + covB, Abs(sumA - sumB));
  }

  /** getBalanceOptions: keep the first ten entries, enumerate and score, sort, trim. */
  method GetBalanceOptions(players: seq<Player>, maxOptions: nat) returns (options: seq<BalanceOption>)
    ensures options == BalanceOptions(players, maxOptions)
  {
    var roster := players[..Min(10, |players|)];
    if |roster| < 10 {
      return [];
    }
    var allSplits := EnumerateSplits(roster);
    var a := new BalanceOption[|allSplits|](k requires 0 <= k < |allSplits| => allSplits[k]);
    assert a[..] == allSplits;
    SortInPlace(a);
    options := a[..Min(maxOptions, a.Length)];
  }

  /**
   * Step 2 of getBalanceOptions: visit every mask below 1 << n, skip those without exactly
   * five bits or without bit 0, and record the scored split of each remaining one.
   */
  method EnumerateSplits(roster: seq<Player>) returns (allSplits: seq<BalanceOption>)
    ensures allSplits == AllSplits(roster)
  {
    var n := |roster|;
    allSplits := [];
    for mask := 0 to Pow2(n)
      invariant allSplits == OptionsFor(roster, KeptMasks(mask))
    {
      if BitCount(mask) != 5 {
        SkippedMask(roster, mask);
        continue;
      }
      if !Bit(mask, 0) {
        SkippedMask(roster, mask);
        continue;
      }
      KeptMask(roster, mask);
      var option := ScoreSplit(roster, mask);
      allSplits := allSplits + [option];
    }
  }
}
