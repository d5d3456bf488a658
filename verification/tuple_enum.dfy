/**
 * The term-tuple enumerator used for quantifier instantiation: one term
 * index per quantified variable, enumerated in stages of equal digit sum
 * or equal digit maximum (the staged strategies), or in order of a
 * sorted score vector and its permutations (the social strategy), while
 * skipping combinations whose prefix is known to fail.
 *
 * The term producer is external: the number of terms of each variable is
 * the argument of `Init`, and the term at an index is `termOf`. The store
 * of failed combinations (`IndexTrie`) is external too: the failures are
 * recorded in `failures` and the lookup is `blocked`.
 */
module TupleEnum {
  import opened Terms
  import opened TupleArith

  /** The enumeration strategy: staged by digit sum, staged by digit maximum, or social. */
  datatype Strategy = StagedSum | StagedMax | Social

  /** A recorded failure: the mask of relevant variables and the indices tried. */
  datatype Failure = Failure(mask: seq<bool>, indices: seq<nat>)

  const StepModulus: nat := 0x1_0000_0000

  /** The value of an unsigned 32-bit counter. */
  type Step = n: nat | n < StepModulus

  /** A 32-bit increment: the counter wraps around to 0 after its largest value. */
  function Tick(s: Step): (r: Step)
    ensures r == (s + 1) % StepModulus
  {
    if s + 1 == StepModulus then 0 else s + 1
  }


  /** Every index is below its variable's term count. */
  predicate WithinSizes(t: seq<nat>, sizes: seq<nat>)
  {
    |t| == |sizes| && forall v :: 0 <= v < |t| ==> t[v] < sizes[v]
  }

  // ------------------------------------------------------------------
  // Progress measure

  /**
   * The room left at the stage level: the stages still to come below the
   * sum of all caps (sum strategy) or the stage count (max strategy).
   */
  function StageRoomOf(strategy: Strategy, sizes: seq<nat>, stage: nat, stageCount: nat): nat
  {
    if strategy.StagedSum? then
      (if stage <= Sum(Caps(sizes)) then Sum(Caps(sizes)) - stage else 0)
    else (if stage <= stageCount then stageCount - stage else 0)
  }

  /** The room left at the score level: the scores still to come, read most significant digit last. */
  function ScoreRoomOf(score: seq<nat>, maxValue: nat): nat
  {
    var radix := Uniform(|score|, maxValue + 1);
    var scorePos := Num(Reversed(score), radix);
    if scorePos <= Total(radix) then Total(radix) - scorePos else 0
  }

  /**
   * The position of a tuple in the enumeration order, counted down: the
   * room at the stage or score level, then the room among the tuples of
   * that stage or score.
   */
  function RankOf(strategy: Strategy, sizes: seq<nat>, index: seq<nat>, stage: nat, stageCount: nat,
                  maxValue: nat, score: seq<nat>): nat
    requires |index| == |sizes|
  {
    if strategy.Social? then
      var radix := Uniform(|index|, maxValue + 1);
      Position(ScoreRoomOf(score, maxValue), Total(radix), Num(index, radix))
    else
      Position(StageRoomOf(strategy, sizes, stage, stageCount), Total(Radices(sizes)), Num(index, Radices(sizes)))
  }

  /** A later tuple of the same stage has a smaller rank. */
  lemma RankInStage(strategy: Strategy, sizes: seq<nat>, a: seq<nat>, b: seq<nat>, stage: nat, stageCount: nat,
                    maxValue: nat, score: seq<nat>)
    requires !strategy.Social? && Bounded(a, sizes) && Bounded(b, sizes) && LexLess(a, b)
    ensures RankOf(strategy, sizes, b, stage, stageCount, maxValue, score)
            < RankOf(strategy, sizes, a, stage, stageCount, maxValue, score)
  {
    BoundedFits(a, sizes);
    BoundedFits(b, sizes);
    LexLessPosition(StageRoomOf(strategy, sizes, stage, stageCount), a, b, Radices(sizes));
  }

  /** Any tuple of a stage with less room left has a smaller rank. */
  lemma RankNextStage(strategy: Strategy, sizes: seq<nat>, a: seq<nat>, b: seq<nat>, stage: nat, stage': nat,
                      stageCount: nat, maxValue: nat, score: seq<nat>)
    requires !strategy.Social? && |a| == |sizes| && |b| == |sizes|
    requires StageRoomOf(strategy, sizes, stage', stageCount) < StageRoomOf(strategy, sizes, stage, stageCount)
    ensures RankOf(strategy, sizes, b, stage', stageCount, maxValue, score)
            < RankOf(strategy, sizes, a, stage, stageCount, maxValue, score)
  {
    PositionOuterStep(StageRoomOf(strategy, sizes, stage, stageCount), StageRoomOf(strategy, sizes, stage', stageCount),
                      Total(Radices(sizes)), Num(a, Radices(sizes)), Num(b, Radices(sizes)));
  }

  /** A later permutation of the same score has a smaller rank. */
  lemma RankInScore(sizes: seq<nat>, a: seq<nat>, b: seq<nat>, stage: nat, stageCount: nat,
                    maxValue: nat, score: seq<nat>)
    requires |a| == |sizes| && |b| == |sizes| && LexLess(a, b)
    requires multiset(a) == multiset(score) && multiset(b) == multiset(score)
    requires forall i :: 0 <= i < |score| ==> score[i] <= maxValue
    ensures RankOf(Social, sizes, b, stage, stageCount, maxValue, score)
            < RankOf(Social, sizes, a, stage, stageCount, maxValue, score)
  {
    PermutationFits(a, score, maxValue);
    PermutationFits(b, score, maxValue);
    LexLessPosition(ScoreRoomOf(score, maxValue), a, b, Uniform(|a|, maxValue + 1));
  }

  /** Any permutation of a later score has a smaller rank. */
  lemma RankNextScore(sizes: seq<nat>, a: seq<nat>, b: seq<nat>, stage: nat, stageCount: nat,
                      maxValue: nat, score: seq<nat>, score': seq<nat>)
    requires |a| == |sizes| && |b| == |sizes| && |score| == |score'| && ScoreLess(score, score')
    requires forall i :: 0 <= i < |score| ==> score[i] <= maxValue
    requires forall i :: 0 <= i < |score'| ==> score'[i] <= maxValue
    ensures RankOf(Social, sizes, b, stage, stageCount, maxValue, score')
            < RankOf(Social, sizes, a, stage, stageCount, maxValue, score)
  {
    var radix := Uniform(|score|, maxValue + 1);
    assert ScoreRoomOf(score', maxValue) < ScoreRoomOf(score, maxValue) by {
      assert Fits(Reversed(score), radix) && Fits(Reversed(score'), radix);
      LexLessNum(Reversed(score), Reversed(score'), radix);
      NumBelowTotal(Reversed(score'), radix);
    }
    var inner := Uniform(|a|, maxValue + 1);
    PositionOuterStep(ScoreRoomOf(score, maxValue), ScoreRoomOf(score', maxValue), Total(inner),
                      Num(a, inner), Num(b, inner));
  }

  // ------------------------------------------------------------------
  // The enumeration steps, on the index vector

  /** Digit `k` can take one more unit of the later digits' sum. */
  predicate SumRaisable(t: seq<nat>, sizes: seq<nat>, prefix: nat, k: nat)
    requires |t| == |sizes| && k < |t|
  {
    k < prefix && t[k] + 1 < sizes[k] && Sum(t[k + 1..]) > 0
  }

  /**
   * `nextCombinationSum`: the next tuple with the same digit sum. The
   * least significant digit within the change prefix that can grow while
   * some later digit is non-zero grows by one, and the later digits'
   * sum minus one is refilled from the least significant digit up. When
   * no digit can grow, every digit ends up cleared.
   */
  method NextCombinationSum(t0: seq<nat>, sizes: seq<nat>, prefix: nat) returns (ok: bool, t: seq<nat>)
    requires Bounded(t0, sizes) && prefix <= |t0|
    ensures Bounded(t, sizes)
    ensures ok <==> exists k :: 0 <= k < |t0| && SumRaisable(t0, sizes, prefix, k)
    ensures ok ==> Sum(t) == Sum(t0) && LexLess(t0, t)
    ensures ok ==> exists k :: 0 <= k < |t0| && SumRaisable(t0, sizes, prefix, k)
                               && (forall j :: k < j < |t0| ==> !SumRaisable(t0, sizes, prefix, j))
                               && t[..k] == t0[..k] && t[k] == t0[k] + 1
    ensures !ok ==> t == Zeros(|t0|)
  {
    var d, suffixSum;
    ok, d, t, suffixSum := ScanForRaise(t0, sizes, prefix);
    if !ok {
      return;
    }
    ghost var mid := t;
    assert suffixSum <= Sum(Caps(sizes)[d + 1..]) by {
      SumBelowCaps(t0[d + 1..], Caps(sizes)[d + 1..]);
    }
    // the increased digit went up by one: refill one less than the cleared digits held
    t := Refill(t, Caps(sizes), d + 1, suffixSum - 1);
    CarryResult(t0, mid, t, sizes, d);
    assert t0[..d] == t[..d] && t0[d] < t[d];
  }

  /**
   * The scan of `nextCombinationSum`: from the least significant digit
   * up, clears each digit that cannot grow, adding it to the cleared sum,
   * and stops at the first one that can, raising it by one.
   */
  method ScanForRaise(t0: seq<nat>, sizes: seq<nat>, prefix: nat)
    returns (ok: bool, d: nat, t: seq<nat>, suffixSum: nat)
    requires Bounded(t0, sizes) && prefix <= |t0|
    ensures |t| == |t0| && d <= |t0|
    ensures forall j :: 0 <= j < d ==> t[j] == t0[j]
    ensures forall j :: d < j < |t0| ==> t[j] == 0 && !SumRaisable(t0, sizes, prefix, j)
    ensures ok ==> d < |t0| && SumRaisable(t0, sizes, prefix, d) && t[d] == t0[d] + 1
                   && suffixSum == Sum(t0[d + 1..])
    ensures !ok ==> d == 0 && t == Zeros(|t0|)
                    && forall j :: 0 <= j < |t0| ==> !SumRaisable(t0, sizes, prefix, j)
  {
    var n := |t0|;
    t := t0;
    suffixSum := 0;
    ok := false;
    d := n;
    while d > 0
      invariant 0 <= d <= n && |t| == n
      invariant forall j :: 0 <= j < d ==> t[j] == t0[j]
      invariant forall j :: d <= j < n ==> t[j] == 0
      invariant suffixSum == Sum(t0[d..])
      invariant forall j :: d <= j < n ==> !SumRaisable(t0, sizes, prefix, j)
    {
      d := d - 1;
      SumAt(t0, d);
      ok := suffixSum > 0 && t[d] + 1 < sizes[d] && d < prefix;
      if ok {
        t := t[d := t[d] + 1];
        return;
      }
      suffixSum := suffixSum + t[d];
      t := t[d := 0];
    }
  }

  /** What the carry and the refill leave: the same digit sum, the prefix kept, digit `d` one higher, all within the caps. */
  lemma CarryResult(t0: seq<nat>, mid: seq<nat>, t: seq<nat>, sizes: seq<nat>, d: nat)
    requires Bounded(t0, sizes) && d < |t0| == |mid| == |t|
    requires forall j :: 0 <= j < d ==> mid[j] == t0[j]
    requires mid[d] == t0[d] + 1 && t0[d] + 1 < sizes[d]
    requires forall j :: d < j < |mid| ==> mid[j] == 0
    requires t[..d + 1] == mid[..d + 1]
    requires Sum(t0[d + 1..]) >= 1 && Sum(t[d + 1..]) == Sum(t0[d + 1..]) - 1
    requires forall j :: d < j < |t| ==> t[j] <= Caps(sizes)[j]
    ensures Sum(t) == Sum(t0) && Bounded(t, sizes)
    ensures t[..d] == t0[..d] && t[d] == t0[d] + 1
  {
    assert mid[..d] == t0[..d];
    SumAfterCarry(t0, mid, t, d, d + 1);
    assert t[..d] == t[..d + 1][..d];
    assert t[d] == t[..d + 1][d];
    forall j | 0 <= j <= d
      ensures t[j] <= MaxDigit(sizes[j])
    {
      assert t[j] == t[..d + 1][j] == mid[j];
    }
  }

  /**
   * The refill of `nextCombinationSum`: `amount` spread over the digits
   * from the least significant one up, each taking as much as its cap
   * allows, all before digit `lo` untouched.
   */
  method Refill(mid: seq<nat>, caps: seq<nat>, lo: nat, amount: nat) returns (t: seq<nat>)
    requires |mid| == |caps| && lo <= |mid|
    requires forall j :: lo <= j < |mid| ==> mid[j] == 0
    requires amount <= Sum(caps[lo..])
    ensures |t| == |mid| && t[..lo] == mid[..lo]
    ensures Sum(t[lo..]) == amount
    ensures forall j :: lo <= j < |t| ==> t[j] <= caps[j]
  {
    var n := |mid|;
    t := mid;
    var rest: nat := amount;
    var digit := n;
    assert caps[lo..digit] == caps[lo..];
    while rest > 0 && digit > 0
      invariant lo <= digit <= n && |t| == n
      invariant forall j :: 0 <= j < digit ==> t[j] == mid[j]
      invariant rest + Sum(t[digit..]) == amount
      invariant rest <= Sum(caps[lo..digit])
      invariant forall j :: digit <= j < n ==> t[j] <= caps[j]
    {
      digit := digit - 1;
      var v := Min(rest, caps[digit]);
      RefillStep(t, caps, lo, digit, v, rest, amount);
      t := t[digit := v];
      rest := rest - v;
    }
    // everything was distributed
    assert rest == 0 by {
      if digit == lo {
        assert caps[lo..digit] == [];
      }
    }
    SumZeroGap(t, mid, lo, digit);
  }

  /** One digit of the refill: it takes `v` of what is left, within the remaining caps. */
  lemma RefillStep(t: seq<nat>, caps: seq<nat>, lo: nat, digit: nat, v: nat, rest: nat, amount: nat)
    requires lo <= digit < |t| == |caps|
    requires rest + Sum(t[digit + 1..]) == amount && rest <= Sum(caps[lo..digit + 1])
    requires v == Min(rest, caps[digit])
    ensures rest - v + Sum(t[digit := v][digit..]) == amount
    ensures rest - v <= Sum(caps[lo..digit])
  {
    var u := t[digit := v];
    assert u[digit + 1..] == t[digit + 1..];
    SumAt(u, digit);
    SumSnoc(caps, lo, digit + 1);
  }

  /** Digits `lo` to `digit` agree with an all-zero stretch, so they add nothing to the sum from `lo`. */
  lemma SumZeroGap(t: seq<nat>, mid: seq<nat>, lo: nat, digit: nat)
    requires lo <= digit <= |t| == |mid| && forall j :: 0 <= j < digit ==> t[j] == mid[j]
    requires forall j :: lo <= j < |mid| ==> mid[j] == 0
    ensures Sum(t[lo..]) == Sum(t[digit..]) && t[..lo] == mid[..lo]
  {
    assert t[..lo] == mid[..lo];
    var u := t[lo..];
    SumSplit(u, digit - lo);
    assert u[digit - lo..] == t[digit..];
    var gap := u[..digit - lo];
    forall j | 0 <= j < |gap|
      ensures gap[j] == 0
    {
      assert gap[j] == t[lo + j];
    }
    SumZeros(gap);
  }

  /** Digit `d` can grow by one within the change prefix, its term count and the stage. */
  predicate MaxRaisable(t: seq<nat>, sizes: seq<nat>, prefix: nat, stage: nat, d: nat)
    requires |t| == |sizes| && d < |t|
  {
    d < prefix && t[d] + 1 < sizes[d] && t[d] + 1 <= stage
  }

  /**
   * `nextCombinationMax`: the next tuple whose digits stay within the
   * stage. The least significant digit within the change prefix that can
   * grow grows by one and the later digits are cleared; if then no digit
   * reaches the stage (past the first two stages), the least significant
   * digit whose term count exceeds the stage is set to the stage and the
   * later digits are cleared.
   */
  method NextCombinationMax(t0: seq<nat>, sizes: seq<nat>, prefix: nat, stage: nat) returns (ok: bool, t: seq<nat>)
    requires Bounded(t0, sizes) && prefix <= |t0|
    requires forall i :: 0 <= i < |t0| ==> t0[i] <= stage
    ensures Bounded(t, sizes) && forall i :: 0 <= i < |t| ==> t[i] <= stage
    ensures ok ==> LexLess(t0, t) && exists i :: 0 <= i < |t| && t[i] == stage
    ensures (forall d :: 0 <= d < |t0| ==> !MaxRaisable(t0, sizes, prefix, stage, d)) ==> !ok && t == t0
    ensures !ok && t != t0 ==> forall j :: 0 <= j < |sizes| ==> sizes[j] <= stage
  {
    var n := |t0|;
    t := t0;
    var found := false;
    var d := prefix;
    while d > 0
      invariant 0 <= d <= prefix && !found && t == t0
      invariant forall j :: d <= j < prefix ==> !MaxRaisable(t0, sizes, prefix, stage, j)
    {
      d := d - 1;
      var newValue := t[d] + 1;
      if newValue < sizes[d] && newValue <= stage {
        t := t[d := newValue][..d + 1] + Zeros(n - d - 1);
        found := true;
        break;
      }
    }
    if !found {
      return false, t0;
    }
    assert MaxRaisable(t0, sizes, prefix, stage, d);
    assert LexLess(t0, t) by {
      assert t[..d] == t0[..d];
    }
    assert forall j :: 0 <= j < n ==> t[j] <= stage && t[j] <= MaxDigit(sizes[j]);
    // some digit must reach the stage; in the first two stages the increased one does
    var inStage := stage <= 1;
    var i := d + 1;
    while !inStage && i > 0
      invariant 0 <= i <= d + 1
      invariant !inStage ==> forall j :: i <= j <= d ==> t[j] < stage
      invariant inStage && stage > 1 ==> i <= d && t[i] >= stage
    {
      i := i - 1;
      inStage := t[i] >= stage;
    }
    if !inStage {
      assert forall j :: 0 <= j < n ==> t[j] < stage;
      ghost var mid := t;
      ok, t := ReachStage(t, sizes, stage);
      if ok {
        LexLessTrans(t0, mid, t);
      }
      return;
    }
    assert exists j :: 0 <= j < n && t[j] == stage by {
      if stage > 1 {
        assert t[i] == stage;
      } else {
        assert t[d] == stage;
      }
    }
    ok := true;
  }

  /**
   * The second half of `nextCombinationMax`, for a tuple below the stage:
   * the least significant digit whose term count exceeds the stage is set
   * to the stage and the later digits are cleared, if there is one.
   */
  method ReachStage(t0: seq<nat>, sizes: seq<nat>, stage: nat) returns (ok: bool, t: seq<nat>)
    requires Bounded(t0, sizes) && forall i :: 0 <= i < |t0| ==> t0[i] < stage
    ensures Bounded(t, sizes) && forall i :: 0 <= i < |t| ==> t[i] <= stage
    ensures ok <==> exists j :: 0 <= j < |sizes| && sizes[j] > stage
    ensures ok ==> LexLess(t0, t) && exists i :: 0 <= i < |t| && t[i] == stage
    ensures !ok ==> t == t0
  {
    var n := |t0|;
    var k := n;
    ok := false;
    while !ok && k > 0
      invariant 0 <= k <= n
      invariant !ok ==> forall j :: k <= j < n ==> sizes[j] <= stage
      invariant ok ==> k < n && sizes[k] > stage
    {
      k := k - 1;
      ok := sizes[k] > stage;
    }
    if !ok {
      return false, t0;
    }
    t := t0[k := stage][..k + 1] + Zeros(n - k - 1);
    assert LexLess(t0, t) by {
      assert t[..k] == t0[..k];
    }
    assert t[k] == stage;
  }

  /**
   * `increaseStageSum`: the first tuple of digit sum one more than the
   * stage, filling digits greedily from the least significant one up to
   * their caps. The new stage is the sum of the digits written; the
   * stage grows exactly when the caps of all digits allow that sum.
   */
  method IncreaseStageSum(t0: seq<nat>, sizes: seq<nat>, stage: nat) returns (ok: bool, t: seq<nat>, newStage: nat)
    requires Bounded(t0, sizes)
    ensures Bounded(t, sizes)
    ensures ok <==> stage + 1 <= Sum(Caps(sizes))
    ensures ok ==> newStage == stage + 1
    ensures !ok ==> newStage == Sum(Caps(sizes)) && t == Caps(sizes)
    ensures (forall i :: 0 <= i < |t0| ==> t0[i] == 0) ==> Sum(t) == newStage
  {
    var n := |t0|;
    var lowerBound := stage + 1;
    newStage := 0;
    t := t0;
    var digit := n;
    ghost var caps := Caps(sizes);
    while newStage < lowerBound && digit > 0
      invariant 0 <= digit <= n && |t| == n
      invariant forall j :: 0 <= j < digit ==> t[j] == t0[j]
      invariant forall j :: digit <= j < n ==> t[j] <= caps[j]
      invariant newStage == Sum(t[digit..]) && newStage <= lowerBound
      invariant newStage < lowerBound ==> forall j :: digit <= j < n ==> t[j] == caps[j]
    {
      digit := digit - 1;
      var v := Min(lowerBound - newStage, MaxDigit(sizes[digit]));
      SetDigitSum(t, digit, v);
      t := t[digit := v];
      newStage := newStage + v;
    }
    ok := newStage >= lowerBound;
    SuffixBelowCaps(t, caps, digit);
    if !ok {
      assert t == caps;
      assert t[digit..] == t;
    }
    if forall i :: 0 <= i < n ==> t0[i] == 0 {
      SumSplit(t, digit);
      SumZeros(t[..digit]);
    }
  }

  /** Writing `v` at digit `d` makes the sum from `d` on `v` plus the sum after it. */
  lemma SetDigitSum(t: seq<nat>, d: nat, v: nat)
    requires d < |t|
    ensures Sum(t[d := v][d..]) == v + Sum(t[d + 1..])
  {
    SumAt(t[d := v], d);
    assert t[d := v][d + 1..] == t[d + 1..];
  }

  /** A suffix below the caps sums to at most the sum of all caps. */
  lemma SuffixBelowCaps(t: seq<nat>, caps: seq<nat>, d: nat)
    requires |t| == |caps| && d <= |t|
    requires forall j :: d <= j < |t| ==> t[j] <= caps[j]
    ensures Sum(t[d..]) <= Sum(caps)
  {
    SumBelowCaps(t[d..], caps[d..]);
    SumSplit(caps, d);
  }

  /**
   * The first tuple of stage `stage` of the max strategy: all zeros but
   * the least significant digit whose term count exceeds the stage,
   * which is set to the stage, if there is such a digit.
   */
  method IncreaseStageMax(sizes: seq<nat>, stage: nat) returns (found: bool, t: seq<nat>)
    ensures Bounded(t, sizes)
    ensures found <==> exists k :: 0 <= k < |sizes| && sizes[k] > stage
    ensures found ==> exists k :: 0 <= k < |sizes| && sizes[k] > stage && t == Zeros(|sizes|)[k := stage]
                                  && forall j :: k < j < |sizes| ==> sizes[j] <= stage
    ensures !found ==> t == Zeros(|sizes|)
  {
    var n := |sizes|;
    t := Zeros(n);
    found := false;
    var digit := n;
    while !found && digit > 0
      invariant 0 <= digit <= n
      invariant !found ==> t == Zeros(n) && forall j :: digit <= j < n ==> sizes[j] <= stage
      invariant found ==> digit < n && sizes[digit] > stage && t == Zeros(n)[digit := stage]
                          && forall j :: digit < j < n ==> sizes[j] <= stage
    {
      digit := digit - 1;
      if sizes[digit] > stage {
        found := true;
        t := t[digit := stage];
      }
    }
  }

  /**
   * The score step of `increaseScore`: the first digit below its
   * successor (for the last digit: below the largest term count) grows by
   * one and the digits before it are cleared. Once every digit holds the
   * largest term count there is no next score.
   */
  method NextScore(score: seq<nat>, maxValue: nat) returns (found: bool, d: nat, s: seq<nat>)
    requires NonDecreasing(score) && forall i :: 0 <= i < |score| ==> score[i] <= maxValue
    ensures |s| == |score| && NonDecreasing(s) && forall i :: 0 <= i < |s| ==> s[i] <= maxValue
    ensures !found <==> forall i :: 0 <= i < |score| ==> score[i] == maxValue
    ensures found ==> ScoreLess(score, s)
    ensures found ==> d < |score| && Raisable(score, d, maxValue) && s == RaiseDigit(score, d)
                      && forall j :: 0 <= j < d ==> !Raisable(score, j, maxValue)
    ensures !found ==> s == score
  {
    var n := |score|;
    d := 0;
    found := false;
    while d < n
      invariant 0 <= d <= n && !found
      invariant forall j :: 0 <= j < d ==> !Raisable(score, j, maxValue)
    {
      var last := d + 1 == n;
      found := (!last && score[d] < score[d + 1]) || (last && score[d] < maxValue);
      if found {
        break;
      }
      d := d + 1;
    }
    if !found {
      if n > 0 {
        NoRaiseAllMax(score, maxValue);
      }
      return false, d, score;
    }
    RaiseDigitSorted(score, d, maxValue);
    RaiseDigitScoreLess(score, d);
    s := RaiseDigit(score, d);
    assert score[d] < maxValue by {
      if d + 1 < n {
        assert score[d] < score[d + 1] <= maxValue;
      }
    }
  }

  /**
   * `validatePermutation`: from the given permutation on, the first one
   * whose every index is below its variable's term count. When the
   * permutations run out, the indices are left sorted.
   */
  method ValidatePermutation(t0: seq<nat>, sizes: seq<nat>, score: seq<nat>, m: nat) returns (ok: bool, t: seq<nat>)
    requires |t0| == |sizes| && multiset(t0) == multiset(score)
    requires forall i :: 0 <= i < |score| ==> score[i] <= m
    ensures |t| == |t0| && multiset(t) == multiset(score)
    ensures ok ==> WithinSizes(t, sizes) && (t == t0 || LexLess(t0, t))
    ensures ok ==> NoneValidBefore(t0, t, sizes, score)
    ensures !ok ==> NonDecreasing(t)
    ensures !ok ==> forall p: seq<nat> {:trigger WithinSizes(p, sizes)} ::
      (|p| == |t0| && multiset(p) == multiset(score) && (p == t0 || LexLess(t0, p))) ==> !WithinSizes(p, sizes)
  {
    ghost var radix := Uniform(|t0|, m + 1);
    t := t0;
    PermutationFits(t, score, m);
    NumBelowTotal(t, radix);
    NoneValidBeforeStart(t0, sizes, score);
    while true
      invariant |t| == |t0| && multiset(t) == multiset(score)
      invariant t == t0 || LexLess(t0, t)
      invariant Num(t, radix) < Total(radix)
      invariant NoneValidBefore(t0, t, sizes, score)
      decreases Total(radix) - Num(t, radix)
    {
      var okay := IndicesWithin(t, sizes);
      if okay {
        return true, t;
      }
      var more;
      more, t := SkipPermutation(t0, t, sizes, score, m, radix);
      if !more {
        return false, t;
      }
    }
  }

  /** Whether every index is below its variable's term count. */
  method IndicesWithin(t: seq<nat>, sizes: seq<nat>) returns (okay: bool)
    requires |t| == |sizes|
    ensures okay == WithinSizes(t, sizes)
  {
    okay := true;
    var v := 0;
    while okay && v < |t|
      invariant 0 <= v <= |t|
      invariant okay ==> forall j :: 0 <= j < v ==> t[j] < sizes[j]
      invariant !okay ==> v > 0 && t[v - 1] >= sizes[v - 1]
    {
      okay := t[v] < sizes[v];
      v := v + 1;
    }
  }

  /**
   * Moves past a permutation whose indices do not fit: its successor,
   * which passes no valid permutation, or, when there is none, the sorted
   * permutation and the news that no valid permutation follows `t0`.
   */
  method SkipPermutation(t0: seq<nat>, before: seq<nat>, sizes: seq<nat>, score: seq<nat>, m: nat,
                         ghost radix: seq<nat>)
    returns (more: bool, t: seq<nat>)
    requires |before| == |t0| && multiset(before) == multiset(score) && (before == t0 || LexLess(t0, before))
    requires forall i :: 0 <= i < |score| ==> score[i] <= m
    requires radix == Uniform(|t0|, m + 1)
    requires !WithinSizes(before, sizes) && NoneValidBefore(t0, before, sizes, score)
    ensures |t| == |t0| && multiset(t) == multiset(score)
    ensures more ==> LexLess(t0, t) && Num(before, radix) < Num(t, radix) < Total(radix)
    ensures more ==> NoneValidBefore(t0, t, sizes, score)
    ensures !more ==> NonDecreasing(t)
    ensures !more ==> forall p: seq<nat> {:trigger WithinSizes(p, sizes)} ::
      (|p| == |t0| && multiset(p) == multiset(score) && (p == t0 || LexLess(t0, p))) ==> !WithinSizes(p, sizes)
  {
    more, t := NextPermutation(before);
    if !more {
      ExhaustedNoneValid(t0, before, sizes, score);
      return;
    }
    SkipInvalid(t0, before, t, sizes, score);
    assert Num(before, radix) < Num(t, radix) < Total(radix) by {
      PermutationFits(before, score, m);
      PermutationFits(t, score, m);
      LexLessNum(before, t, radix);
      NumBelowTotal(t, radix);
    }
    if before != t0 {
      LexLessTrans(t0, before, t);
    }
  }

  /** No permutation of `score` from `t0` on whose indices are within the sizes comes before `t`. */
  ghost predicate NoneValidBefore(t0: seq<nat>, t: seq<nat>, sizes: seq<nat>, score: seq<nat>)
  {
    forall p: seq<nat> {:trigger LexLess(p, t)} ::
      (|p| == |t0| && multiset(p) == multiset(score) && WithinSizes(p, sizes) && (p == t0 || LexLess(t0, p)))
      ==> !LexLess(p, t)
  }

  /** Nothing comes before the first permutation tried. */
  lemma NoneValidBeforeStart(t0: seq<nat>, sizes: seq<nat>, score: seq<nat>)
    ensures NoneValidBefore(t0, t0, sizes, score)
  {
    forall p: seq<nat> | |p| == |t0| && multiset(p) == multiset(score) && WithinSizes(p, sizes)
                           && (p == t0 || LexLess(t0, p))
      ensures !LexLess(p, t0)
    {
      if p == t0 {
        LexLessIrrefl(t0);
      } else {
        LexLessAsym(t0, p);
      }
    }
  }

  /** Skipping an invalid permutation to its successor passes no valid one. */
  lemma SkipInvalid(t0: seq<nat>, before: seq<nat>, t: seq<nat>, sizes: seq<nat>, score: seq<nat>)
    requires |before| == |t0| && multiset(before) == multiset(score) && !WithinSizes(before, sizes)
    requires NoneValidBefore(t0, before, sizes, score)
    requires forall p: seq<nat> {:trigger LexLess(before, p)} ::
      (|p| == |before| && multiset(p) == multiset(before) && LexLess(before, p)) ==> p == t || LexLess(t, p)
    ensures NoneValidBefore(t0, t, sizes, score)
  {
    forall p: seq<nat> | |p| == |t0| && multiset(p) == multiset(score) && WithinSizes(p, sizes)
                           && (p == t0 || LexLess(t0, p))
      ensures !LexLess(p, t)
    {
      assert !LexLess(p, before);
      LexTotal(p, before);
      if p != before {
        assert LexLess(before, p) && multiset(p) == multiset(before);
        if p != t {
          LexLessAsym(t, p);
        }
      }
    }
  }

  /** When the last permutation is invalid too, no valid permutation follows `t0`. */
  lemma ExhaustedNoneValid(t0: seq<nat>, last: seq<nat>, sizes: seq<nat>, score: seq<nat>)
    requires |last| == |t0| && multiset(last) == multiset(score) && !WithinSizes(last, sizes)
    requires NoneValidBefore(t0, last, sizes, score)
    requires forall p: seq<nat> {:trigger LexLess(last, p)} :: |p| == |last| && multiset(p) == multiset(last) ==> !LexLess(last, p)
    ensures forall p: seq<nat> {:trigger WithinSizes(p, sizes)} ::
      (|p| == |t0| && multiset(p) == multiset(score) && (p == t0 || LexLess(t0, p))) ==> !WithinSizes(p, sizes)
  {
    forall p: seq<nat> | |p| == |t0| && multiset(p) == multiset(score) && (p == t0 || LexLess(t0, p))
      ensures !WithinSizes(p, sizes)
    {
      LexTotal(p, last);
    }
  }

  // ------------------------------------------------------------------
  // The enumerator

  class TupleEnumerator {
    const variableCount: nat
    const strategy: Strategy
    /** Whether the enumeration runs at full effort (variables without terms are allowed). */
    const fullEffort: bool
    /** Whether a combination is excluded by the recorded failures on a prefix of the given length. */
    const blocked: (seq<Failure>, seq<nat>, nat) -> bool
    /** The term a variable's index denotes. */
    const termOf: (nat, nat) -> Term

    var termsSizes: seq<nat>
    var termIndex: seq<nat>
    /** Calls of `HasNext` so far, as a 32-bit counter. */
    var stepCounter: Step
    var hasNextTuple: bool
    var failures: seq<Failure>
    /** How many leading digits the next combination must change. */
    var changePrefix: nat
    // staged strategies
    var currentStage: nat
    var stageCount: nat
    // social strategy
    var maxValue: nat
    var score: seq<nat>

    constructor (variableCount: nat, strategy: Strategy, fullEffort: bool,
                 blocked: (seq<Failure>, seq<nat>, nat) -> bool, termOf: (nat, nat) -> Term)
      ensures this.variableCount == variableCount && this.strategy == strategy
      ensures this.fullEffort == fullEffort && this.blocked == blocked && this.termOf == termOf
      ensures changePrefix == variableCount && stepCounter == 0 && failures == []
      ensures termsSizes == [] && termIndex == [] && score == [] && !hasNextTuple
    {
      this.variableCount := variableCount;
      this.strategy := strategy;
      this.fullEffort := fullEffort;
      this.blocked := blocked;
      this.termOf := termOf;
      changePrefix := variableCount;
      stepCounter := 0;
      failures := [];
      termsSizes := [];
      termIndex := [];
      hasNextTuple := false;
      currentStage := 0;
      stageCount := 0;
      maxValue := 0;
      score := [];
    }

    /** One index per variable, and a change prefix within the variables. */
    ghost predicate Common()
      reads this`termsSizes, this`termIndex, this`changePrefix
    {
      variableCount >= 1 && |termsSizes| == variableCount && |termIndex| == variableCount
      && changePrefix <= variableCount
    }

    /** The staged strategies' shape: bounded indices and one stage per possible index value. */
    ghost predicate StagedShape()
      reads this`termsSizes, this`termIndex, this`changePrefix, this`stageCount
    {
      Common() && Bounded(termIndex, termsSizes) && stageCount == Max1(MaxOf(termsSizes))
    }

    /**
     * The state of an initialised enumerator: per strategy, the stage is
     * the digit sum or an upper bound on every digit, or the indices are a
     * permutation of the sorted score.
     */
    ghost predicate Valid()
      reads this`termsSizes, this`termIndex, this`changePrefix, this`currentStage, this`stageCount,
            this`maxValue, this`score
    {
      Common()
      && (!strategy.Social? ==> StagedShape())
      && (strategy.StagedSum? ==> currentStage == Sum(termIndex))
      && (strategy.StagedMax? ==> forall i :: 0 <= i < |termIndex| ==> termIndex[i] <= currentStage)
      && (strategy.Social? ==>
            |score| == variableCount && maxValue == Max1(MaxOf(termsSizes))
            && NonDecreasing(score) && (forall i :: 0 <= i < |score| ==> score[i] <= maxValue)
            && multiset(termIndex) == multiset(score))
    }

    /** Every variable that has terms has its index among them. */
    ghost predicate InRange()
      reads this`termsSizes, this`termIndex
    {
      |termIndex| == |termsSizes| && forall v :: 0 <= v < |termsSizes| ==> termsSizes[v] > 0 ==> termIndex[v] < termsSizes[v]
    }

    /** An enumerator that still has tuples is initialised and its current tuple is in range. */
    ghost predicate Ready()
      reads this`termsSizes, this`termIndex, this`changePrefix, this`currentStage, this`stageCount,
            this`maxValue, this`score, this`hasNextTuple
    {
      hasNextTuple ==> Valid() && InRange()
    }

    /**
     * The position of the current tuple in the enumeration order, counted
     * down: it falls with every combination the enumerator moves to.
     */
    ghost function Rank(): nat
      reads this`termsSizes, this`termIndex, this`changePrefix, this`currentStage, this`stageCount,
            this`maxValue, this`score
      requires Common()
    {
      RankOf(strategy, termsSizes, termIndex, currentStage, stageCount, maxValue, score)
    }

    /**
     * `init`: records the term counts of the variables, giving up on no
     * variables or, outside full effort, on the first variable without
     * terms; then sets every index to 0 and starts the first stage or the
     * zero score.
     */
    method Init(sizes: seq<nat>)
      requires |sizes| == variableCount && termsSizes == [] && stepCounter == 0 && changePrefix == variableCount
      modifies this`termsSizes, this`termIndex, this`hasNextTuple, this`currentStage, this`stageCount,
               this`maxValue, this`score
      ensures hasNextTuple <==> variableCount > 0 && (fullEffort || forall i :: 0 <= i < |sizes| ==> sizes[i] > 0)
      ensures hasNextTuple ==> Valid() && termsSizes == sizes && termIndex == Zeros(variableCount)
      ensures hasNextTuple && !strategy.Social? ==> currentStage == 0 && stageCount == Max1(MaxOf(sizes))
      ensures hasNextTuple && strategy.Social? ==> score == Zeros(variableCount) && maxValue == Max1(MaxOf(sizes))
      ensures Ready()
    {
      hasNextTuple := true;
      if variableCount == 0 {
        hasNextTuple := false;
        return;
      }
      var v := 0;
      while v < variableCount
        invariant 0 <= v <= variableCount && termsSizes == sizes[..v]
        invariant forall i :: 0 <= i < v ==> fullEffort || sizes[i] > 0
        invariant hasNextTuple
      {
        if sizes[v] == 0 && !fullEffort {
          hasNextTuple := false;
          return;
        }
        termsSizes := termsSizes + [sizes[v]];
        v := v + 1;
      }
      assert termsSizes == sizes;
      termIndex := Zeros(variableCount);
      if strategy.Social? {
        maxValue := Max1(MaxOf(termsSizes));
        score := Zeros(variableCount);
        assert termIndex == score;
      } else {
        currentStage := 0;
        stageCount := Max1(MaxOf(termsSizes));
        SumZeros(termIndex);
      }
    }

    /**
     * `hasNext`: false for good once the enumeration ran out; the first
     * call offers the initial tuple; every later call moves to the next
     * combination not excluded by a recorded failure. The call counter is
     * 32 bits wide, so the first-call case recurs after 2^32 calls.
     */
    method HasNext() returns (r: bool)
      requires Ready()
      modifies this`stepCounter, this`hasNextTuple, this`termIndex, this`currentStage, this`changePrefix, this`score
      ensures Ready() && r == hasNextTuple
      ensures !old(hasNextTuple) ==> !r && stepCounter == old(stepCounter) && termIndex == old(termIndex)
      ensures old(hasNextTuple) ==> stepCounter == Tick(old(stepCounter))
      ensures old(hasNextTuple) && old(stepCounter) == 0 ==> r && termIndex == old(termIndex)
      ensures old(hasNextTuple) && old(stepCounter) != 0 && r ==>
                Rank() < old(Rank()) && !blocked(failures, termIndex, changePrefix)
    {
      if !hasNextTuple {
        return false;
      }
      var first := stepCounter == 0;
      stepCounter := Tick(stepCounter);
      if first {
        return true;
      }
      r := Advance();
    }

    /** The advancing half of `hasNext`: the next combination not known to fail, or none. */
    method Advance() returns (r: bool)
      requires Valid()
      modifies this`hasNextTuple, this`termIndex, this`currentStage, this`changePrefix, this`score
      ensures r == hasNextTuple && Ready()
      ensures r ==> Rank() < old(Rank()) && !blocked(failures, termIndex, changePrefix)
    {
      hasNextTuple := NextCombination();
      r := hasNextTuple;
    }

    /**
     * `failureReason`: records the failed combination and makes the next
     * one change at least every digit up to the last variable the failure
     * depends on.
     */
    method FailureReason(mask: seq<bool>)
      requires Ready() && |mask| == variableCount
      modifies this`failures, this`changePrefix
      ensures Ready()
      ensures failures == old(failures) + [Failure(mask, termIndex)]
      ensures changePrefix <= |mask| && (changePrefix > 0 ==> mask[changePrefix - 1])
      ensures forall i :: changePrefix <= i < |mask| ==> !mask[i]
    {
      failures := failures + [Failure(mask, termIndex)];
      var p := |mask|;
      while p > 0 && !mask[p - 1]
        invariant 0 <= p <= |mask|
        invariant forall i :: p <= i < |mask| ==> !mask[i]
      {
        p := p - 1;
      }
      changePrefix := p;
    }

    /** `next`: the term of each variable at its current index, or null for a variable without terms. */
    method Next() returns (terms: seq<Term>)
      requires Ready() && hasNextTuple
      ensures |terms| == variableCount
      ensures forall v :: 0 <= v < variableCount ==>
                if termsSizes[v] == 0 then terms[v] == Null
                else termIndex[v] < termsSizes[v] && terms[v] == termOf(v, termIndex[v])
    {
      terms := [];
      var v := 0;
      while v < variableCount
        invariant 0 <= v <= variableCount && |terms| == v
        invariant forall u :: 0 <= u < v ==> terms[u] == (if termsSizes[u] == 0 then Null else termOf(u, termIndex[u]))
      {
        var t := if termsSizes[v] == 0 then Null else termOf(v, termIndex[v]);
        terms := terms + [t];
        v := v + 1;
      }
    }

    /** `nextCombination`: attempts until one is not excluded by a recorded failure, or none is left. */
    method NextCombination() returns (ok: bool)
      requires Valid()
      modifies this`termIndex, this`currentStage, this`changePrefix, this`score
      ensures ok ==> Valid() && InRange() && Rank() < old(Rank()) && !blocked(failures, termIndex, changePrefix)
    {
      while true
        invariant Valid() && Rank() <= old(Rank())
        decreases Rank()
      {
        ok := NextCombinationAttempt();
        if !ok {
          return;
        }
        if !blocked(failures, termIndex, changePrefix) {
          return;
        }
      }
    }

    /** `nextCombinationAttempt` of the strategy at hand. */
    method NextCombinationAttempt() returns (ok: bool)
      requires Valid()
      modifies this`termIndex, this`currentStage, this`changePrefix, this`score
      ensures ok ==> Valid() && InRange() && Rank() < old(Rank())
    {
      if strategy.Social? {
        ok := SocialAttempt();
      } else {
        ok := StagedAttempt();
      }
    }

    /** The staged `nextCombinationAttempt`: the next combination in the stage, or else the next stage. */
    method StagedAttempt() returns (ok: bool)
      requires Valid() && !strategy.Social?
      modifies this`termIndex, this`currentStage, this`changePrefix
      ensures ok ==> Valid() && InRange() && Rank() < old(Rank())
      ensures ok ==> (currentStage == old(currentStage) && LexLess(old(termIndex), termIndex))
                     || currentStage == old(currentStage) + 1
    {
      ok := NextCombinationInternal();
      if ok {
        RankInStage(strategy, termsSizes, old(termIndex), termIndex, currentStage, stageCount, maxValue, score);
      } else {
        ghost var index := termIndex;
        ok := IncreaseStage();
        if ok {
          RankNextStage(strategy, termsSizes, old(termIndex), termIndex, old(currentStage), currentStage,
                        stageCount, maxValue, score);
        }
      }
      if ok {
        BoundedInRange(termIndex, termsSizes);
      }
    }

    /** `nextCombinationInternal`: the next combination within the stage, by the staged strategy in use. */
    method NextCombinationInternal() returns (ok: bool)
      requires Valid() && !strategy.Social?
      modifies this`termIndex
      ensures StagedShape()
      ensures ok ==> Valid() && LexLess(old(termIndex), termIndex)
      ensures !ok && strategy.StagedSum? ==> termIndex == Zeros(variableCount)
      ensures strategy.StagedMax? ==> Valid()
    {
      if strategy.StagedSum? {
        ok, termIndex := NextCombinationSum(termIndex, termsSizes, changePrefix);
      } else {
        ok, termIndex := NextCombinationMax(termIndex, termsSizes, changePrefix, currentStage);
      }
    }

    /** `increaseStage`: resets the change prefix and moves to the next stage of the strategy in use. */
    method IncreaseStage() returns (ok: bool)
      requires StagedShape() && !strategy.Social?
      modifies this`termIndex, this`currentStage, this`changePrefix
      ensures changePrefix == variableCount && StagedShape()
      ensures ok ==> currentStage == old(currentStage) + 1
      ensures ok ==> StageRoomOf(strategy, termsSizes, currentStage, stageCount)
                     < StageRoomOf(strategy, termsSizes, old(currentStage), stageCount)
      ensures ok && strategy.StagedSum? && old(termIndex) == Zeros(variableCount) ==> Valid()
      ensures ok && strategy.StagedMax? ==> Valid()
    {
      changePrefix := variableCount;
      if strategy.StagedSum? {
        ok, termIndex, currentStage := IncreaseStageSum(termIndex, termsSizes, currentStage);
      } else {
        currentStage := currentStage + 1;
        if currentStage >= stageCount {
          return false;
        }
        var found;
        found, termIndex := IncreaseStageMax(termsSizes, currentStage);
        // the largest term count is the stage count, above the stage
        assert found by {
          assert MaxOf(termsSizes) in termsSizes;
        }
        ok := true;
      }
    }

    /** The social `nextCombinationAttempt`: the next valid permutation of the score, or else the next score. */
    method SocialAttempt() returns (ok: bool)
      requires Valid() && strategy.Social?
      modifies this`termIndex, this`score
      ensures ok ==> Valid() && InRange() && Rank() < old(Rank())
      ensures ok ==> (score == old(score) && LexLess(old(termIndex), termIndex)) || ScoreLess(old(score), score)
    {
      ok := NextValidPermutation();
      if ok {
        RankInScore(termsSizes, old(termIndex), termIndex, currentStage, stageCount, maxValue, score);
      } else {
        ok := IncreaseScore();
        if ok {
          RankNextScore(termsSizes, old(termIndex), termIndex, currentStage, stageCount, maxValue, old(score), score);
        }
      }
    }

    /** `nextValidPermutation`: the next permutation of the indices, if any, then the first valid one from there. */
    method NextValidPermutation() returns (ok: bool)
      requires Valid() && strategy.Social?
      modifies this`termIndex
      ensures Valid()
      ensures ok ==> WithinSizes(termIndex, termsSizes) && LexLess(old(termIndex), termIndex)
    {
      ok, termIndex := NextPermutation(termIndex);
      if ok {
        ghost var mid := termIndex;
        ok, termIndex := ValidatePermutation(termIndex, termsSizes, score, maxValue);
        if ok && termIndex != mid {
          LexLessTrans(old(termIndex), mid, termIndex);
        }
      }
    }

    /**
     * `increaseScore`: the next score, if any; the indices start again
     * from the score and are validated.
     */
    method IncreaseScore() returns (ok: bool)
      requires Valid() && strategy.Social?
      modifies this`termIndex, this`score
      ensures Valid()
      ensures score == old(score) <==> forall i :: 0 <= i < |score| ==> old(score)[i] == maxValue
      ensures score != old(score) ==> ScoreLess(old(score), score)
      ensures score == old(score) ==> !ok && termIndex == old(termIndex)
      ensures ok ==> WithinSizes(termIndex, termsSizes)
    {
      var found, d, next := NextScore(score, maxValue);
      if !found {
        return false;
      }
      var t;
      ok, t := ValidatePermutation(next, termsSizes, next, maxValue);
      score, termIndex := next, t;
    }
  }
}
