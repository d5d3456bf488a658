/**
 * Digit vectors as the term-tuple enumerator sees them: a tuple of term
 * indices is a number whose digits have different ranges, most
 * significant first. Digit sums, the cap of each digit, the
 * lexicographic order, the mixed-radix value that makes that order
 * well founded, and `std::next_permutation` on such vectors.
 */
module TupleArith {

  /** The largest index of a variable with `size` candidate terms (0 when it has none). */
  function MaxDigit(size: nat): nat
  {
    if size == 0 then 0 else size - 1
  }

  /** Every digit within the range its term count allows. */
  predicate Bounded(t: seq<nat>, sizes: seq<nat>)
  {
    |t| == |sizes| && forall i :: 0 <= i < |t| ==> t[i] <= MaxDigit(sizes[i])
  }

  function Zeros(n: nat): (r: seq<nat>)
    ensures |r| == n && forall i :: 0 <= i < n ==> r[i] == 0
  {
    seq(n, _ => 0)
  }

  function Sum(t: seq<nat>): nat
  {
    if |t| == 0 then 0 else t[0] + Sum(t[1..])
  }

  /** The caps of all digits: `MaxDigit` of each term count. */
  function Caps(sizes: seq<nat>): (r: seq<nat>)
    ensures |r| == |sizes| && forall i :: 0 <= i < |sizes| ==> r[i] == MaxDigit(sizes[i])
  {
    seq(|sizes|, i requires 0 <= i < |sizes| => MaxDigit(sizes[i]))
  }

  function MaxOf(s: seq<nat>): (r: nat)
    ensures forall i :: 0 <= i < |s| ==> s[i] <= r
    ensures |s| > 0 ==> r in s
  {
    if |s| == 0 then 0
    else
      var m := MaxOf(s[1..]);
      assert forall i :: 1 <= i < |s| ==> s[i] == s[1..][i - 1];
      if s[0] >= m then s[0] else m
  }

  function Max1(n: nat): (r: nat)
    ensures r >= 1 && r >= n && (n >= 1 ==> r == n)
  {
    if n >= 1 then n else 1
  }

  function Min(a: nat, b: nat): (r: nat)
    ensures r <= a && r <= b && (r == a || r == b)
  {
    if a <= b then a else b
  }

  // ------------------------------------------------------------------
  // Sums

  lemma {:induction false} SumSplit(t: seq<nat>, k: nat)
    requires k <= |t|
    ensures Sum(t) == Sum(t[..k]) + Sum(t[k..])
    decreases k
  {
    if k > 0 {
      assert t[..k][1..] == t[1..][..k - 1];
      assert t[k..] == t[1..][k - 1..];
      SumSplit(t[1..], k - 1);
    } else {
      assert t[k..] == t;
    }
  }

  lemma SumSnoc(t: seq<nat>, lo: nat, hi: nat)
    requires lo < hi <= |t|
    ensures Sum(t[lo..hi]) == Sum(t[lo..hi - 1]) + t[hi - 1]
  {
    var x := t[lo..hi];
    SumSplit(x, |x| - 1);
    assert x[..|x| - 1] == t[lo..hi - 1];
    assert x[|x| - 1..][1..] == [];
  }

  /**
   * The digit sum after a carry: digit `d` raised by one, the digits after
   * it first cleared, then refilled with one less than they held.
   */
  lemma SumAfterCarry(t0: seq<nat>, mid: seq<nat>, t: seq<nat>, d: nat, digit: nat)
    requires d < digit <= |t0| == |mid| == |t|
    requires mid[..d] == t0[..d] && mid[d] == t0[d] + 1
    requires forall j :: d < j < |mid| ==> mid[j] == 0
    requires t[..digit] == mid[..digit]
    requires Sum(t0[d + 1..]) >= 1 && Sum(t[digit..]) == Sum(t0[d + 1..]) - 1
    ensures Sum(t) == Sum(t0)
  {
    SumSplit(t, digit);
    var p := mid[..digit];
    SumSplit(p, d + 1);
    assert p[d + 1..] == mid[d + 1..digit];
    SumZeros(mid[d + 1..digit]);
    assert p[..d + 1] == mid[..d + 1];
    SumSnoc(mid, 0, d + 1);
    assert mid[0..d] == t0[..d] && mid[0..d + 1] == mid[..d + 1];
    SumSplit(t0, d);
    SumAt(t0, d);
  }

  lemma SumAt(t: seq<nat>, d: nat)
    requires d < |t|
    ensures Sum(t[d..]) == t[d] + Sum(t[d + 1..])
  {
    assert t[d..][1..] == t[d + 1..];
  }

  lemma {:induction false} SumZeros(t: seq<nat>)
    requires forall i :: 0 <= i < |t| ==> t[i] == 0
    ensures Sum(t) == 0
    decreases |t|
  {
    if |t| > 0 {
      SumZeros(t[1..]);
    }
  }

  /** Bounded digits sum to at most the sum of their caps. */
  lemma {:induction false} SumBelowCaps(t: seq<nat>, caps: seq<nat>)
    requires |t| == |caps| && forall i :: 0 <= i < |t| ==> t[i] <= caps[i]
    ensures Sum(t) <= Sum(caps)
    decreases |t|
  {
    if |t| > 0 {
      SumBelowCaps(t[1..], caps[1..]);
    }
  }

  // ------------------------------------------------------------------
  // Lexicographic order and mixed-radix value

  /** `a` comes before `b`: equal up to some digit, where `b` is larger. */
  predicate LexLess(a: seq<nat>, b: seq<nat>)
  {
    |a| == |b| && exists k :: 0 <= k < |a| && a[..k] == b[..k] && a[k] < b[k]
  }

  lemma LexLessTrans(a: seq<nat>, b: seq<nat>, c: seq<nat>)
    requires LexLess(a, b) && LexLess(b, c)
    ensures LexLess(a, c)
  {
    var k1 :| 0 <= k1 < |a| && a[..k1] == b[..k1] && a[k1] < b[k1];
    var k2 :| 0 <= k2 < |b| && b[..k2] == c[..k2] && b[k2] < c[k2];
    var k := if k1 <= k2 then k1 else k2;
    assert a[..k] == c[..k] by {
      assert a[..k] == a[..k1][..k] && b[..k] == b[..k1][..k];
      assert b[..k] == b[..k2][..k] && c[..k] == c[..k2][..k];
    }
    if k1 < k2 {
      assert b[k1] == b[..k2][k1] == c[..k2][k1] == c[k1];
    } else if k2 < k1 {
      assert a[k2] == a[..k1][k2] == b[..k1][k2] == b[k2];
    }
  }

  /** The product of the radices. */
  function Total(radix: seq<nat>): nat
  {
    if |radix| == 0 then 1 else radix[0] * Total(radix[1..])
  }

  /** Every digit below its radix. */
  predicate Fits(t: seq<nat>, radix: seq<nat>)
  {
    |t| == |radix| && forall i :: 0 <= i < |t| ==> t[i] < radix[i]
  }

  /** The value of a digit vector in the mixed radix `radix`, most significant first. */
  function Num(t: seq<nat>, radix: seq<nat>): nat
    requires |t| == |radix|
  {
    if |t| == 0 then 0 else t[0] * Total(radix[1..]) + Num(t[1..], radix[1..])
  }

  /** The radix of each digit of a bounded vector: its cap plus one. */
  function Radices(sizes: seq<nat>): (r: seq<nat>)
    ensures |r| == |sizes| && forall i :: 0 <= i < |sizes| ==> r[i] == MaxDigit(sizes[i]) + 1
  {
    seq(|sizes|, i requires 0 <= i < |sizes| => MaxDigit(sizes[i]) + 1)
  }

  /** The same radix `b` for every one of `n` digits. */
  function Uniform(n: nat, b: nat): (r: seq<nat>)
    ensures |r| == n && forall i :: 0 <= i < n ==> r[i] == b
  {
    seq(n, _ => b)
  }

  lemma BoundedInRange(t: seq<nat>, sizes: seq<nat>)
    requires Bounded(t, sizes)
    ensures forall v :: 0 <= v < |sizes| ==> sizes[v] > 0 ==> t[v] < sizes[v]
  {
  }

  lemma BoundedFits(t: seq<nat>, sizes: seq<nat>)
    requires Bounded(t, sizes)
    ensures Fits(t, Radices(sizes))
  {
  }

  lemma MulMono(a: nat, b: nat, c: nat)
    requires a <= b
    ensures a * c <= b * c
  {
  }

  lemma {:induction false} NumBelowTotal(t: seq<nat>, radix: seq<nat>)
    requires Fits(t, radix)
    ensures Num(t, radix) < Total(radix)
    decreases |t|
  {
    if |t| > 0 {
      var rest := Total(radix[1..]);
      NumBelowTotal(t[1..], radix[1..]);
      MulMono(t[0] + 1, radix[0], rest);
      assert (t[0] + 1) * rest == t[0] * rest + rest;
    }
  }

  /** The lexicographic order on fitting vectors is the order of their values. */
  lemma {:induction false} LexLessNum(a: seq<nat>, b: seq<nat>, radix: seq<nat>)
    requires Fits(a, radix) && Fits(b, radix) && LexLess(a, b)
    ensures Num(a, radix) < Num(b, radix)
    decreases |a|
  {
    var k :| 0 <= k < |a| && a[..k] == b[..k] && a[k] < b[k];
    var rest := Total(radix[1..]);
    var lowA, lowB := Num(a[1..], radix[1..]), Num(b[1..], radix[1..]);
    if k == 0 {
      NumBelowTotal(a[1..], radix[1..]);
      HeadDigitStep(a[0], b[0], lowA, lowB, rest);
    } else {
      assert a[0] == a[..k][0] == b[..k][0] == b[0];
      assert a[1..][..k - 1] == a[..k][1..] && b[1..][..k - 1] == b[..k][1..];
      assert a[1..][k - 1] == a[k] && b[1..][k - 1] == b[k];
      LexLessNum(a[1..], b[1..], radix[1..]);
    }
  }

  /** A smaller leading digit outweighs any lower digits below the weight `rest`. */
  lemma HeadDigitStep(a0: nat, b0: nat, lowA: nat, lowB: nat, rest: nat)
    requires a0 < b0 && lowA < rest
    ensures a0 * rest + lowA < b0 * rest + lowB
  {
    MulMono(a0 + 1, b0, rest);
    MulSucc(a0, rest);
  }

  lemma MulSucc(a: nat, r: nat)
    ensures (a + 1) * r == a * r + r
  {
  }

  /**
   * A position in a two-level enumeration: the room left at the outer
   * level, then the room left among the `total` values of the inner one.
   */
  function Position(room: nat, total: nat, pos: nat): nat
  {
    room * (total + 1) + (if pos <= total then total - pos else 0)
  }

  /** Less outer room means an earlier position, whatever the inner values. */
  lemma PositionOuterStep(room: nat, room': nat, total: nat, pos: nat, pos': nat)
    requires room' < room
    ensures Position(room', total, pos') < Position(room, total, pos)
  {
    MulMono(room' + 1, room, total + 1);
    assert (room' + 1) * (total + 1) == room' * (total + 1) + total + 1;
  }

  /** The same outer room and a larger inner value mean an earlier position. */
  lemma PositionInnerStep(room: nat, total: nat, pos: nat, pos': nat)
    requires pos < pos' < total
    ensures Position(room, total, pos') < Position(room, total, pos)
  {
  }

  /** The fitting vectors' values are below the total, so they fit a position. */
  lemma LexLessPosition(room: nat, a: seq<nat>, b: seq<nat>, radix: seq<nat>)
    requires Fits(a, radix) && Fits(b, radix) && LexLess(a, b)
    ensures Position(room, Total(radix), Num(b, radix)) < Position(room, Total(radix), Num(a, radix))
  {
    LexLessNum(a, b, radix);
    NumBelowTotal(b, radix);
    PositionInnerStep(room, Total(radix), Num(a, radix), Num(b, radix));
  }

  // ------------------------------------------------------------------
  // Permutations

  predicate NonDecreasing(s: seq<nat>)
  {
    forall i, j :: 0 <= i < j < |s| ==> s[i] <= s[j]
  }

  function Reversed(s: seq<nat>): (r: seq<nat>)
    ensures |r| == |s| && forall i :: 0 <= i < |s| ==> r[i] == s[|s| - 1 - i]
  {
    seq(|s|, i requires 0 <= i < |s| => s[|s| - 1 - i])
  }

  /** Reversal only reorders. */
  lemma {:induction false} ReversedMultiset(s: seq<nat>)
    ensures multiset(Reversed(s)) == multiset(s)
  {
    if |s| > 0 {
      assert s == [s[0]] + s[1..];
      assert Reversed(s) == Reversed(s[1..]) + [s[0]];
      ReversedMultiset(s[1..]);
    }
  }

  /** A permutation of digits that are at most `m` fits the radix `m + 1`. */
  lemma PermutationFits(t: seq<nat>, s: seq<nat>, m: nat)
    requires multiset(t) == multiset(s) && forall i :: 0 <= i < |s| ==> s[i] <= m
    ensures Fits(t, Uniform(|t|, m + 1))
  {
    forall i | 0 <= i < |t|
      ensures t[i] <= m
    {
      assert t[i] in multiset(s);
    }
  }

  /**
   * The score order: the later digits are the more significant ones, so
   * a score comes before another when its reversal does.
   */
  predicate ScoreLess(a: seq<nat>, b: seq<nat>)
  {
    LexLess(Reversed(a), Reversed(b))
  }

  /** The score after raising digit `d` and clearing the digits below it. */
  function RaiseDigit(s: seq<nat>, d: nat): (r: seq<nat>)
    requires d < |s|
    ensures |r| == |s| && r[d] == s[d] + 1
  {
    Zeros(d) + [s[d] + 1] + s[d + 1..]
  }

  /** The raised score: zeros below `d`, one more at `d`, the old digits above. */
  lemma RaiseDigitShape(s: seq<nat>, d: nat)
    requires d < |s|
    ensures var r := RaiseDigit(s, d);
            (forall j :: 0 <= j < d ==> r[j] == 0) && forall j :: d < j < |s| ==> r[j] == s[j]
  {
  }

  /** Raising a digit moves the score forward in the score order. */
  lemma RaiseDigitScoreLess(s: seq<nat>, d: nat)
    requires d < |s|
    ensures ScoreLess(s, RaiseDigit(s, d))
  {
    var r := RaiseDigit(s, d);
    RaiseDigitShape(s, d);
    var a, b := Reversed(s), Reversed(r);
    var k := |s| - 1 - d;
    assert a[..k] == b[..k];
    assert a[k] < b[k];
  }

  /** Digit `d` may grow: it is below its successor or, for the last digit, below `m`. */
  predicate Raisable(s: seq<nat>, d: nat, m: nat)
    requires d < |s|
  {
    (d + 1 < |s| && s[d] < s[d + 1]) || (d + 1 == |s| && s[d] < m)
  }

  /**
   * Raising the first digit below its successor (or, for the last digit,
   * below `m`) keeps a sorted score sorted and within `m`.
   */
  lemma RaiseDigitSorted(s: seq<nat>, d: nat, m: nat)
    requires d < |s| && NonDecreasing(s) && forall i :: 0 <= i < |s| ==> s[i] <= m
    requires Raisable(s, d, m)
    ensures NonDecreasing(RaiseDigit(s, d))
    ensures forall i :: 0 <= i < |s| ==> RaiseDigit(s, d)[i] <= m
  {
    RaiseDigitShape(s, d);
  }

  /**
   * A sorted score that has no digit below its successor and whose last
   * digit reached `m` is `m` everywhere.
   */
  lemma NoRaiseAllMax(s: seq<nat>, m: nat)
    requires |s| >= 1 && NonDecreasing(s) && forall i :: 0 <= i < |s| ==> s[i] <= m
    requires forall j :: 0 <= j < |s| ==> !Raisable(s, j, m)
    ensures forall i :: 0 <= i < |s| ==> s[i] == m
  {
    assert s[|s| - 1] >= m by {
      assert !Raisable(s, |s| - 1, m);
    }
    forall k | 0 <= k < |s| - 1
      ensures s[k] >= s[k + 1]
    {
      assert !Raisable(s, k, m);
    }
    forall i | 0 <= i < |s|
      ensures s[i] == m
    {
      NonIncreasingRun(s, 0, i, |s| - 1);
    }
  }

  lemma SwapMultiset(s: seq<nat>, a: nat, b: nat)
    requires a < |s| && b < |s|
    ensures multiset(s[a := s[b]][b := s[a]]) == multiset(s)
  {
  }

  /**
   * `std::next_permutation`: the next arrangement in lexicographic order,
   * or, when there is none, the first one (sorted) and `false`.
   */
  method NextPermutation(s: seq<nat>) returns (ok: bool, r: seq<nat>)
    ensures |r| == |s| && multiset(r) == multiset(s)
    ensures ok ==> LexLess(s, r)
    ensures ok ==> forall p: seq<nat> {:trigger LexLess(s, p)} :: |p| == |s| && multiset(p) == multiset(s) && LexLess(s, p) ==> p == r || LexLess(r, p)
    ensures !ok ==> NonDecreasing(r)
    ensures !ok ==> forall p: seq<nat> {:trigger LexLess(s, p)} :: |p| == |s| && multiset(p) == multiset(s) ==> !LexLess(s, p)
  {
    if |s| < 2 {
      forall p: seq<nat> | |p| == |s| && multiset(p) == multiset(s)
        ensures !LexLess(s, p)
      {
        NonIncreasingLexMax(s, p);
      }
      return false, s;
    }
    // the longest non-increasing suffix starts at i
    var i := |s| - 1;
    while i > 0 && s[i - 1] >= s[i]
      invariant 0 <= i <= |s| - 1
      invariant forall k :: i <= k < |s| - 1 ==> s[k] >= s[k + 1]
    {
      i := i - 1;
    }
    if i == 0 {
      SortedReversal(s);
      ReversedMultiset(s);
      forall p: seq<nat> | |p| == |s| && multiset(p) == multiset(s)
        ensures !LexLess(s, p)
      {
        NonIncreasingLexMax(s, p);
      }
      return false, Reversed(s);
    }
    // the rightmost digit of the suffix above the pivot s[i - 1]
    var j := |s| - 1;
    while s[j] <= s[i - 1]
      invariant i <= j < |s|
      invariant forall m :: j < m < |s| ==> s[m] <= s[i - 1]
      decreases j
    {
      j := j - 1;
    }
    var swapped := s[i - 1 := s[j]][j := s[i - 1]];
    r := swapped[..i] + Reversed(swapped[i..]);
    SwapReverse(s, i, j);
    assert r == Successor(s, i, j);
    forall p: seq<nat> | |p| == |s| && multiset(p) == multiset(s) && LexLess(s, p)
      ensures p == r || LexLess(r, p)
    {
      NextPermutationLeast(s, i, j, p);
    }
    ok := true;
  }

  /**
   * No permutation lies strictly between `s` and its successor: a later
   * permutation differs first at the pivot, with at least the swapped-in
   * digit there, or has the same prefix and a suffix no earlier than the
   * sorted one.
   */
  lemma NextPermutationLeast(s: seq<nat>, i: nat, j: nat, p: seq<nat>)
    requires 0 < i <= j < |s| && s[j] > s[i - 1]
    requires forall k :: i <= k < |s| - 1 ==> s[k] >= s[k + 1]
    requires forall m :: j < m < |s| ==> s[m] <= s[i - 1]
    requires |p| == |s| && multiset(p) == multiset(s) && LexLess(s, p)
    ensures p == Successor(s, i, j) || LexLess(Successor(s, i, j), p)
  {
    var r := Successor(s, i, j);
    var k :| 0 <= k < |s| && s[..k] == p[..k] && s[k] < p[k];
    var m := LaterDigit(s, p, k);
    if k >= i {
      NonIncreasingRun(s, i, k, m);
    } else if k < i - 1 {
      assert r[..k] == r[..i - 1][..k] && s[..k] == s[..i - 1][..k];
      assert r[k] == r[..i - 1][k];
    } else if p[i - 1] > s[j] {
      assert r[..k] == p[..k];
    } else {
      NonIncreasingRun(s, i, m, j);
      PivotTie(s, i, j, p);
    }
  }

  /**
   * The successor of `s` and its image `swapped`: the pivot `s[i - 1]`
   * swapped with the larger `s[j]`, then the suffix after the pivot reversed.
   */
  function Successor(s: seq<nat>, i: nat, j: nat): (r: seq<nat>)
    requires 0 < i <= j < |s|
    ensures |r| == |s| && r[..i - 1] == s[..i - 1] && r[i - 1] == s[j]
    ensures r[i..] == Reversed(s[i - 1 := s[j]][j := s[i - 1]][i..])
  {
    var swapped := s[i - 1 := s[j]][j := s[i - 1]];
    assert swapped[..i - 1] == s[..i - 1];
    swapped[..i] + Reversed(swapped[i..])
  }

  /** A later permutation that agrees with `s` before the pivot and puts `s[j]` there comes no earlier than the successor. */
  lemma PivotTie(s: seq<nat>, i: nat, j: nat, p: seq<nat>)
    requires 0 < i <= j < |s| && s[j] > s[i - 1]
    requires forall k :: i <= k < |s| - 1 ==> s[k] >= s[k + 1]
    requires forall m :: j < m < |s| ==> s[m] <= s[i - 1]
    requires |p| == |s| && multiset(p) == multiset(s) && p[..i - 1] == s[..i - 1] && p[i - 1] == s[j]
    ensures p == Successor(s, i, j) || LexLess(Successor(s, i, j), p)
  {
    var r := Successor(s, i, j);
    var swapped := s[i - 1 := s[j]][j := s[i - 1]];
    SwapReverse(s, i, j);
    assert r[..i] == r[..i - 1] + [r[i - 1]] && p[..i] == p[..i - 1] + [p[i - 1]];
    SwappedSuffix(s, i, j);
    SortedReversal(swapped[i..]);
    SortedSuffixLeast(r, p, i);
  }

  /** The digit `p` puts where it first exceeds its permutation `s` occurs in `s` at or after that place. */
  lemma LaterDigit(s: seq<nat>, p: seq<nat>, k: nat) returns (m: nat)
    requires k < |p| == |s| && p[..k] == s[..k] && multiset(p) == multiset(s)
    ensures k <= m < |s| && s[m] == p[k]
  {
    PrefixPermTail(p, s, k);
    assert p[k] in multiset(p[k..]);
    assert p[k] in s[k..];
    var m' :| 0 <= m' < |s[k..]| && s[k..][m'] == p[k];
    m := k + m';
  }

  /** After the swap the suffix is still non-increasing. */
  lemma SwappedSuffix(s: seq<nat>, i: nat, j: nat)
    requires 0 < i <= j < |s| && s[j] > s[i - 1]
    requires forall k :: i <= k < |s| - 1 ==> s[k] >= s[k + 1]
    requires forall m :: j < m < |s| ==> s[m] <= s[i - 1]
    ensures var x := s[i - 1 := s[j]][j := s[i - 1]][i..];
            forall k :: 0 <= k < |x| - 1 ==> x[k] >= x[k + 1]
  {
  }

  /**
   * A permutation sharing the first `i` digits with a sequence whose
   * remaining digits are sorted is that sequence or comes after it.
   */
  lemma SortedSuffixLeast(r: seq<nat>, p: seq<nat>, i: nat)
    requires i <= |r| == |p| && r[..i] == p[..i] && multiset(p) == multiset(r)
    requires NonDecreasing(r[i..])
    ensures p == r || LexLess(r, p)
  {
    PrefixPermTail(p, r, i);
    SortedLexMin(r[i..], p[i..]);
    if r[i..] == p[i..] {
      assert r == r[..i] + r[i..] && p == p[..i] + p[i..];
    } else {
      LexLessAfter(r, p, i);
    }
  }

  /** Two sequences equal in their first `i` digits and lexicographically ordered after them are ordered. */
  lemma LexLessAfter(a: seq<nat>, b: seq<nat>, i: nat)
    requires i <= |a| == |b| && a[..i] == b[..i] && LexLess(a[i..], b[i..])
    ensures LexLess(a, b)
  {
    var k :| 0 <= k < |a| - i && a[i..][..k] == b[i..][..k] && a[i..][k] < b[i..][k];
    assert a[..i + k] == a[..i] + a[i..][..k];
    assert b[..i + k] == b[..i] + b[i..][..k];
  }

  /** Permutations equal in their first `k` digits are permutations of each other after them. */
  lemma PrefixPermTail(p: seq<nat>, s: seq<nat>, k: nat)
    requires k <= |p| == |s| && p[..k] == s[..k] && multiset(p) == multiset(s)
    ensures multiset(p[k..]) == multiset(s[k..])
  {
    assert p == p[..k] + p[k..];
    assert s == s[..k] + s[k..];
    assert multiset(p[k..]) == multiset(p) - multiset(p[..k]);
    assert multiset(s[k..]) == multiset(s) - multiset(s[..k]);
  }

  /** A sorted sequence comes first among its permutations. */
  lemma {:induction false} SortedLexMin(x: seq<nat>, y: seq<nat>)
    requires NonDecreasing(x) && |x| == |y| && multiset(x) == multiset(y)
    ensures x == y || LexLess(x, y)
    decreases |x|
  {
    if |x| > 0 {
      assert y[0] in multiset(x);
      var m :| 0 <= m < |x| && x[m] == y[0];
      if x[0] < y[0] {
        assert x[..0] == y[..0];
      } else {
        assert x[0] == y[0];
        PrefixPermTail(x, y, 1);
        SortedLexMin(x[1..], y[1..]);
        if x[1..] == y[1..] {
          assert x == [x[0]] + x[1..] && y == [y[0]] + y[1..];
        } else {
          LexLessAfter(x, y, 1);
        }
      }
    }
  }

  /** A non-increasing sequence comes last among its permutations. */
  lemma NonIncreasingLexMax(x: seq<nat>, y: seq<nat>)
    requires forall k :: 0 <= k < |x| - 1 ==> x[k] >= x[k + 1]
    requires |x| == |y| && multiset(x) == multiset(y)
    ensures !LexLess(x, y)
  {
    if LexLess(x, y) {
      var k :| 0 <= k < |x| && x[..k] == y[..k] && x[k] < y[k];
      PrefixPermTail(y, x, k);
      assert y[k] in multiset(x[k..]);
      assert y[k] in x[k..];
      var m' :| 0 <= m' < |x[k..]| && x[k..][m'] == y[k];
      NonIncreasingRun(x, 0, k, k + m');
    }
  }

  /** The lexicographic order is irreflexive. */
  lemma LexLessIrrefl(a: seq<nat>)
    ensures !LexLess(a, a)
  {
  }

  /** The lexicographic order is asymmetric. */
  lemma LexLessAsym(a: seq<nat>, b: seq<nat>)
    requires LexLess(a, b)
    ensures !LexLess(b, a) && a != b
  {
    LexLessIrrefl(a);
    if LexLess(b, a) {
      LexLessTrans(a, b, a);
    }
  }

  /** Any two sequences of one length are equal or ordered. */
  lemma {:induction false} LexTotal(a: seq<nat>, b: seq<nat>)
    requires |a| == |b|
    ensures a == b || LexLess(a, b) || LexLess(b, a)
    decreases |a|
  {
    if |a| > 0 {
      if a[0] != b[0] {
        assert a[..0] == b[..0];
      } else {
        LexTotal(a[1..], b[1..]);
        if a[1..] == b[1..] {
          assert a == [a[0]] + a[1..] && b == [b[0]] + b[1..];
        } else if LexLess(a[1..], b[1..]) {
          assert a[..1] == b[..1];
          LexLessAfter(a, b, 1);
        } else {
          assert a[..1] == b[..1];
          LexLessAfter(b, a, 1);
        }
      }
    }
  }

  /** A non-increasing sequence reversed is sorted. */
  lemma SortedReversal(s: seq<nat>)
    requires forall k :: 0 <= k < |s| - 1 ==> s[k] >= s[k + 1]
    ensures NonDecreasing(Reversed(s))
  {
    forall a, b | 0 <= a < b < |s|
      ensures s[a] >= s[b]
    {
      NonIncreasingRun(s, 0, a, b);
    }
  }

  /** Swapping the pivot with a larger later digit and reversing the suffix gives a later permutation. */
  lemma SwapReverse(s: seq<nat>, i: nat, j: nat)
    requires 0 < i <= j < |s| && s[j] > s[i - 1]
    ensures var swapped := s[i - 1 := s[j]][j := s[i - 1]];
            var r := swapped[..i] + Reversed(swapped[i..]);
            |r| == |s| && multiset(r) == multiset(s) && LexLess(s, r)
  {
    var swapped := s[i - 1 := s[j]][j := s[i - 1]];
    var r := swapped[..i] + Reversed(swapped[i..]);
    SwapMultiset(s, i - 1, j);
    ReversedMultiset(swapped[i..]);
    assert swapped == swapped[..i] + swapped[i..];
    assert r[..i - 1] == s[..i - 1];
  }

  lemma {:induction false} NonIncreasingRun(s: seq<nat>, i: nat, a: nat, b: nat)
    requires i <= a <= b < |s|
    requires forall k :: i <= k < |s| - 1 ==> s[k] >= s[k + 1]
    ensures s[a] >= s[b]
    decreases b - a
  {
    if a < b {
      NonIncreasingRun(s, i, a + 1, b);
    }
  }
}
