/**
 * Semantics of (chain) resolution over nodes read as clauses.
 *
 * A premise is read either as a clause (an OR node, each child a literal) or
 * as a single literal. A resolution step with pivot L and polarity id
 * removes the first occurrence of L (id = true) or of (not L) (id = false)
 * from the accumulated clause and the first occurrence of the opposite
 * literal from the next premise, then concatenates what is left. A chain of
 * n premises carries 2*(n-1) arguments: polarity, pivot, polarity, pivot...
 * The conclusion is `false` when no literal is left, the literal itself
 * when one is left, and the OR of the remaining literals otherwise.
 */
module Resolution {
  import opened Terms

  /** Removes the first occurrence of `x` from `s`; `s` itself if absent. */
  function RemoveFirst(s: seq<Term>, x: Term): (r: seq<Term>)
    ensures x !in s ==> r == s
    ensures x in s ==> |r| == |s| - 1
  {
    if |s| == 0 then []
    else if s[0] == x then s[1..]
    else [s[0]] + RemoveFirst(s[1..], x)
  }

  /** `RemoveFirst` takes away exactly one occurrence of `x`, if there is one. */
  lemma {:induction false} RemoveFirstMultiset(s: seq<Term>, x: Term)
    ensures multiset(RemoveFirst(s, x)) == multiset(s) - multiset{x}
  {
    if |s| > 0 {
      assert s == [s[0]] + s[1..];
      if s[0] != x {
        RemoveFirstMultiset(s[1..], x);
      }
    }
  }

  /** Every other literal survives `RemoveFirst`. */
  lemma RemoveFirstKeeps(s: seq<Term>, x: Term, y: Term)
    requires y in s && y != x
    ensures y in RemoveFirst(s, x)
  {
    RemoveFirstMultiset(s, x);
    assert y in multiset(s);
    assert y in multiset(RemoveFirst(s, x));
  }

  /** A chain of premises with its polarity/pivot argument pairs. */
  predicate WellFormedChain(children: seq<Term>, args: seq<Term>)
  {
    |children| >= 2 && |args| == 2 * (|children| - 1)
  }

  /** The pair an argument position belongs to: position `j` is slot `j - 2h` of pair `h`. */
  function Half(j: nat, n: nat): (h: nat)
    requires j < 2 * n
    ensures h < n && (j == 2 * h || j == 2 * h + 1)
  {
    j / 2
  }

  /** Two argument lists that agree on every polarity and pivot slot are equal. */
  lemma SameArgs(a: seq<Term>, b: seq<Term>, n: nat)
    requires |a| == |b| == 2 * n
    requires forall j :: 1 <= j <= n ==> PolArg(a, j) == PolArg(b, j) && PivotArg(a, j) == PivotArg(b, j)
    ensures a == b
  {
    forall k | 0 <= k < |a|
      ensures a[k] == b[k]
    {
      var h := Half(k, n);
      assert PolArg(a, h + 1) == PolArg(b, h + 1) && PivotArg(a, h + 1) == PivotArg(b, h + 1);
    }
  }

  /** The polarity slot of the link that resolves in premise `j` (j >= 1). */
  function PolArg(args: seq<Term>, j: nat): Term
    requires 1 <= j && 2 * j <= |args|
  {
    args[2 * (j - 1)]
  }

  /** The pivot slot of the link that resolves in premise `j` (j >= 1). */
  function PivotArg(args: seq<Term>, j: nat): Term
    requires 1 <= j && 2 * j <= |args|
  {
    args[2 * (j - 1) + 1]
  }

  /**
   * Whether premise `k` is read as a clause. It must be an OR node; the
   * first premise is read as a literal only when it is the pivot of the
   * first link under polarity true, any other premise only when it is the
   * pivot of its own link under polarity false.
   */
  predicate ReadAsClause(children: seq<Term>, args: seq<Term>, k: nat)
    requires WellFormedChain(children, args) && k < |children|
  {
    KindOf(children[k]) == OR
    && (if k == 0 then args[0] != True || children[0] != args[1]
        else PolArg(args, k) != False || PivotArg(args, k) != children[k])
  }

  /** The literals premise `k` contributes. */
  function PremiseLits(children: seq<Term>, args: seq<Term>, k: nat): seq<Term>
    requires WellFormedChain(children, args) && k < |children|
  {
    if ReadAsClause(children, args, k) then Children(children[k]) else [children[k]]
  }

  /** One binary resolution step on literal sequences. */
  function Resolve(c1: seq<Term>, c2: seq<Term>, pol: bool, pivot: Term): seq<Term>
  {
    if pol then RemoveFirst(c1, pivot) + RemoveFirst(c2, Not(pivot))
    else RemoveFirst(c1, Not(pivot)) + RemoveFirst(c2, pivot)
  }

  /** The literals left after resolving the first `m` premises. */
  function Resolvent(children: seq<Term>, args: seq<Term>, m: nat): seq<Term>
    requires WellFormedChain(children, args) && 1 <= m <= |children|
  {
    if m == 1 then PremiseLits(children, args, 0)
    else
      Resolve(Resolvent(children, args, m - 1), PremiseLits(children, args, m - 1),
              PolArg(args, m - 1) == True, PivotArg(args, m - 1))
  }

  /** The node a literal sequence denotes as a conclusion. */
  function ClauseToNode(lits: seq<Term>): (r: Term)
    ensures |lits| == 0 ==> r == False
    ensures |lits| == 1 ==> r == lits[0]
    ensures |lits| >= 2 ==> KindOf(r) == OR && Children(r) == lits
  {
    if |lits| == 0 then False
    else if |lits| == 1 then lits[0]
    else App(OR, lits)
  }

  /** The conclusion of CHAIN_RESOLUTION on these premises and arguments. */
  function ChainConclusion(children: seq<Term>, args: seq<Term>): Term
    requires WellFormedChain(children, args)
  {
    ClauseToNode(Resolvent(children, args, |children|))
  }

  /**
   * Whether a link with this pivot and polarity removes literal `lit` from
   * the resolvent: `lit` is the pivot under polarity true, or either one is
   * the negation of the other under polarity false.
   */
  predicate Eliminates(lit: Term, pivot: Term, posFirst: bool)
  {
    (lit == pivot && posFirst)
    || (Not(lit) == pivot && !posFirst)
    || (Not(pivot) == lit && !posFirst)
  }

  /** The pivot of the link premise `k` takes part in: the first pivot for premise 0, else its own link's. */
  function SearchPivot(args: seq<Term>, k: nat): Term
    requires 2 <= |args| && 2 * k <= |args|
  {
    if k == 0 then args[1] else PivotArg(args, k)
  }

  /**
   * Premise `k` may introduce `res` into the resolvent: it is an OR node
   * that is neither the pivot of its link nor that pivot's negation, and
   * `res` is one of its children.
   */
  predicate Introduces(children: seq<Term>, args: seq<Term>, k: nat, res: Term)
    requires WellFormedChain(children, args) && k < |children|
  {
    KindOf(children[k]) == OR && SearchPivot(args, k) != children[k] && Not(SearchPivot(args, k)) != children[k]
    && res in Children(children[k])
  }

  /** Whether link `j` (1 <= j < n) eliminates `res`. */
  predicate LinkEliminates(children: seq<Term>, args: seq<Term>, j: nat, res: Term)
    requires WellFormedChain(children, args) && 1 <= j < |children|
  {
    Eliminates(res, PivotArg(args, j), PolArg(args, j) == True)
  }

  /**
   * Whether the conclusion `res` of a chain stands for the single literal
   * `res` rather than for the clause of its children: `res` is not an OR,
   * or the last premise that introduces `res` as a literal is followed by
   * no link eliminating it.
   */
  predicate IsSingletonSpec(children: seq<Term>, args: seq<Term>, res: Term)
    requires WellFormedChain(children, args)
  {
    KindOf(res) != OR
    || exists k :: 0 <= k < |children| && Introduces(children, args, k, res)
         && (forall k' :: k < k' < |children| ==> !Introduces(children, args, k', res))
         && (forall j :: k < j < |children| ==> !LinkEliminates(children, args, j, res))
  }

  /**
   * Whether the conclusion `res` of a chain stands for the single literal
   * `res` when its last introducing premise is `k`: exactly when no later
   * link eliminates it.
   */
  lemma {:induction false} IsSingletonAt(children: seq<Term>, args: seq<Term>, res: Term, k: nat)
    requires WellFormedChain(children, args) && KindOf(res) == OR && k < |children|
    requires Introduces(children, args, k, res)
    requires forall k' :: k < k' < |children| ==> !Introduces(children, args, k', res)
    ensures IsSingletonSpec(children, args, res) <==>
      forall j :: k < j < |children| ==> !LinkEliminates(children, args, j, res)
  {
    if IsSingletonSpec(children, args, res) {
      var k2 :| 0 <= k2 < |children| && Introduces(children, args, k2, res)
         && (forall k' :: k2 < k' < |children| ==> !Introduces(children, args, k', res))
         && (forall j :: k2 < j < |children| ==> !LinkEliminates(children, args, j, res));
      assert k2 == k;
    }
  }

  // ------------------------------------------------------------------
  // The singleton search, shared by the veriT and Lean translations

  /** The last premise that introduces `res`, plus one; zero when none does. */
  method LastIntroducer(res: Term, children: seq<Term>, args: seq<Term>) returns (i: nat)
    requires WellFormedChain(children, args)
    ensures i <= |children|
    ensures i > 0 ==> Introduces(children, args, i - 1, res)
    ensures forall k' :: i <= k' < |children| ==> !Introduces(children, args, k', res)
  {
    var n := |children|;
    i := n;
    while i > 0
      invariant 0 <= i <= n
      invariant forall k' :: i <= k' < n ==> !Introduces(children, args, k', res)
    {
      if KindOf(children[i - 1]) == OR {
        var pivotIndex := if i != 1 then 2 * (i - 1) - 1 else 1;
        if args[pivotIndex] != children[i - 1] && Not(args[pivotIndex]) != children[i - 1] {
          if res in Children(children[i - 1]) {
            assert Introduces(children, args, i - 1, res);
            return;
          }
        }
      }
      i := i - 1;
    }
  }

  /** Whether some link from `from` on eliminates `res`. */
  method EliminatedFrom(res: Term, children: seq<Term>, args: seq<Term>, from: nat) returns (eliminated: bool)
    requires WellFormedChain(children, args) && 1 <= from
    ensures eliminated <==> exists j :: from <= j < |children| && LinkEliminates(children, args, j, res)
  {
    var i := from;
    while i < |children|
      invariant from <= i
      invariant forall j :: from <= j < i && j < |children| ==> !LinkEliminates(children, args, j, res)
    {
      var posFirst := args[2 * i - 2] == True;
      var pivot := args[2 * i - 1];
      if (res == pivot && posFirst) || (Not(res) == pivot && !posFirst) || (Not(pivot) == res && !posFirst) {
        assert LinkEliminates(children, args, i, res);
        return true;
      }
      i := i + 1;
    }
    return false;
  }

  // ------------------------------------------------------------------
  // Soundness of the semantics: true premises give a true conclusion.

  lemma SatClauseMember(lits: seq<Term>, val: iset<Term>)
    ensures SatClause(lits, val) <==> exists y :: y in lits && Eval(y, val)
  {
    if SatClause(lits, val) {
      var i :| 0 <= i < |lits| && Eval(lits[i], val);
      assert lits[i] in lits;
    }
    if exists y :: y in lits && Eval(y, val) {
      var y :| y in lits && Eval(y, val);
      var i :| 0 <= i < |lits| && lits[i] == y;
    }
  }

  lemma ResolveSound(c1: seq<Term>, c2: seq<Term>, pol: bool, pivot: Term, val: iset<Term>)
    requires SatClause(c1, val) && SatClause(c2, val)
    ensures SatClause(Resolve(c1, c2, pol, pivot), val)
  {
    var r := Resolve(c1, c2, pol, pivot);
    SatClauseMember(c1, val);
    SatClauseMember(c2, val);
    SatClauseMember(r, val);
    var y1 :| y1 in c1 && Eval(y1, val);
    var y2 :| y2 in c2 && Eval(y2, val);
    EvalNot(pivot, val);
    var gone1 := if pol then pivot else Not(pivot);
    var gone2 := if pol then Not(pivot) else pivot;
    assert r == RemoveFirst(c1, gone1) + RemoveFirst(c2, gone2);
    if y1 != gone1 {
      RemoveFirstKeeps(c1, gone1, y1);
      assert y1 in r;
    } else {
      assert Eval(gone1, val);
      assert y2 != gone2;
      RemoveFirstKeeps(c2, gone2, y2);
      assert y2 in r;
    }
  }

  lemma PremiseLitsSound(children: seq<Term>, args: seq<Term>, k: nat, val: iset<Term>)
    requires WellFormedChain(children, args) && k < |children|
    requires Eval(children[k], val)
    ensures SatClause(PremiseLits(children, args, k), val)
  {
    if ReadAsClause(children, args, k) {
      EvalOr(children[k].args, val);
    } else {
      assert PremiseLits(children, args, k)[0] == children[k];
    }
  }

  lemma {:induction false} ResolventSound(children: seq<Term>, args: seq<Term>, m: nat,
                                         val: iset<Term>)
    requires WellFormedChain(children, args) && 1 <= m <= |children|
    requires TrueUpTo(children, val, m)
    ensures SatClause(Resolvent(children, args, m), val)
    decreases m
  {
    if m == 1 {
      PremiseLitsSound(children, args, 0, val);
    } else {
      ResolventSound(children, args, m - 1, val);
      ResolventStepSound(children, args, m, val);
    }
  }

  /** The first `m` premises are true under `val`. */
  ghost predicate TrueUpTo(children: seq<Term>, val: iset<Term>, m: nat)
    requires m <= |children|
    decreases m
  {
    m == 0 || (Eval(children[m - 1], val) && TrueUpTo(children, val, m - 1))
  }

  lemma {:induction false} AllTrue(children: seq<Term>, val: iset<Term>, m: nat)
    requires m <= |children|
    requires forall k :: 0 <= k < m ==> Eval(children[k], val)
    ensures TrueUpTo(children, val, m)
    decreases m
  {
    if m > 0 {
      AllTrue(children, val, m - 1);
    }
  }

  /** One link of the chain: a satisfied resolvent and a true premise give a satisfied resolvent. */
  lemma ResolventStepSound(children: seq<Term>, args: seq<Term>, m: nat, val: iset<Term>)
    requires WellFormedChain(children, args) && 2 <= m <= |children|
    requires SatClause(Resolvent(children, args, m - 1), val) && Eval(children[m - 1], val)
    ensures SatClause(Resolvent(children, args, m), val)
  {
    PremiseLitsSound(children, args, m - 1, val);
    ResolveSound(Resolvent(children, args, m - 1), PremiseLits(children, args, m - 1),
                 PolArg(args, m - 1) == True, PivotArg(args, m - 1), val);
  }

  /** Link j >= 1 resolves against a unit premise that the link removes entirely. */
  predicate UnitLink(children: seq<Term>, args: seq<Term>, j: nat)
    requires WellFormedChain(children, args) && 1 <= j < |children|
  {
    !ReadAsClause(children, args, j)
    && children[j] == (if PolArg(args, j) == True then Not(PivotArg(args, j)) else PivotArg(args, j))
  }

  /** The literal link j >= 1 removes from what was accumulated. */
  function Removed(args: seq<Term>, j: nat): Term
    requires 1 <= j && 2 * j <= |args|
  {
    if PolArg(args, j) == True then PivotArg(args, j) else Not(PivotArg(args, j))
  }

  /** `lits` with one occurrence of each of the first `k` of `rs` removed, in that order. */
  function RemoveEach(lits: seq<Term>, rs: seq<Term>, k: nat): seq<Term>
    requires k <= |rs|
  {
    if k == 0 then lits
    else RemoveFirst(RemoveEach(lits, rs, k - 1), rs[k - 1])
  }

  lemma {:induction false} RemoveEachMultiset(lits: seq<Term>, rs: seq<Term>, k: nat)
    requires k <= |rs|
    ensures multiset(RemoveEach(lits, rs, k)) == multiset(lits) - multiset(rs[..k])
  {
    if k > 0 {
      var prev, x := RemoveEach(lits, rs, k - 1), rs[k - 1];
      calc {
        multiset(RemoveEach(lits, rs, k));
        multiset(RemoveFirst(prev, x));
        { RemoveFirstMultiset(prev, x); }
        multiset(prev) - multiset{x};
        { RemoveEachMultiset(lits, rs, k - 1); }
        (multiset(lits) - multiset(rs[..k - 1])) - multiset{x};
        { MultisetDiffDiff(multiset(lits), multiset(rs[..k - 1]), multiset{x}); }
        multiset(lits) - (multiset(rs[..k - 1]) + multiset{x});
        { PrefixMultisetSnoc(rs, k); }
        multiset(lits) - multiset(rs[..k]);
      }
    }
  }

  lemma PrefixMultisetSnoc(rs: seq<Term>, k: nat)
    requires 0 < k <= |rs|
    ensures multiset(rs[..k]) == multiset(rs[..k - 1]) + multiset{rs[k - 1]}
  {
    assert rs[..k] == rs[..k - 1] + [rs[k - 1]];
  }

  /** Removing the literals of `rs` from `[x]` plus them leaves `[x]`. */
  lemma RemoveEachLeaves(lits: seq<Term>, rs: seq<Term>, x: Term)
    requires multiset(lits) == multiset{x} + multiset(rs)
    ensures RemoveEach(lits, rs, |rs|) == [x]
  {
    var r := RemoveEach(lits, rs, |rs|);
    RemoveEachMultiset(lits, rs, |rs|);
    assert rs[..|rs|] == rs;
    MultisetAddDiff(multiset{x}, multiset(rs));
    assert |r| == |multiset(r)| == 1;
    assert r[0] in multiset(r);
  }

  /** Removing every literal of `lits` leaves nothing. */
  lemma RemoveEachAll(lits: seq<Term>, rs: seq<Term>)
    requires multiset(lits) == multiset(rs)
    ensures RemoveEach(lits, rs, |rs|) == []
  {
    var r := RemoveEach(lits, rs, |rs|);
    RemoveEachMultiset(lits, rs, |rs|);
    assert rs[..|rs|] == rs;
    MultisetAddDiff(multiset(rs), multiset(rs));
    assert |r| == |multiset(r)| == 0;
  }

  /**
   * A premise read as the single literal the link removes contributes
   * nothing: the link only removes one occurrence of the pivot (or of its
   * negation) from what was accumulated.
   */
  lemma ResolventUnitStep(children: seq<Term>, args: seq<Term>, m: nat)
    requires WellFormedChain(children, args) && 2 <= m <= |children|
    requires UnitLink(children, args, m - 1)
    ensures Resolvent(children, args, m) == RemoveFirst(Resolvent(children, args, m - 1), Removed(args, m - 1))
  {
    var c := children[m - 1];
    assert PremiseLits(children, args, m - 1) == [c];
    assert RemoveFirst([c], c) == [];
  }

  /**
   * A chain whose links all resolve against units removes, from the first
   * premise's literals, one occurrence of each link's literal.
   */
  lemma {:induction false} ResolventOfUnits(children: seq<Term>, args: seq<Term>, m: nat, removed: seq<Term>)
    requires WellFormedChain(children, args) && 1 <= m <= |children|
    requires |removed| == |children| - 1
    requires UnitLinksUpTo(children, args, removed, m)
    ensures Resolvent(children, args, m) == RemoveEach(PremiseLits(children, args, 0), removed, m - 1)
    decreases m
  {
    if m > 1 {
      ResolventOfUnits(children, args, m - 1, removed);
      ResolventUnitStep(children, args, m);
    }
  }

  /** The whole chain, when every link resolves against a unit. */
  lemma ResolventOfAllUnits(children: seq<Term>, args: seq<Term>, removed: seq<Term>)
    requires WellFormedChain(children, args) && |removed| == |children| - 1
    requires UnitLinksUpTo(children, args, removed, |children|)
    ensures Resolvent(children, args, |children|) == RemoveEach(PremiseLits(children, args, 0), removed, |removed|)
  {
    ResolventOfUnits(children, args, |children|, removed);
  }

  /** Links 1 to m - 1 all resolve against units, link j removing `removed[j - 1]`. */
  ghost predicate UnitLinksUpTo(children: seq<Term>, args: seq<Term>, removed: seq<Term>, m: nat)
    requires WellFormedChain(children, args) && m <= |children| && |removed| == |children| - 1
    decreases m
  {
    m <= 1
    || (UnitLink(children, args, m - 1) && removed[m - 2] == Removed(args, m - 1)
        && UnitLinksUpTo(children, args, removed, m - 1))
  }

  lemma {:induction false} AllUnitLinks(children: seq<Term>, args: seq<Term>, removed: seq<Term>, m: nat)
    requires WellFormedChain(children, args) && m <= |children| && |removed| == |children| - 1
    requires forall j :: 1 <= j < m ==> UnitLink(children, args, j) && removed[j - 1] == Removed(args, j)
    ensures UnitLinksUpTo(children, args, removed, m)
    decreases m
  {
    if m > 1 {
      AllUnitLinks(children, args, removed, m - 1);
    }
  }

  lemma ClauseToNodeEval(lits: seq<Term>, val: iset<Term>)
    ensures Eval(ClauseToNode(lits), val) <==> SatClause(lits, val)
  {
    if |lits| >= 2 {
      EvalOr(lits, val);
    }
  }

  /**
   * CHAIN_RESOLUTION is sound: under any valuation making every premise
   * true, its conclusion is true.
   */
  lemma ChainConclusionSound(children: seq<Term>, args: seq<Term>, val: iset<Term>)
    requires WellFormedChain(children, args)
    requires forall k :: 0 <= k < |children| ==> Eval(children[k], val)
    ensures Eval(ChainConclusion(children, args), val)
  {
    AllTrue(children, val, |children|);
    ResolventSound(children, args, |children|, val);
    ClauseToNodeEval(Resolvent(children, args, |children|), val);
  }
}
