/**
 * SAT literals and clauses as nodes, and the resolution chains that
 * explain a propagated literal or close a conflict: a clause resolved in
 * turn against the unit premises of its literals' negations.
 *
 * The node of each SAT variable is given by `atom`, and the order on
 * nodes (used to sort the literals of a clause node) by `nodeId`.
 */
module SatClauses {
  import opened Terms
  import opened Resolution

  /** A SAT literal: a variable and a sign. */
  datatype SatLit = SatLit(v: nat, negated: bool)

  function Neg(l: SatLit): (r: SatLit)
    ensures r.v == l.v && r.negated != l.negated
  {
    SatLit(l.v, !l.negated)
  }

  /** No literal occurs twice. */
  predicate DistinctSeq(s: seq<SatLit>)
  {
    forall a, b :: 0 <= a < b < |s| ==> s[a] != s[b]
  }

  /** The literals of `s` other than `x`, in order. */
  function Others(s: seq<SatLit>, x: SatLit): (r: seq<SatLit>)
    ensures forall y :: y in r <==> y in s && y != x
    ensures |r| <= |s|
    decreases |s|
  {
    if |s| == 0 then []
    else Others(s[..|s| - 1], x) + (if s[|s| - 1] == x then [] else [s[|s| - 1]])
  }

  /** Extending a prefix by one literal extends its other literals by it, unless it is `x`. */
  lemma OthersPrefixSnoc(s: seq<SatLit>, i: nat, x: SatLit)
    requires i < |s|
    ensures Others(s[..i + 1], x) == Others(s[..i], x) + (if s[i] == x then [] else [s[i]])
  {
    assert s[..i + 1][..i] == s[..i];
  }

  /** When `x` occurs only in front, the other literals are the tail. */
  lemma {:induction false} OthersOfHead(s: seq<SatLit>, x: SatLit)
    requires |s| >= 1 && s[0] == x
    requires forall i :: 1 <= i < |s| ==> s[i] != x
    ensures Others(s, x) == s[1..]
    decreases |s|
  {
    if |s| > 1 {
      OthersOfHead(s[..|s| - 1], x);
      assert s[..|s| - 1][1..] == s[1..|s| - 1];
    }
  }

  /** The node of a literal: its atom, under NOT when negated. */
  function LitNode(atom: nat -> Term, l: SatLit): (r: Term)
    ensures l.negated ==> KindOf(r) == NOT && Children(r) == [atom(l.v)]
    ensures !l.negated ==> r == atom(l.v)
  {
    if l.negated then Not(atom(l.v)) else atom(l.v)
  }

  /** The nodes of a sequence of literals. */
  function LitNodes(atom: nat -> Term, c: seq<SatLit>): (r: seq<Term>)
    ensures |r| == |c| && forall i :: 0 <= i < |c| ==> r[i] == LitNode(atom, c[i])
  {
    seq(|c|, i requires 0 <= i < |c| => LitNode(atom, c[i]))
  }

  lemma LitNodesCons(atom: nat -> Term, c: seq<SatLit>)
    requires |c| >= 1
    ensures LitNodes(atom, c) == [LitNode(atom, c[0])] + LitNodes(atom, c[1..])
  {
  }

  /**
   * The node of a clause: the OR of its literals' nodes, ordered by node
   * id.
   */
  function ClauseNodeOf(atom: nat -> Term, nodeId: Term -> nat, c: seq<SatLit>): (r: Term)
    ensures KindOf(r) == OR
    ensures multiset(Children(r)) == multiset(LitNodes(atom, c))
    ensures SortedByKey(Children(r), nodeId)
  {
    App(OR, SortByKey(LitNodes(atom, c), nodeId))
  }

  /** The unit premises that resolve away the literals `ls`: their negations' nodes. */
  function UnitPremises(atom: nat -> Term, ls: seq<SatLit>): (r: seq<Term>)
    ensures |r| == |ls| && forall i :: 0 <= i < |ls| ==> r[i] == LitNode(atom, Neg(ls[i]))
  {
    seq(|ls|, i requires 0 <= i < |ls| => LitNode(atom, Neg(ls[i])))
  }

  /**
   * Their arguments: polarity true exactly for a positive literal, and the
   * literal's atom as pivot.
   */
  function UnitArgs(atom: nat -> Term, ls: seq<SatLit>): (r: seq<Term>)
    ensures |r| == 2 * |ls|
    ensures forall j :: 1 <= j <= |ls| ==>
      PolArg(r, j) == BoolConst(!ls[j - 1].negated) && PivotArg(r, j) == atom(ls[j - 1].v)
  {
    var r := seq(2 * |ls|, k requires 0 <= k < 2 * |ls| =>
      var h := Half(k, |ls|); if k == 2 * h then BoolConst(!ls[h].negated) else atom(ls[h].v));
    assert forall j :: 1 <= j <= |ls| ==>
      PolArg(r, j) == r[2 * (j - 1)] && Half(2 * (j - 1), |ls|) == j - 1
      && PivotArg(r, j) == r[2 * (j - 1) + 1] && Half(2 * (j - 1) + 1, |ls|) == j - 1;
    r
  }

  /** Adding a literal adds its unit premise, after the chain's `head`, and its two arguments. */
  lemma UnitSnoc(atom: nat -> Term, head: Term, ls: seq<SatLit>, l: SatLit)
    ensures UnitPremises(atom, ls + [l]) == UnitPremises(atom, ls) + [LitNode(atom, Neg(l))]
    ensures [head] + UnitPremises(atom, ls + [l]) == [head] + UnitPremises(atom, ls) + [LitNode(atom, Neg(l))]
    ensures UnitArgs(atom, ls + [l]) == UnitArgs(atom, ls) + [BoolConst(!l.negated), atom(l.v)]
  {
    assert UnitPremises(atom, ls + [l]) == UnitPremises(atom, ls) + [LitNode(atom, Neg(l))];
    var a, b := UnitArgs(atom, ls + [l]), UnitArgs(atom, ls) + [BoolConst(!l.negated), atom(l.v)];
    forall j | 1 <= j <= |ls| + 1
      ensures PolArg(a, j) == PolArg(b, j) && PivotArg(a, j) == PivotArg(b, j)
    {
      if j <= |ls| {
        assert PolArg(b, j) == PolArg(UnitArgs(atom, ls), j) && PivotArg(b, j) == PivotArg(UnitArgs(atom, ls), j);
      }
    }
    SameArgs(a, b, |ls| + 1);
  }

  /** Link j of a unit chain resolves against the unit of the negated literal j - 1. */
  lemma UnitChainLink(atom: nat -> Term, head: Term, ls: seq<SatLit>, j: nat)
    requires 1 <= j < |ls| + 1
    ensures WellFormedChain([head] + UnitPremises(atom, ls), UnitArgs(atom, ls))
    ensures UnitLink([head] + UnitPremises(atom, ls), UnitArgs(atom, ls), j)
    ensures LitNodes(atom, ls)[j - 1] == Removed(UnitArgs(atom, ls), j)
  {
    var children, args := [head] + UnitPremises(atom, ls), UnitArgs(atom, ls);
    var k := j - 1;
    var l := ls[k];
    assert PolArg(args, j) == BoolConst(!l.negated) && PivotArg(args, j) == atom(l.v);
    assert children[j] == LitNode(atom, Neg(l));
  }

  /** Every link of a unit chain resolves against a unit, link j removing the node of literal j - 1. */
  lemma {:induction false} UnitChainLinks(atom: nat -> Term, head: Term, ls: seq<SatLit>)
    requires |ls| >= 1
    ensures WellFormedChain([head] + UnitPremises(atom, ls), UnitArgs(atom, ls))
    ensures UnitLinksUpTo([head] + UnitPremises(atom, ls), UnitArgs(atom, ls), LitNodes(atom, ls),
                          |[head] + UnitPremises(atom, ls)|)
  {
    var children, args, removed := [head] + UnitPremises(atom, ls), UnitArgs(atom, ls), LitNodes(atom, ls);
    UnitChainLink(atom, head, ls, 1);
    forall j | 1 <= j < |children|
      ensures UnitLink(children, args, j) && removed[j - 1] == Removed(args, j)
    {
      UnitChainLink(atom, head, ls, j);
    }
    AllUnitLinks(children, args, removed, |children|);
  }

  /**
   * Resolving a first premise against the units of `ls` removes one
   * occurrence of each literal's node and nothing else.
   */
  lemma UnitChainResolvent(atom: nat -> Term, head: Term, ls: seq<SatLit>)
    requires |ls| >= 1
    ensures WellFormedChain([head] + UnitPremises(atom, ls), UnitArgs(atom, ls))
    ensures Resolvent([head] + UnitPremises(atom, ls), UnitArgs(atom, ls), |[head] + UnitPremises(atom, ls)|)
            == RemoveEach(PremiseLits([head] + UnitPremises(atom, ls), UnitArgs(atom, ls), 0),
                          LitNodes(atom, ls), |LitNodes(atom, ls)|)
  {
    var children, args, removed := [head] + UnitPremises(atom, ls), UnitArgs(atom, ls), LitNodes(atom, ls);
    UnitChainLinks(atom, head, ls);
    ResolventOfAllUnits(children, args, removed);
  }

  /** A clause node is neither the atom nor the node of any of its literals. */
  lemma AtomNotClause(atom: nat -> Term, nodeId: Term -> nat, c: seq<SatLit>, i: nat)
    requires i < |c|
    ensures ClauseNodeOf(atom, nodeId, c) != atom(c[i].v)
    ensures ClauseNodeOf(atom, nodeId, c) != LitNode(atom, c[i])
  {
    var x := LitNode(atom, c[i]);
    var node := ClauseNodeOf(atom, nodeId, c);
    assert LitNodes(atom, c)[i] == x;
    assert x in multiset(Children(node));
    assert x in node.args;
    if c[i].negated {
      assert atom(c[i].v) in x.args;
    }
  }

  /**
   * The chain explaining a propagated literal concludes it: its reason
   * `c` (the literal first, on a variable no other literal of `c` has),
   * resolved against the negated units of the other literals, leaves
   * exactly the literal.
   */
  lemma ReasonChainConcludes(atom: nat -> Term, nodeId: Term -> nat, c: seq<SatLit>, lit: SatLit)
    requires |c| >= 2 && c[0] == lit
    requires forall i :: 1 <= i < |c| ==> c[i].v != lit.v
    ensures var ls := Others(c, lit);
            var children := [ClauseNodeOf(atom, nodeId, c)] + UnitPremises(atom, ls);
            WellFormedChain(children, UnitArgs(atom, ls))
            && ChainConclusion(children, UnitArgs(atom, ls)) == LitNode(atom, lit)
  {
    var ls := Others(c, lit);
    assert ls == c[1..] by { OthersOfHead(c, lit); }
    var head := ClauseNodeOf(atom, nodeId, c);
    var children, args := [head] + UnitPremises(atom, ls), UnitArgs(atom, ls);
    assert WellFormedChain(children, args) by { UnitChainLink(atom, head, ls, 1); }
    var x, rest := LitNode(atom, lit), LitNodes(atom, ls);
    var p := PremiseLits(children, args, 0);
    ReasonHeadLits(atom, nodeId, c, lit);
    assert |children| == |ls| + 1 && |rest| == |ls|;
    UnitChainResolvent(atom, head, ls);
    RemoveEachLeaves(p, rest, x);
  }

  /** The reason's clause, read as a clause, holds the propagated literal and the others. */
  lemma ReasonHeadLits(atom: nat -> Term, nodeId: Term -> nat, c: seq<SatLit>, lit: SatLit)
    requires |c| >= 2 && c[0] == lit
    ensures var children := [ClauseNodeOf(atom, nodeId, c)] + UnitPremises(atom, c[1..]);
            WellFormedChain(children, UnitArgs(atom, c[1..]))
            && multiset(PremiseLits(children, UnitArgs(atom, c[1..]), 0))
               == multiset{LitNode(atom, lit)} + multiset(LitNodes(atom, c[1..]))
  {
    var head := ClauseNodeOf(atom, nodeId, c);
    var children, args := [head] + UnitPremises(atom, c[1..]), UnitArgs(atom, c[1..]);
    UnitChainLink(atom, head, c[1..], 1);
    AtomNotClause(atom, nodeId, c, 1);
    assert ReadAsClause(children, args, 0);
    LitNodesCons(atom, c);
  }

  /** The conflicting premise, read as the chain reads it, holds exactly the conflict's literals. */
  lemma ConflictHeadLits(atom: nat -> Term, nodeId: Term -> nat, conflictNode: Term, conflict: seq<SatLit>)
    requires |conflict| >= 1
    requires conflictNode == ClauseNodeOf(atom, nodeId, conflict)
             || (|conflict| == 1 && conflictNode == LitNode(atom, conflict[0]))
    ensures var children := [conflictNode] + UnitPremises(atom, conflict);
            WellFormedChain(children, UnitArgs(atom, conflict))
            && multiset(PremiseLits(children, UnitArgs(atom, conflict), 0)) == multiset(LitNodes(atom, conflict))
  {
    var children, args := [conflictNode] + UnitPremises(atom, conflict), UnitArgs(atom, conflict);
    UnitChainLink(atom, conflictNode, conflict, 1);
    assert PolArg(args, 1) == args[0] && PivotArg(args, 1) == args[1];
    if conflictNode == ClauseNodeOf(atom, nodeId, conflict) {
      AtomNotClause(atom, nodeId, conflict, 0);
      assert ReadAsClause(children, args, 0);
    } else {
      assert !ReadAsClause(children, args, 0);
      assert LitNodes(atom, conflict) == [conflictNode];
    }
  }

  /**
   * The closing chain concludes false: the conflicting clause (or, for a
   * unit conflict, its literal) resolved against the negated units of all
   * its literals leaves nothing.
   */
  lemma ConflictChainConcludesFalse(atom: nat -> Term, nodeId: Term -> nat, conflictNode: Term, conflict: seq<SatLit>)
    requires |conflict| >= 1
    requires conflictNode == ClauseNodeOf(atom, nodeId, conflict)
             || (|conflict| == 1 && conflictNode == LitNode(atom, conflict[0]))
    ensures WellFormedChain([conflictNode] + UnitPremises(atom, conflict), UnitArgs(atom, conflict))
    ensures ChainConclusion([conflictNode] + UnitPremises(atom, conflict), UnitArgs(atom, conflict)) == False
  {
    var children, args := [conflictNode] + UnitPremises(atom, conflict), UnitArgs(atom, conflict);
    ConflictHeadLits(atom, nodeId, conflictNode, conflict);
    UnitChainResolvent(atom, conflictNode, conflict);
    RemoveEachAll(PremiseLits(children, args, 0), LitNodes(atom, conflict));
  }
}
