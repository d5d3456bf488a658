/**
 * Translation of internal proof steps into steps of the Lean proof format.
 * Every translated step is stored under LEAN_RULE with arguments
 * `[rule, conclusion, clause, args...]`, where `rule` is the numeric code
 * of the Lean rule and `clause` the clausal form of the conclusion (null
 * when the rule needs none).
 */
module Lean {
  import opened Terms
  import opened ProofRules
  import opened ProofStore
  import opened Resolution

  /** The Lean rules the translation emits. */
  datatype LeanRule =
    | EQ_RESOLVE | AND_ELIM | REFL | TH_TRUST_VALID | SYMM | NEG_SYMM
    | IMPLIES_ELIM | SCOPE | REFL_PARTIAL | CONG_PARTIAL | CONG | TRANS
    | R0_PARTIAL | R1_PARTIAL | R0 | R1 | REORDER | CNF_AND_POS | UNKNOWN

  /** The number a rule is written as in a step's first argument. */
  function LeanCode(r: LeanRule): nat
  {
    match r
    case EQ_RESOLVE => 0
    case AND_ELIM => 1
    case REFL => 2
    case TH_TRUST_VALID => 3
    case SYMM => 4
    case NEG_SYMM => 5
    case IMPLIES_ELIM => 6
    case SCOPE => 7
    case REFL_PARTIAL => 8
    case CONG_PARTIAL => 9
    case CONG => 10
    case TRANS => 11
    case R0_PARTIAL => 12
    case R1_PARTIAL => 13
    case R0 => 14
    case R1 => 15
    case REORDER => 16
    case CNF_AND_POS => 17
    case UNKNOWN => 18
  }

  /** The rule written in a step's first argument, read back. */
  function RuleOfCode(c: nat): (r: Option<LeanRule>)
    ensures r.Some? ==> LeanCode(r.value) == c
  {
    if c == 0 then Some(LeanRule.EQ_RESOLVE) else if c == 1 then Some(LeanRule.AND_ELIM)
    else if c == 2 then Some(LeanRule.REFL) else if c == 3 then Some(TH_TRUST_VALID)
    else if c == 4 then Some(LeanRule.SYMM) else if c == 5 then Some(NEG_SYMM)
    else if c == 6 then Some(LeanRule.IMPLIES_ELIM) else if c == 7 then Some(LeanRule.SCOPE)
    else if c == 8 then Some(REFL_PARTIAL) else if c == 9 then Some(CONG_PARTIAL)
    else if c == 10 then Some(LeanRule.CONG) else if c == 11 then Some(LeanRule.TRANS)
    else if c == 12 then Some(R0_PARTIAL) else if c == 13 then Some(R1_PARTIAL)
    else if c == 14 then Some(R0) else if c == 15 then Some(R1)
    else if c == 16 then Some(REORDER) else if c == 17 then Some(LeanRule.CNF_AND_POS)
    else if c == 18 then Some(LeanRule.UNKNOWN) else None
  }

  /** The rule of every Lean step can be read back from its code. */
  lemma RuleOfCodeRoundTrip(r: LeanRule)
    ensures RuleOfCode(LeanCode(r)) == Some(r)
  {
  }

  /** The step `addLeanStep` stores for a conclusion. */
  function LeanStep(rule: LeanRule, res: Term, clause: Term, children: seq<Term>, args: seq<Term>): (s: ProofStep)
    ensures s.rule == LEAN_RULE && s.children == children && |s.args| == |args| + 3
    ensures s.args[0] == RatConst(LeanCode(rule)) && s.args[1] == res && s.args[2] == clause
    ensures s.args[3..] == args
  {
    ProofStep(LEAN_RULE, children, [RatConst(LeanCode(rule)), res, clause] + args)
  }

  /** `shouldUpdate`: Lean steps and assumptions are left alone. */
  predicate ShouldUpdate(rule: PfRule)
  {
    rule != LEAN_RULE && rule != ProofRules.ASSUME
  }

  /** The translation reaches a fixed point: a translated step is not translated again. */
  lemma TranslatedNotUpdated(rule: LeanRule, res: Term, clause: Term, children: seq<Term>, args: seq<Term>)
    ensures !ShouldUpdate(LeanStep(rule, res, clause, children, args).rule)
    ensures !ShouldUpdate(ProofRules.ASSUME) && ShouldUpdate(ProofRules.CHAIN_RESOLUTION)
  {
  }

  /** `s_pfRuleToLeanRule`: the rules translated by renaming alone. */
  function TableRule(id: PfRule): (r: Option<LeanRule>)
    ensures r.Some? <==> id == ProofRules.EQ_RESOLVE || id == ProofRules.AND_ELIM || id == ProofRules.REFL || id == THEORY_REWRITE
    ensures id == THEORY_REWRITE ==> r == Some(TH_TRUST_VALID)
    ensures id == ProofRules.EQ_RESOLVE ==> r == Some(LeanRule.EQ_RESOLVE)
  {
    if id == ProofRules.EQ_RESOLVE then Some(LeanRule.EQ_RESOLVE)
    else if id == ProofRules.AND_ELIM then Some(LeanRule.AND_ELIM)
    else if id == ProofRules.REFL then Some(LeanRule.REFL)
    else if id == THEORY_REWRITE then Some(TH_TRUST_VALID)
    else None
  }

  /** SYMM of an equality stays SYMM; SYMM of a disequality becomes NEG_SYMM. */
  function SymmRule(res: Term): (r: LeanRule)
    ensures r == LeanRule.SYMM <==> KindOf(res) == EQUAL
    ensures r == LeanRule.SYMM || r == NEG_SYMM
  {
    if KindOf(res) == EQUAL then LeanRule.SYMM else NEG_SYMM
  }

  /** The conclusions SCOPE can have: a negation, or an implication or disjunction of two sides. */
  predicate ScopeShape(res: Term)
  {
    KindOf(res) == NOT || ((KindOf(res) == IMPLIES || KindOf(res) == OR) && |Children(res)| >= 2)
  }

  /**
   * The clausal form of a SCOPE: the negated assumptions, then `false` for
   * a negated conclusion or the second side otherwise.
   */
  function ScopeClause(res: Term, args: seq<Term>): (r: Term)
    requires ScopeShape(res)
    ensures KindOf(r) == SEXPR && |Children(r)| == |args| + 1
    ensures forall i :: 0 <= i < |args| ==> Children(r)[i] == Not(args[i])
    ensures KindOf(res) == NOT ==> Children(r)[|args|] == False
    ensures KindOf(res) != NOT ==> Children(r)[|args|] == Children(res)[1]
  {
    App(SEXPR, NegateAll(args) + [if KindOf(res) == NOT then False else Children(res)[1]])
  }

  // ------------------------------------------------------------------
  // CHAIN_RESOLUTION: partial binary steps, then a final step.

  /** Premise proofs whose OR conclusions introduce terms: assumptions and EQ_RESOLVE. */
  predicate Introducing(pf: ProofNode)
  {
    pf.rule == ProofRules.ASSUME || pf.rule == ProofRules.EQ_RESOLVE
  }

  /** Premise `k` is marked a singleton: its proof introduces it and it is not read as a clause. */
  predicate MarkedSingleton(childPfs: seq<ProofNode>, args: seq<Term>, k: nat)
    requires WellFormedChain(Results(childPfs), args) && k < |childPfs|
  {
    Introducing(childPfs[k]) && !ReadAsClause(Results(childPfs), args, k)
  }

  /** A Boolean flag as a node. */
  function Flag(b: bool): (r: Term)
    ensures r == True <==> b
  {
    if b then True else False
  }

  /** Every polarity slot is a Boolean constant. */
  ghost predicate PolaritiesConstant(args: seq<Term>)
  {
    forall j :: 1 <= j <= |args| / 2 ==> PolArg(args, j).BoolConst?
  }

  /** The unique placeholder concluding partial step `i`: `(res pol_i pivot_i)`. */
  function Placeholder(res: Term, args: seq<Term>, i: nat): Term
    requires 1 <= i && 2 * i <= |args|
  {
    App(SEXPR, [res, PolArg(args, i), PivotArg(args, i)])
  }

  /** The first premise of step `i`: the first premise of the chain, then the previous placeholder. */
  function CurBefore(res: Term, children: seq<Term>, args: seq<Term>, i: nat): Term
    requires WellFormedChain(children, args) && 1 <= i < |children|
  {
    if i == 1 then children[0] else Placeholder(res, args, i - 1)
  }

  /** The flag for the first premise of step `i`: only the first step's first premise is a real premise. */
  function FirstFlag(childPfs: seq<ProofNode>, args: seq<Term>, i: nat): Term
    requires WellFormedChain(Results(childPfs), args) && 1 <= i < |childPfs|
  {
    if i == 1 then Flag(MarkedSingleton(childPfs, args, 0)) else Null
  }

  /** The flag for the second premise of step `i`, that is premise `i` of the chain. */
  function SecondFlag(childPfs: seq<ProofNode>, args: seq<Term>, i: nat): (r: Term)
    requires WellFormedChain(Results(childPfs), args) && 1 <= i < |childPfs|
    ensures r == True <==> MarkedSingleton(childPfs, args, i)
  {
    Flag(MarkedSingleton(childPfs, args, i))
  }

  /**
   * The flag for the second premise as the code is written: it is set when
   * a premise is marked and never cleared, so it stays set for all later
   * premises.
   */
  function SecondFlagAsWritten(childPfs: seq<ProofNode>, args: seq<Term>, i: nat): Term
    requires WellFormedChain(Results(childPfs), args) && 1 <= i < |childPfs|
  {
    Flag(exists j :: 1 <= j <= i && MarkedSingleton(childPfs, args, j))
  }

  /** Partial step `i` (1 <= i <= n - 2): resolves the previous result with premise `i`. */
  function PartialStep(res: Term, childPfs: seq<ProofNode>, args: seq<Term>, i: nat): (Term, ProofStep)
    requires WellFormedChain(Results(childPfs), args) && 1 <= i < |childPfs| - 1
  {
    var children := Results(childPfs);
    (Placeholder(res, args, i),
     LeanStep(if PolArg(args, i) == True then R0_PARTIAL else R1_PARTIAL, Placeholder(res, args, i), Null,
              [CurBefore(res, children, args, i), children[i]],
              [PivotArg(args, i), FirstFlag(childPfs, args, i), SecondFlag(childPfs, args, i)]))
  }

  /** The first `m` partial steps. */
  function PartialSteps(res: Term, childPfs: seq<ProofNode>, args: seq<Term>, m: nat): (r: seq<(Term, ProofStep)>)
    requires WellFormedChain(Results(childPfs), args) && m <= |childPfs| - 2
    ensures |r| == m && forall i :: 0 <= i < m ==> r[i] == PartialStep(res, childPfs, args, i + 1)
  {
    seq(m, i requires 0 <= i < m => PartialStep(res, childPfs, args, i + 1))
  }

  lemma PartialStepsSnoc(res: Term, childPfs: seq<ProofNode>, args: seq<Term>, m: nat)
    requires WellFormedChain(Results(childPfs), args) && m + 1 <= |childPfs| - 2
    ensures PartialSteps(res, childPfs, args, m + 1)
      == PartialSteps(res, childPfs, args, m) + [PartialStep(res, childPfs, args, m + 1)]
  {
  }

  /**
   * The clause of the final step: the literals of `res` when it is not a
   * singleton, the empty list for `false`, and `(res)` otherwise.
   */
  function ChainClause(res: Term, single: bool, empty: Term): Term
  {
    if !single then App(SEXPR, Children(res))
    else if res == False then empty
    else App(SEXPR, [res])
  }

  /** The final step: concludes `res` from the last placeholder (or the first premise) and the last premise. */
  function FinalStep(res: Term, childPfs: seq<ProofNode>, args: seq<Term>, single: bool, empty: Term): (Term, ProofStep)
    requires WellFormedChain(Results(childPfs), args)
  {
    var children := Results(childPfs);
    var n := |children|;
    (res,
     LeanStep(if PolArg(args, n - 1) == True then R0 else R1, res, ChainClause(res, single, empty),
              [CurBefore(res, children, args, n - 1), children[n - 1]],
              [PivotArg(args, n - 1), FirstFlag(childPfs, args, n - 1), SecondFlag(childPfs, args, n - 1)]))
  }
  /** The final step of CHAIN_RESOLUTION, from its rule, first premise and arguments. */
  lemma FinalStepIs(res: Term, childPfs: seq<ProofNode>, args: seq<Term>, single: bool, empty: Term,
                    rule: LeanRule, cur: Term, curArgs: seq<Term>)
    requires WellFormedChain(Results(childPfs), args)
    requires rule == (if PolArg(args, |childPfs| - 1) == True then R0 else R1)
    requires cur == CurBefore(res, Results(childPfs), args, |childPfs| - 1)
    requires curArgs == [PivotArg(args, |childPfs| - 1), FirstFlag(childPfs, args, |childPfs| - 1),
                         SecondFlag(childPfs, args, |childPfs| - 1)]
    ensures FinalStep(res, childPfs, args, single, empty).1
         == LeanStep(rule, res, ChainClause(res, single, empty), [cur, childPfs[|childPfs| - 1].result], curArgs)
  {
  }


  /** All the steps of a chain of `n` premises, in the order they are added. */
  function ChainSteps(res: Term, childPfs: seq<ProofNode>, args: seq<Term>, single: bool, empty: Term)
    : seq<(Term, ProofStep)>
    requires WellFormedChain(Results(childPfs), args)
  {
    PartialSteps(res, childPfs, args, |childPfs| - 2) + [FinalStep(res, childPfs, args, single, empty)]
  }

  /**
   * A chain of `n` premises gives `n - 2` partial steps and a final step;
   * each step is R0 (R0_PARTIAL) under polarity true and R1 (R1_PARTIAL)
   * otherwise, and each resolves the previous step's conclusion with the
   * next premise.
   */
  lemma ChainStepsShape(res: Term, childPfs: seq<ProofNode>, args: seq<Term>, single: bool, empty: Term)
    requires WellFormedChain(Results(childPfs), args)
    ensures var s := ChainSteps(res, childPfs, args, single, empty);
      |s| == |childPfs| - 1 && s[|s| - 1].0 == res
      && (forall i :: 0 <= i < |s| - 1 ==>
            s[i].1.args[0] == RatConst(LeanCode(if PolArg(args, i + 1) == True then R0_PARTIAL else R1_PARTIAL)))
      && s[|s| - 1].1.args[0] == RatConst(LeanCode(if PolArg(args, |s|) == True then R0 else R1))
      && (forall i :: 1 <= i < |s| ==> s[i].1.children[0] == s[i - 1].0)
      && (forall i :: 0 <= i < |s| ==> s[i].1.children[1] == childPfs[i + 1].result)
  {
    var s := ChainSteps(res, childPfs, args, single, empty);
    forall i | 1 <= i < |s|
      ensures s[i].1.children[0] == s[i - 1].0
    {
      assert s[i - 1] == PartialStep(res, childPfs, args, i);
    }
  }

  /** Whether the link that resolves premise `k` in already eliminates `res` from it. */
  predicate OwnLinkEliminates(children: seq<Term>, args: seq<Term>, k: nat, res: Term)
    requires WellFormedChain(children, args) && k < |children|
  {
    var j := if k == 0 then 1 else k;
    var posFirst := PolArg(args, j) == True;
    var pivot := PivotArg(args, j);
    (res == pivot && !posFirst) || (Not(res) == pivot && posFirst) || (Not(pivot) == res && posFirst)
  }

  /**
   * Whether the conclusion of the chain is one literal rather than a
   * clause: it is not an OR, or the last premise that introduces it is
   * followed by no elimination of it, neither by its own link nor by a
   * later one.
   */
  predicate LeanSingleton(children: seq<Term>, args: seq<Term>, res: Term)
    requires WellFormedChain(children, args)
  {
    KindOf(res) != OR
    || exists k :: 0 <= k < |children| && Introduces(children, args, k, res)
         && (forall k' :: k < k' < |children| ==> !Introduces(children, args, k', res))
         && !OwnLinkEliminates(children, args, k, res)
         && (forall j :: k < j < |children| ==> !LinkEliminates(children, args, j, res))
  }

  /**
   * When premise `k` is the last premise introducing `res`, the conclusion
   * is a singleton exactly when neither `k`'s own link nor a later link
   * eliminates `res`.
   */
  lemma {:induction false} LeanSingletonAt(children: seq<Term>, args: seq<Term>, res: Term, k: nat)
    requires WellFormedChain(children, args) && KindOf(res) == OR && k < |children|
    requires Introduces(children, args, k, res)
    requires forall k' :: k < k' < |children| ==> !Introduces(children, args, k', res)
    ensures LeanSingleton(children, args, res) <==>
      !OwnLinkEliminates(children, args, k, res)
      && forall j :: k < j < |children| ==> !LinkEliminates(children, args, j, res)
  {
    if LeanSingleton(children, args, res) {
      var k2 :| 0 <= k2 < |children| && Introduces(children, args, k2, res)
         && (forall k' :: k2 < k' < |children| ==> !Introduces(children, args, k', res))
         && !OwnLinkEliminates(children, args, k2, res)
         && (forall j :: k2 < j < |children| ==> !LinkEliminates(children, args, j, res));
      assert k2 == k;
    }
  }

  /**
   * Whether the chain's conclusion is a singleton: not an OR, or
   * introduced by a premise and not eliminated afterwards.
   */
  method IsSingletonClause(res: Term, children: seq<Term>, args: seq<Term>) returns (single: bool)
    requires WellFormedChain(children, args)
    ensures single == LeanSingleton(children, args, res)
  {
    if KindOf(res) != OR {
      return true;
    }
    var i := LastIntroducer(res, children, args);
    if i == 0 {
      return false;
    }
    LeanSingletonAt(children, args, res, i - 1);
    var posFirst := if i == 1 then args[0] == True else args[2 * (i - 1) - 2] == True;
    var pivot := if i == 1 then args[1] else args[2 * (i - 1) - 1];
    if (res == pivot && !posFirst) || (Not(res) == pivot && posFirst) || (Not(pivot) == res && posFirst) {
      assert OwnLinkEliminates(children, args, i - 1, res);
      return false;
    }
    var eliminated := EliminatedFrom(res, children, args, i);
    single := !eliminated;
  }

  /** A Lean step reads an OR conclusion as a clause exactly when the conclusion is not a singleton. */
  lemma ChainClauseOfOr(res: Term, single: bool, empty: Term)
    requires KindOf(res) == OR
    ensures !single ==> ChainClause(res, single, empty) == App(SEXPR, Children(res))
    ensures single ==> ChainClause(res, single, empty) == App(SEXPR, [res])
  {
  }

  // ------------------------------------------------------------------
  // REORDERING: the position of each conclusion literal in the premise.

  /** The first position of `x` in `s`. */
  function FirstIndex(s: seq<Term>, x: Term): (r: Option<nat>)
    ensures r.Some? ==> r.value < |s| && s[r.value] == x && forall k :: 0 <= k < r.value ==> s[k] != x
    ensures r.None? ==> x !in s
  {
    if |s| == 0 then None
    else if s[0] == x then Some(0)
    else
      match FirstIndex(s[1..], x)
      case None => None
      case Some(k) => Some(k + 1)
  }

  /** The positions in `s` of the literals of `lits`, as constants; literals not in `s` give none. */
  function Positions(s: seq<Term>, lits: seq<Term>): (r: seq<Term>)
    ensures |r| <= |lits|
  {
    if |lits| == 0 then []
    else
      Positions(s, lits[..|lits| - 1])
      + match FirstIndex(s, lits[|lits| - 1]) case None => [] case Some(k) => [RatConst(k)]
  }

  /**
   * When every literal occurs in the premise, there is one position per
   * literal and it is the first position holding that literal.
   */
  lemma {:induction false} PositionsFirstMatch(s: seq<Term>, lits: seq<Term>)
    requires forall j :: 0 <= j < |lits| ==> lits[j] in s
    ensures var pos := Positions(s, lits);
      |pos| == |lits|
      && forall j :: 0 <= j < |lits| ==>
           pos[j].RatConst? && 0 <= pos[j].q < |s| && s[pos[j].q] == lits[j]
           && forall k :: 0 <= k < pos[j].q ==> s[k] != lits[j]
  {
    if |lits| > 0 {
      var init := lits[..|lits| - 1];
      PositionsFirstMatch(s, init);
      var x := lits[|lits| - 1];
      assert x in s;
      var k := FirstIndex(s, x).value;
      assert Positions(s, lits) == Positions(s, init) + [RatConst(k)];
      forall j | 0 <= j < |lits| - 1
        ensures lits[j] == init[j]
      {
      }
    }
  }

  lemma PositionsSnoc(s: seq<Term>, lits: seq<Term>, x: Term)
    ensures Positions(s, lits + [x]) ==
      Positions(s, lits) + match FirstIndex(s, x) case None => [] case Some(k) => [RatConst(k)]
  {
    assert (lits + [x])[..|lits|] == lits;
  }

  // ------------------------------------------------------------------
  // CONG: a reflexivity step for the operator, partial congruences, a final step.

  /** The shapes CONG works on: a first side that is not a binder, premises that are equalities. */
  predicate CongShape(res: Term, children: seq<Term>, args: seq<Term>)
  {
    |children| >= 1 && |args| >= 1 && |Children(res)| >= 1 && KindOf(Children(res)[0]) != FORALL
    && forall i :: 0 <= i < |children| ==> |Children(children[i])| >= 2
  }

  /** The operator CONG applies: the second argument when there are two, else the first. */
  function CongOp(args: seq<Term>): Term
    requires |args| >= 1
  {
    if |args| == 2 then args[1] else args[0]
  }

  /** The partial application after `i` premises: `(= op op)`, then `(= _ (cur a_i) (cur b_i))`. */
  function CongCur(eqNode: Term, op: Term, children: seq<Term>, i: nat): Term
    requires i <= |children| && forall k :: 0 <= k < |children| ==> |Children(children[k])| >= 2
  {
    if i == 0 then App(SEXPR, [eqNode, op, op])
    else
      var cur := CongCur(eqNode, op, children, i - 1);
      App(SEXPR, [eqNode, Null, App(SEXPR, [cur, Children(children[i - 1])[0]]),
                  App(SEXPR, [cur, Children(children[i - 1])[1]])])
  }

  /**
   * The first premise of the step that uses premise `i`: the previous
   * partial application, so each step builds on the one before it.
   */
  lemma CongStepsChain(eqNode: Term, op: Term, children: seq<Term>, i: nat)
    requires 1 <= i <= |children| && forall k :: 0 <= k < |children| ==> |Children(children[k])| >= 2
    ensures Children(CongCur(eqNode, op, children, i))[2] == App(SEXPR, [CongCur(eqNode, op, children, i - 1), Children(children[i - 1])[0]])
    ensures CongCur(eqNode, op, children, i) != CongCur(eqNode, op, children, i - 1)
  {
    var c := CongCur(eqNode, op, children, i - 1);
    var inner := App(SEXPR, [c, Children(children[i - 1])[0]]);
    assert CongCur(eqNode, op, children, i).args[2] == inner;
    assert inner.args[0] == c;
    assert c < inner;
    assert inner < CongCur(eqNode, op, children, i);
  }

  /** The first premise of the step that uses premise `i`, as the code is written: always `(= op op)`. */
  function CongCurAsWritten(eqNode: Term, op: Term, children: seq<Term>, i: nat): Term
    requires i <= |children|
  {
    App(SEXPR, [eqNode, op, op])
  }

  /**
   * With two premises, the final step as written takes `(= op op)` as its
   * first premise instead of the conclusion of the partial step before it,
   * which no step then uses.
   */
  lemma CongFinalSkipsPartial(eqNode: Term, op: Term, a: Term, b: Term)
    ensures var children := [App(EQUAL, [a, b]), App(EQUAL, [a, b])];
      CongCurAsWritten(eqNode, op, children, 1) != CongCur(eqNode, op, children, 1)
  {
    var children := [App(EQUAL, [a, b]), App(EQUAL, [a, b])];
    CongStepsChain(eqNode, op, children, 1);
  }

  /** The reflexivity step for the operator, `(= op op)`. */
  function CongReflStep(eqNode: Term, op: Term, children: seq<Term>): (Term, ProofStep)
    requires forall k :: 0 <= k < |children| ==> |Children(children[k])| >= 2
  {
    (CongCur(eqNode, op, children, 0), LeanStep(REFL_PARTIAL, CongCur(eqNode, op, children, 0), Null, [], [op]))
  }

  /** The partial step for premise `i`: from the previous partial application and the premise. */
  function CongPartialStep(eqNode: Term, op: Term, children: seq<Term>, i: nat): (Term, ProofStep)
    requires i < |children| && forall k :: 0 <= k < |children| ==> |Children(children[k])| >= 2
  {
    (CongCur(eqNode, op, children, i + 1),
     LeanStep(CONG_PARTIAL, CongCur(eqNode, op, children, i + 1), Null, [CongCur(eqNode, op, children, i), children[i]], []))
  }

  /** The reflexivity step followed by the partial steps of the first `m` premises. */
  function CongPrefix(eqNode: Term, op: Term, children: seq<Term>, m: nat): (r: seq<(Term, ProofStep)>)
    requires m < |children| && forall k :: 0 <= k < |children| ==> |Children(children[k])| >= 2
    ensures |r| == m + 1
  {
    if m == 0 then [CongReflStep(eqNode, op, children)]
    else CongPrefix(eqNode, op, children, m - 1) + [CongPartialStep(eqNode, op, children, m - 1)]
  }

  /** The steps of CONG, in the order they are added: the reflexivity step, the partial steps, the final step. */
  function CongSteps(res: Term, eqNode: Term, children: seq<Term>, args: seq<Term>): (r: seq<(Term, ProofStep)>)
    requires CongShape(res, children, args)
    ensures |r| == |children| + 1
  {
    var op := CongOp(args);
    var n := |children|;
    CongPrefix(eqNode, op, children, n - 1)
    + [(res, LeanStep(LeanRule.CONG, res, Null, [CongCur(eqNode, op, children, n - 1), children[n - 1]], []))]
  }

  /** The top steps of the given proofs, keyed by what they prove, as `addProof` stores them. */
  function TopSteps(pfs: seq<ProofNode>): (r: seq<(Term, ProofStep)>)
    ensures |r| == |pfs|
    ensures forall i :: 0 <= i < |pfs| ==> r[i] == (pfs[i].result, ProofStep(pfs[i].rule, Results(pfs[i].children), pfs[i].args))
  {
    seq(|pfs|, i requires 0 <= i < |pfs| => (pfs[i].result, ProofStep(pfs[i].rule, Results(pfs[i].children), pfs[i].args)))
  }

  lemma TopStepsSnoc(pfs: seq<ProofNode>, k: nat)
    requires k < |pfs|
    ensures Results(pfs[..k + 1]) == Results(pfs[..k]) + [pfs[k].result]
    ensures TopSteps(pfs[..k + 1]) == TopSteps(pfs[..k]) + [TopSteps(pfs)[k]]
  {
    assert pfs[..k + 1] == pfs[..k] + [pfs[k]];
  }

  /** Whether premise `i` is marked a singleton, as a flag node. */
  method PremiseFlag(childPfs: seq<ProofNode>, args: seq<Term>, i: nat) returns (flag: Term)
    requires WellFormedChain(Results(childPfs), args) && i < |childPfs|
    ensures flag == Flag(MarkedSingleton(childPfs, args, i))
  {
    flag := False;
    var child := childPfs[i].result;
    if childPfs[i].rule == ProofRules.ASSUME || childPfs[i].rule == ProofRules.EQ_RESOLVE {
      if i == 0 {
        if !(KindOf(child) == OR && (args[0] != True || child != args[1])) {
          flag := True;
        }
      } else if !(KindOf(child) == OR && (args[2 * (i - 1)] != False || args[2 * (i - 1) + 1] != child)) {
        flag := True;
      }
    }
  }

  /**
   * The position list of REORDERING: for each literal of `lits`, its first
   * position among the first `|lits|` literals of the premise.
   */
  method LiteralPositions(premLits: seq<Term>, lits: seq<Term>) returns (pos: seq<Term>)
    requires |lits| <= |premLits|
    ensures pos == Positions(premLits[..|lits|], lits)
  {
    var size := |lits|;
    pos := [];
    var j := 0;
    while j < size
      invariant 0 <= j <= size
      invariant pos == Positions(premLits[..size], lits[..j])
    {
      var resLit := lits[j];
      PositionsSnoc(premLits[..size], lits[..j], resLit);
      assert lits[..j + 1] == lits[..j] + [resLit];
      var found := FindLiteral(premLits, size, resLit);
      if found.Some? {
        pos := pos + [RatConst(found.value)];
      }
      j := j + 1;
    }
    assert lits[..size] == lits;
  }

  /** The first of the first `size` premise literals equal to `lit`, searched from the left. */
  method FindLiteral(premLits: seq<Term>, size: nat, lit: Term) returns (found: Option<nat>)
    requires size <= |premLits|
    ensures found == FirstIndex(premLits[..size], lit)
  {
    ghost var prem := premLits[..size];
    var i := 0;
    while i < size
      invariant 0 <= i <= size
      invariant forall k :: 0 <= k < i ==> prem[k] != lit
    {
      if premLits[i] == lit {
        assert FirstIndex(prem, lit) == Some(i) by {
          assert lit in prem;
        }
        return Some(i);
      }
      i := i + 1;
    }
    assert lit !in prem;
    return None;
  }

  /** Stores the top step of each given proof and returns what they prove. */
  method AddPremiseProofs(pfs: seq<ProofNode>, cdp: CdProof) returns (results: seq<Term>)
    modifies cdp
    ensures results == Results(pfs)
    ensures cdp.steps == AddedSteps(old(cdp.steps), TopSteps(pfs))
  {
    results := [];
    var k := 0;
    assert pfs[..|pfs|] == pfs;
    while k < |pfs|
      invariant 0 <= k <= |pfs| && results == Results(pfs[..k])
      invariant cdp.steps == AddedSteps(old(cdp.steps), TopSteps(pfs[..k]))
    {
      TopStepsSnoc(pfs, k);
      AddedStepsSnoc(old(cdp.steps), TopSteps(pfs[..k]), TopSteps(pfs)[k]);
      results := results + [pfs[k].result];
      cdp.AddProof(pfs[k]);
      k := k + 1;
    }
  }

  /**
   * The translation callback. `empty` is the empty list (an SEXPR over a
   * fresh symbol) and `eqNode` the node naming the kind of equalities.
   */
  class LeanCallback {
    const empty: Term
    const eqNode: Term

    constructor (empty: Term, eqNode: Term)
      ensures this.empty == empty && this.eqNode == eqNode
    {
      this.empty := empty;
      this.eqNode := eqNode;
    }

    /** `addLeanStep`: stores `[rule, res, clause, args...]` under LEAN_RULE as the step for `res`. */
    method AddLeanStep(res: Term, rule: LeanRule, clause: Term, children: seq<Term>, args: seq<Term>, cdp: CdProof)
      modifies cdp
      ensures cdp.steps == AddedStep(old(cdp.steps), res, LeanStep(rule, res, clause, children, args))
    {
      var leanArgs := [RatConst(LeanCode(rule)), res, clause] + args;
      cdp.AddStep(res, LEAN_RULE, children, leanArgs);
    }

    /** Adds partial step `i`, concluding the placeholder `(res pol_i pivot_i)`. */
    method PartialResolution(res: Term, childPfs: seq<ProofNode>, args: seq<Term>, i: nat,
                             cur: Term, first: Term, cdp: CdProof) returns (newCur: Term)
      requires WellFormedChain(Results(childPfs), args) && PolaritiesConstant(args) && 1 <= i < |childPfs| - 1
      requires cur == CurBefore(res, Results(childPfs), args, i) && first == FirstFlag(childPfs, args, i)
      modifies cdp
      ensures newCur == Placeholder(res, args, i)
      ensures cdp.steps == AddedStep(old(cdp.steps), PartialStep(res, childPfs, args, i).0, PartialStep(res, childPfs, args, i).1)
    {
      var second := PremiseFlag(childPfs, args, i);
      var pol := args[(i - 1) * 2];
      assert pol == PolArg(args, i);
      var curArgs := [args[(i - 1) * 2 + 1], first, second];
      newCur := App(SEXPR, [res, pol, curArgs[0]]);
      AddLeanStep(newCur, if pol.b then R0_PARTIAL else R1_PARTIAL, Null, [cur, childPfs[i].result], curArgs, cdp);
    }

    /**
     * CHAIN_RESOLUTION: `n - 2` partial steps, each concluding a unique
     * placeholder, then a final step for `res` with its clausal form.
     */
    method ChainResolution(res: Term, childPfs: seq<ProofNode>, args: seq<Term>, cdp: CdProof)
      requires WellFormedChain(Results(childPfs), args) && PolaritiesConstant(args)
      modifies cdp
      ensures cdp.steps == AddedSteps(old(cdp.steps),
        ChainSteps(res, childPfs, args, LeanSingleton(Results(childPfs), args, res), empty))
    {
      var children := Results(childPfs);
      var cur, first, second := PartialResolutions(res, childPfs, args, cdp);
      var single := IsSingletonClause(res, children, args);
      FinalResolution(res, childPfs, args, single, cur, first, second, cdp);
      AddedStepsSnoc(old(cdp.steps), PartialSteps(res, childPfs, args, |children| - 2),
                     FinalStep(res, childPfs, args, single, empty));
    }

    /**
     * The partial steps of CHAIN_RESOLUTION, one for each premise but the
     * first and the last, returning the last placeholder and the flags of
     * the last link.
     */
    method PartialResolutions(res: Term, childPfs: seq<ProofNode>, args: seq<Term>, cdp: CdProof)
      returns (cur: Term, first: Term, second: Term)
      requires WellFormedChain(Results(childPfs), args) && PolaritiesConstant(args)
      modifies cdp
      ensures cdp.steps == AddedSteps(old(cdp.steps), PartialSteps(res, childPfs, args, |childPfs| - 2))
      ensures cur == CurBefore(res, Results(childPfs), args, |childPfs| - 1)
      ensures first == FirstFlag(childPfs, args, |childPfs| - 1) && second == SecondFlag(childPfs, args, |childPfs| - 1)
    {
      var children := Results(childPfs);
      var n := |children|;
      cur := children[0];
      first := PremiseFlag(childPfs, args, 0);
      second := False;
      var i := 1;
      while i < n - 1
        invariant 1 <= i <= n - 1
        invariant cdp.steps == AddedSteps(old(cdp.steps), PartialSteps(res, childPfs, args, i - 1))
        invariant cur == CurBefore(res, children, args, i) && first == FirstFlag(childPfs, args, i)
      {
        cur := PartialLink(res, childPfs, args, i, cur, first, cdp, old(cdp.steps));
        first := Null;
        i := i + 1;
      }
      second := PremiseFlag(childPfs, args, n - 1);
    }

    /**
     * One round of the partial-step loop: adds partial step `i` after the
     * first `i - 1` (`store` is the store before the first) and returns
     * the first premise of the next step.
     */
    method PartialLink(res: Term, childPfs: seq<ProofNode>, args: seq<Term>, i: nat, cur: Term, first: Term,
                       cdp: CdProof, ghost store: map<Term, ProofStep>) returns (newCur: Term)
      requires WellFormedChain(Results(childPfs), args) && PolaritiesConstant(args) && 1 <= i < |childPfs| - 1
      requires cur == CurBefore(res, Results(childPfs), args, i) && first == FirstFlag(childPfs, args, i)
      requires cdp.steps == AddedSteps(store, PartialSteps(res, childPfs, args, i - 1))
      modifies cdp
      ensures newCur == CurBefore(res, Results(childPfs), args, i + 1)
      ensures cdp.steps == AddedSteps(store, PartialSteps(res, childPfs, args, i))
    {
      newCur := PartialResolution(res, childPfs, args, i, cur, first, cdp);
      PartialStepsSnoc(res, childPfs, args, i - 1);
      AddedStepsSnoc(store, PartialSteps(res, childPfs, args, i - 1), PartialStep(res, childPfs, args, i));
    }

    /** Adds the final step, concluding `res` with its clausal form. */
    method FinalResolution(res: Term, childPfs: seq<ProofNode>, args: seq<Term>, single: bool,
                           cur: Term, first: Term, second: Term, cdp: CdProof)
      requires WellFormedChain(Results(childPfs), args) && PolaritiesConstant(args)
      requires cur == CurBefore(res, Results(childPfs), args, |childPfs| - 1)
      requires first == FirstFlag(childPfs, args, |childPfs| - 1) && second == SecondFlag(childPfs, args, |childPfs| - 1)
      modifies cdp
      ensures cdp.steps == AddedStep(old(cdp.steps), res, FinalStep(res, childPfs, args, single, empty).1)
    {
      var conclusion;
      if !single {
        conclusion := App(SEXPR, Children(res));
      } else if res == False {
        conclusion := empty;
      } else {
        conclusion := App(SEXPR, [res]);
      }
      var i := |childPfs| - 1;
      var pol := args[(i - 1) * 2];
      var curArgs := [args[(i - 1) * 2 + 1], first, second];
      assert pol == PolArg(args, i) && pol.BoolConst?;
      var rule := if pol.b then R0 else R1;
      assert rule == (if PolArg(args, i) == True then R0 else R1);
      assert conclusion == ChainClause(res, single, empty);
      assert curArgs == [PivotArg(args, i), FirstFlag(childPfs, args, i), SecondFlag(childPfs, args, i)];
      FinalStepIs(res, childPfs, args, single, empty, rule, cur, curArgs);
      AddLeanStep(res, rule, conclusion, [cur, childPfs[i].result], curArgs, cdp);
    }

    /** REORDERING: the clause is `res`'s literals, the argument their positions in the premise. */
    method Reordering(res: Term, children: seq<Term>, args: seq<Term>, cdp: CdProof)
      requires |children| >= 1 && |Children(res)| <= |Children(children[0])|
      modifies cdp
      ensures cdp.steps == AddedStep(old(cdp.steps), res,
        LeanStep(REORDER, res, App(SEXPR, Children(res)), children,
                 [App(SEXPR, Positions(Children(children[0])[..|Children(res)|], Children(res)))]))
    {
      var pos := LiteralPositions(Children(children[0]), Children(res));
      var resLits := Children(res);
      AddLeanStep(res, REORDER, App(SEXPR, resLits), children, [App(SEXPR, pos)], cdp);
    }

    /** CONG: the reflexivity step, one partial step per premise but the last, then the final step. */
    method Cong(res: Term, children: seq<Term>, args: seq<Term>, cdp: CdProof)
      requires CongShape(res, children, args)
      modifies cdp
      ensures cdp.steps == AddedSteps(old(cdp.steps), CongSteps(res, eqNode, children, args))
    {
      var op := if |args| == 2 then args[1] else args[0];
      var opEq := App(SEXPR, [eqNode, op, op]);
      AddLeanStep(opEq, REFL_PARTIAL, Null, [], [op], cdp);
      AddedStepsSnoc(old(cdp.steps), [], CongReflStep(eqNode, op, children));
      var cur := CongPartials(op, children, opEq, cdp, old(cdp.steps));
      AddLeanStep(res, LeanRule.CONG, Null, [cur, children[|children| - 1]], [], cdp);
      AddedStepsSnoc(old(cdp.steps), CongPrefix(eqNode, op, children, |children| - 1),
        (res, LeanStep(LeanRule.CONG, res, Null, [cur, children[|children| - 1]], [])));
    }

    /**
     * The partial steps of CONG, one per premise but the last, each
     * building on the one before; `store` is the store before the
     * reflexivity step.
     */
    method CongPartials(op: Term, children: seq<Term>, opEq: Term, cdp: CdProof, ghost store: map<Term, ProofStep>)
      returns (cur: Term)
      requires |children| >= 1 && forall k :: 0 <= k < |children| ==> |Children(children[k])| >= 2
      requires opEq == CongCur(eqNode, op, children, 0)
      requires cdp.steps == AddedSteps(store, CongPrefix(eqNode, op, children, 0))
      modifies cdp
      ensures cur == CongCur(eqNode, op, children, |children| - 1)
      ensures cdp.steps == AddedSteps(store, CongPrefix(eqNode, op, children, |children| - 1))
    {
      cur := opEq;
      var i := 0;
      while i < |children| - 1
        invariant 0 <= i <= |children| - 1
        invariant cur == CongCur(eqNode, op, children, i)
        invariant cdp.steps == AddedSteps(store, CongPrefix(eqNode, op, children, i))
      {
        cur := CongPartial(op, children, i, cur, cdp);
        AddedStepsSnoc(store, CongPrefix(eqNode, op, children, i), CongPartialStep(eqNode, op, children, i));
        i := i + 1;
      }
      assert i == |children| - 1;
    }

    /** Adds the partial congruence step for premise `i` and returns the new partial application. */
    method CongPartial(op: Term, children: seq<Term>, i: nat, cur: Term, cdp: CdProof) returns (newCur: Term)
      requires i < |children| && forall k :: 0 <= k < |children| ==> |Children(children[k])| >= 2
      requires cur == CongCur(eqNode, op, children, i)
      modifies cdp
      ensures newCur == CongCur(eqNode, op, children, i + 1)
      ensures cdp.steps == AddedStep(old(cdp.steps), CongPartialStep(eqNode, op, children, i).0,
                                     CongPartialStep(eqNode, op, children, i).1)
    {
      newCur := App(SEXPR, [eqNode, Null, App(SEXPR, [cur, Children(children[i])[0]]),
                            App(SEXPR, [cur, Children(children[i])[1]])]);
      AddLeanStep(newCur, CONG_PARTIAL, Null, [cur, children[i]], [], cdp);
    }

    /** SCOPE: the clause is the negated assumptions followed by `false` or the second side. */
    method Scope(res: Term, children: seq<Term>, args: seq<Term>, cdp: CdProof)
      requires ScopeShape(res)
      modifies cdp
      ensures cdp.steps == AddedStep(old(cdp.steps), res, LeanStep(LeanRule.SCOPE, res, ScopeClause(res, args), children, args))
    {
      var newRes := [];
      var k := 0;
      while k < |args|
        invariant 0 <= k <= |args| && newRes == NegateAll(args[..k])
      {
        newRes := newRes + [Not(args[k])];
        k := k + 1;
      }
      assert args[..k] == args;
      if KindOf(res) == NOT {
        newRes := newRes + [False];
      } else {
        newRes := newRes + [Children(res)[1]];
      }
      AddLeanStep(res, LeanRule.SCOPE, App(SEXPR, newRes), children, args, cdp);
    }

    /**
     * IMPLIES_ELIM: right after a SCOPE, the premises of the SCOPE are
     * stored and the SCOPE is translated with this step's conclusion
     * `res = (or (not a) b)`; otherwise the clause is the two disjuncts
     * of `res` (see `ImpliesElimClause` for the clause as written).
     */
    method ImpliesElim(res: Term, childPfs: seq<ProofNode>, args: seq<Term>, cdp: CdProof)
      requires ImpliesElimDefined(res, childPfs)
      modifies cdp
      ensures cdp.steps == AddedSteps(old(cdp.steps), ImpliesElimSteps(res, childPfs, args))
    {
      var childPf := childPfs[0];
      if childPf.rule == ProofRules.SCOPE {
        var childrenOfChild := AddPremiseProofs(childPf.children, cdp);
        Scope(res, childrenOfChild, childPf.args, cdp);
        AddedStepsSnoc(old(cdp.steps), TopSteps(childPf.children),
          (res, LeanStep(LeanRule.SCOPE, res, ScopeClause(res, childPf.args), childrenOfChild, childPf.args)));
      } else {
        var clause := ImpliesElimClause(res);
        AddLeanStep(res, LeanRule.IMPLIES_ELIM, clause, Results(childPfs), args, cdp);
        AddedStepsSingle(old(cdp.steps), (res, LeanStep(LeanRule.IMPLIES_ELIM, res, clause, Results(childPfs), args)));
      }
    }

    /**
     * `update`: translates one step concluding `res` from the premises
     * proved by `childPfs`, storing the steps of `UpdateSteps`. It always
     * succeeds.
     */
    method Update(res: Term, id: PfRule, childPfs: seq<ProofNode>, args: seq<Term>, cdp: CdProof) returns (ok: bool)
      requires UpdateDefined(res, id, childPfs, args)
      modifies cdp
      ensures ok
      ensures cdp.steps == AddedSteps(old(cdp.steps), UpdateSteps(res, id, childPfs, args, empty, eqNode))
    {
      if id == ProofRules.IMPLIES_ELIM {
        ImpliesElim(res, childPfs, args, cdp);
      } else if id == ProofRules.CONG {
        Cong(res, Results(childPfs), args, cdp);
      } else if id == CHAIN_RESOLUTION {
        ChainResolution(res, childPfs, args, cdp);
      } else {
        UpdateOne(res, id, childPfs, args, cdp);
        AddedStepsSingle(old(cdp.steps), (res, OneStep(res, id, childPfs, args)));
      }
      ok := true;
    }

    /** The rules `update` translates to a single step. */
    method UpdateOne(res: Term, id: PfRule, childPfs: seq<ProofNode>, args: seq<Term>, cdp: CdProof)
      requires UpdateDefined(res, id, childPfs, args) && !SeveralSteps(id)
      modifies cdp
      ensures cdp.steps == AddedStep(old(cdp.steps), res, OneStep(res, id, childPfs, args))
    {
      var children := Results(childPfs);
      if id == ProofRules.SCOPE {
        Scope(res, children, args, cdp);
      } else if TableRule(id).Some? {
        AddLeanStep(res, TableRule(id).value, Null, children, args, cdp);
      } else if id == ProofRules.SYMM {
        AddLeanStep(res, if KindOf(res) == EQUAL then LeanRule.SYMM else NEG_SYMM, Null, children, [], cdp);
      } else if id == ProofRules.TRANS {
        AddLeanStep(res, LeanRule.TRANS, Null, children, args, cdp);
      } else if id == REORDERING {
        Reordering(res, children, args, cdp);
      } else if id == ProofRules.CNF_AND_POS {
        var resArgs := Children(args[0]);
        AddLeanStep(res, LeanRule.CNF_AND_POS, App(SEXPR, [Children(res)[0], Children(res)[1]]), children,
                    [App(SEXPR, resArgs), args[1]], cdp);
      } else {
        AddLeanStep(res, LeanRule.UNKNOWN, Null, children, args, cdp);
      }
    }
  }

  /** What IMPLIES_ELIM reads: a premise, and the shape of `res` its translation takes apart. */
  predicate ImpliesElimDefined(res: Term, childPfs: seq<ProofNode>)
  {
    |childPfs| >= 1
    && (childPfs[0].rule == ProofRules.SCOPE ==> ScopeShape(res))
    && (childPfs[0].rule != ProofRules.SCOPE ==> |Children(res)| >= 2)
  }

  /**
   * The steps IMPLIES_ELIM stores: after a SCOPE, the top steps of the
   * SCOPE's premise proofs and the SCOPE step for `res`; otherwise one
   * IMPLIES_ELIM step.
   */
  function ImpliesElimSteps(res: Term, childPfs: seq<ProofNode>, args: seq<Term>): (r: seq<(Term, ProofStep)>)
    requires ImpliesElimDefined(res, childPfs)
  {
    if childPfs[0].rule == ProofRules.SCOPE then
      var scope := childPfs[0];
      TopSteps(scope.children)
      + [(res, LeanStep(LeanRule.SCOPE, res, ScopeClause(res, scope.args), Results(scope.children), scope.args))]
    else
      [(res, LeanStep(LeanRule.IMPLIES_ELIM, res, ImpliesElimClause(res), Results(childPfs), args))]
  }

  /**
   * The clause IMPLIES_ELIM is given as written: the negation of the
   * first child of `res`, then its second child.
   */
  function ImpliesElimClauseAsWritten(res: Term): (r: Term)
    requires |Children(res)| >= 2
    ensures KindOf(r) == SEXPR && |Children(r)| == 2
    ensures KindOf(Children(r)[0]) == NOT && Children(Children(r)[0]) == [Children(res)[0]]
  {
    App(SEXPR, [Not(Children(res)[0]), Children(res)[1]])
  }

  /**
   * The clause IMPLIES_ELIM is meant to get, as CNF_AND_POS does: the two
   * disjuncts of its conclusion `(or (not a) b)`, unchanged.
   */
  function ImpliesElimClause(res: Term): (r: Term)
    requires |Children(res)| >= 2
    ensures KindOf(r) == SEXPR && Children(r) == Children(res)[..2]
  {
    App(SEXPR, [Children(res)[0], Children(res)[1]])
  }

  /**
   * The conclusion of IMPLIES_ELIM is `(or (not a) b)`, so the clause as
   * written negates `(not a)` a second time and differs from the clause
   * of the disjuncts.
   */
  lemma ImpliesElimDoubleNegation(a: Term, b: Term)
    ensures var res := App(OR, [Not(a), b]);
      ImpliesElimClauseAsWritten(res) == App(SEXPR, [Not(Not(a)), b])
      && ImpliesElimClauseAsWritten(res) != ImpliesElimClause(res)
  {
    assert a in Children(Not(a));
  }

  /** For the binary OR IMPLIES_ELIM concludes, the corrected clause is exactly its disjuncts. */
  lemma ImpliesElimClauseReadsResult(res: Term)
    requires KindOf(res) == OR && |Children(res)| == 2
    ensures ImpliesElimClause(res) == App(SEXPR, Children(res))
  {
    assert Children(res)[..2] == Children(res);
  }

  /** What `update` reads of the premises, arguments and conclusion of each rule it translates. */
  ghost predicate UpdateDefined(res: Term, id: PfRule, childPfs: seq<ProofNode>, args: seq<Term>)
  {
    (id == ProofRules.IMPLIES_ELIM ==> ImpliesElimDefined(res, childPfs))
    && (id == ProofRules.SCOPE ==> ScopeShape(res))
    && (id == ProofRules.CONG ==> CongShape(res, Results(childPfs), args))
    && (id == CHAIN_RESOLUTION ==> WellFormedChain(Results(childPfs), args) && PolaritiesConstant(args))
    && (id == REORDERING ==> |childPfs| >= 1 && |Children(res)| <= |Children(childPfs[0].result)|)
    && (id == ProofRules.CNF_AND_POS ==> |Children(res)| >= 2 && |args| >= 2)
  }

  /** The rules `update` may translate to more than one step. */
  predicate SeveralSteps(id: PfRule)
  {
    id == ProofRules.IMPLIES_ELIM || id == ProofRules.CONG || id == CHAIN_RESOLUTION
  }

  /** The steps `update` stores for a step concluding `res`, rule by rule. */
  function UpdateSteps(res: Term, id: PfRule, childPfs: seq<ProofNode>, args: seq<Term>, empty: Term, eqNode: Term)
    : (r: seq<(Term, ProofStep)>)
    requires UpdateDefined(res, id, childPfs, args)
  {
    if id == ProofRules.IMPLIES_ELIM then ImpliesElimSteps(res, childPfs, args)
    else if id == ProofRules.CONG then CongSteps(res, eqNode, Results(childPfs), args)
    else if id == CHAIN_RESOLUTION then ChainSteps(res, childPfs, args, LeanSingleton(Results(childPfs), args, res), empty)
    else [(res, OneStep(res, id, childPfs, args))]
  }

  /** The single step `update` stores for the other rules; a rule it has no translation for becomes UNKNOWN. */
  function OneStep(res: Term, id: PfRule, childPfs: seq<ProofNode>, args: seq<Term>): ProofStep
    requires UpdateDefined(res, id, childPfs, args) && !SeveralSteps(id)
  {
    var children := Results(childPfs);
    if id == ProofRules.SCOPE then LeanStep(LeanRule.SCOPE, res, ScopeClause(res, args), children, args)
    else if TableRule(id).Some? then LeanStep(TableRule(id).value, res, Null, children, args)
    else if id == ProofRules.SYMM then LeanStep(SymmRule(res), res, Null, children, [])
    else if id == ProofRules.TRANS then LeanStep(LeanRule.TRANS, res, Null, children, args)
    else if id == REORDERING then
      LeanStep(REORDER, res, App(SEXPR, Children(res)), children,
               [App(SEXPR, Positions(Children(childPfs[0].result)[..|Children(res)|], Children(res)))])
    else if id == ProofRules.CNF_AND_POS then
      LeanStep(LeanRule.CNF_AND_POS, res, App(SEXPR, [Children(res)[0], Children(res)[1]]), children,
               [App(SEXPR, Children(args[0])), args[1]])
    else LeanStep(LeanRule.UNKNOWN, res, Null, children, args)
  }

  /** The rules `update` has a translation for; every other rule becomes UNKNOWN. */
  predicate Translated(id: PfRule)
  {
    id == ProofRules.IMPLIES_ELIM || id == ProofRules.SCOPE || TableRule(id).Some? || id == ProofRules.SYMM
    || id == ProofRules.CONG || id == ProofRules.TRANS || id == CHAIN_RESOLUTION || id == REORDERING
    || id == ProofRules.CNF_AND_POS
  }

  /**
   * Whatever the rule, `update` ends with a Lean step stored for `res`,
   * which carries `res` as its conclusion argument and which
   * `shouldUpdate` leaves alone from then on.
   */
  lemma UpdateStepsConclude(res: Term, id: PfRule, childPfs: seq<ProofNode>, args: seq<Term>, empty: Term, eqNode: Term)
    requires UpdateDefined(res, id, childPfs, args)
    ensures var r := UpdateSteps(res, id, childPfs, args, empty, eqNode);
      |r| >= 1 && r[|r| - 1].0 == res && r[|r| - 1].1.rule == LEAN_RULE && !ShouldUpdate(r[|r| - 1].1.rule)
      && |r[|r| - 1].1.args| >= 3 && r[|r| - 1].1.args[1] == res
  {
    if id == CHAIN_RESOLUTION {
      ChainStepsShape(res, childPfs, args, LeanSingleton(Results(childPfs), args, res), empty);
    }
  }

  /** The Lean rule of the last step `update` stores. */
  function UpdateRule(res: Term, id: PfRule, childPfs: seq<ProofNode>, args: seq<Term>): LeanRule
    requires UpdateDefined(res, id, childPfs, args)
  {
    if id == ProofRules.IMPLIES_ELIM then
      (if childPfs[0].rule == ProofRules.SCOPE then LeanRule.SCOPE else LeanRule.IMPLIES_ELIM)
    else if id == ProofRules.CONG then LeanRule.CONG
    else if id == CHAIN_RESOLUTION then (if PolArg(args, |childPfs| - 1) == True then R0 else R1)
    else if id == ProofRules.SCOPE then LeanRule.SCOPE
    else if TableRule(id).Some? then TableRule(id).value
    else if id == ProofRules.SYMM then SymmRule(res)
    else if id == ProofRules.TRANS then LeanRule.TRANS
    else if id == REORDERING then REORDER
    else if id == ProofRules.CNF_AND_POS then LeanRule.CNF_AND_POS
    else LeanRule.UNKNOWN
  }

  /** The last step `update` stores is written with the code of `UpdateRule`. */
  lemma UpdateStepsRule(res: Term, id: PfRule, childPfs: seq<ProofNode>, args: seq<Term>, empty: Term, eqNode: Term)
    requires UpdateDefined(res, id, childPfs, args)
    ensures var r := UpdateSteps(res, id, childPfs, args, empty, eqNode);
      |r| >= 1 && |r[|r| - 1].1.args| >= 1
      && r[|r| - 1].1.args[0] == RatConst(LeanCode(UpdateRule(res, id, childPfs, args)))
  {
    if id == CHAIN_RESOLUTION {
      ChainStepsShape(res, childPfs, args, LeanSingleton(Results(childPfs), args, res), empty);
    }
  }

  /**
   * The last step `update` stores is written with the UNKNOWN rule
   * exactly when the rule has no translation.
   */
  lemma UnknownIffUntranslated(res: Term, id: PfRule, childPfs: seq<ProofNode>, args: seq<Term>, empty: Term, eqNode: Term)
    requires UpdateDefined(res, id, childPfs, args)
    ensures var r := UpdateSteps(res, id, childPfs, args, empty, eqNode);
      |r| >= 1 && |r[|r| - 1].1.args| >= 1
      && (r[|r| - 1].1.args[0] == RatConst(LeanCode(LeanRule.UNKNOWN)) <==> !Translated(id))
  {
    UpdateStepsRule(res, id, childPfs, args, empty, eqNode);
    RuleOfCodeRoundTrip(UpdateRule(res, id, childPfs, args));
    RuleOfCodeRoundTrip(LeanRule.UNKNOWN);
  }

  /**
   * The second-premise flag as written stays set: in a chain whose first
   * resolved premise is a marked assumption and whose second is an
   * assumed OR read as a clause, the flag for the second says singleton.
   */
  lemma SecondFlagStale(a: Term, b: Term, c: Term, p1: Term, p2: Term)
    requires p2 != App(OR, [b, c])
    ensures var childPfs := [ProofNode(ProofRules.ASSUME, a, [], []), ProofNode(ProofRules.ASSUME, b, [], []),
                             ProofNode(ProofRules.ASSUME, App(OR, [b, c]), [], [])];
      var args := [True, p1, False, p2];
      WellFormedChain(Results(childPfs), args)
      && KindOf(b) != OR
      ==> SecondFlagAsWritten(childPfs, args, 2) == True && SecondFlag(childPfs, args, 2) == False
  {
    var childPfs := [ProofNode(ProofRules.ASSUME, a, [], []), ProofNode(ProofRules.ASSUME, b, [], []),
                     ProofNode(ProofRules.ASSUME, App(OR, [b, c]), [], [])];
    var args := [True, p1, False, p2];
    if KindOf(b) != OR {
      assert Results(childPfs) == [a, b, App(OR, [b, c])];
      assert MarkedSingleton(childPfs, args, 1);
      assert !MarkedSingleton(childPfs, args, 2);
    }
  }
}
