/**
 * The veriT post-processor: the callback that rewrites each internal proof
 * step into veriT steps stored in a CdProof, the driver that walks the
 * proof bottom-up (skipping SYMM and REORDERING premises outside extended
 * mode), and the final callback that makes a proof of `(cl false)` end in
 * the empty clause. The steps themselves are the functions of VeritSteps;
 * each method here is proved to add exactly those steps.
 */
module Verit {
  import opened Terms
  import opened ProofRules
  import opened ProofStore
  import opened Resolution
  import opened VeritSteps
  import opened VeritDriver
  import VR = VeritRules

  // ------------------------------------------------------------------
  // Adding steps

  /**
   * `addVeritStep`: stores, under VERIT_RULE, the step for `res` by veriT
   * rule `rule` concluding `conclusion`. The ghost parameters say where the
   * step falls in the translation being built: it is step `n` of
   * `target`, whose first `n` steps have been added to `store` already.
   */
  method AddVeritStep(res: Term, rule: VR.VeritRule, conclusion: Term, children: seq<Term>, args: seq<Term>,
                      cdp: CdProof, ghost store: map<Term, ProofStep>, ghost target: seq<(Term, ProofStep)>, ghost n: nat)
    requires n < |target| && target[n] == (res, VeritStep(res, rule, conclusion, children, args))
    requires cdp.steps == AddedSteps(store, target[..n])
    modifies cdp
    ensures cdp.steps == AddedSteps(store, target[..n + 1])
  {
    StoreVeritStep(res, rule, conclusion, children, args, cdp);
    AddedStepsSnoc(store, target[..n], target[n]);
    assert target[..n + 1] == target[..n] + [target[n]];
  }

  /** `addVeritStep` on its own: the store after adding the veriT step for `res`. */
  method StoreVeritStep(res: Term, rule: VR.VeritRule, conclusion: Term, children: seq<Term>, args: seq<Term>, cdp: CdProof)
    modifies cdp
    ensures cdp.steps == AddedStep(old(cdp.steps), res, VeritStep(res, rule, conclusion, children, args))
  {
    var veritArgs := [RatConst(rule), res, conclusion] + args;
    cdp.AddStep(res, VERIT_RULE, children, veritArgs);
  }

  // ------------------------------------------------------------------
  // The rules translated with loops

  /**
   * SCOPE: the anchor, one `and_pos` step per assumption, then the steps
   * that turn the anchor into the implication. Each group of steps is
   * added by its own method; the store after all of them is the store
   * after the whole sequence.
   */
  method Scope(res: Term, children: seq<Term>, args: seq<Term>, cdp: CdProof)
    requires |children| >= 1
    modifies cdp
    ensures cdp.steps == AddedSteps(old(cdp.steps), ScopeSteps(res, children, args))
  {
    var f := children[0];
    var negs := Negations(args);
    var vp1 := Cl(negs + [f]);
    var conj := if |args| != 1 then App(AND, args) else args[0];
    assert vp1 == AnchorClause(args, f) && conj == Conjunction(args);
    ScopeStoredGroups(cdp.steps, res, children, args);
    StoreVeritStep(vp1, VR.ANCHOR_SUBPROOF, vp1, children, args, cdp);
    AndPos(conj, args, cdp);
    ScopeCollapseSteps(conj, f, args, vp1, cdp);
    ScopeImpliesSteps(conj, f, cdp);
    ScopeTailSteps(res, conj, f, cdp);
  }

  /** Adding the steps of SCOPE is adding the anchor, then each group of steps in turn. */
  lemma ScopeStoredGroups(store: map<Term, ProofStep>, res: Term, children: seq<Term>, args: seq<Term>)
    requires |children| >= 1
    ensures var f, conj := children[0], Conjunction(args);
      var vp1 := AnchorClause(args, f);
      AddedSteps(store, ScopeSteps(res, children, args))
      == AddedSteps(AddedSteps(AddedSteps(AddedSteps(
           AddedStep(store, vp1, VeritStep(vp1, VR.ANCHOR_SUBPROOF, vp1, children, args)),
           AndPosSteps(conj, args)), ScopeCollapse(vp1, conj, f, args)), ScopeImplies(conj, f)), ScopeTail(res, conj, f))
  {
    var f, conj := children[0], Conjunction(args);
    var vp1 := AnchorClause(args, f);
    var anchor := ScopeAnchor(children, args);
    ScopeStepsGroups(res, children, args);
    AddedStepsGroups(store, anchor, AndPosSteps(conj, args), ScopeCollapse(vp1, conj, f, args),
                     ScopeImplies(conj, f), ScopeTail(res, conj, f));
    AddedStepsSnoc(store, [], anchor[0]);
    assert [] + [anchor[0]] == anchor;
  }

  /** The `and_pos` steps of SCOPE, one per assumption. */
  method AndPos(conj: Term, args: seq<Term>, cdp: CdProof)
    modifies cdp
    ensures cdp.steps == AddedSteps(old(cdp.steps), AndPosSteps(conj, args))
  {
    var i := 0;
    assert args[..|args|] == args;
    while i < |args|
      invariant i <= |args|
      invariant cdp.steps == AddedSteps(old(cdp.steps), AndPosSteps(conj, args[..i]))
    {
      AndPosStep(conj, args, i, cdp, old(cdp.steps));
      i := i + 1;
    }
  }

  /** One round of the `and_pos` loop: the step for assumption `i`, after those for the assumptions before it. */
  method AndPosStep(conj: Term, args: seq<Term>, i: nat, cdp: CdProof, ghost store: map<Term, ProofStep>)
    requires i < |args| && cdp.steps == AddedSteps(store, AndPosSteps(conj, args[..i]))
    modifies cdp
    ensures cdp.steps == AddedSteps(store, AndPosSteps(conj, args[..i + 1]))
  {
    var c := Cl([Not(conj), args[i]]);
    AndPosStepsSnoc(cdp.steps, store, conj, args, i);
    StoreVeritStep(c, VR.AND_POS, c, [], [], cdp);
  }

  /** Adding the `and_pos` steps for one more assumption adds its step to the store. */
  lemma AndPosStepsSnoc(now: map<Term, ProofStep>, store: map<Term, ProofStep>, conj: Term, args: seq<Term>, i: nat)
    requires i < |args| && now == AddedSteps(store, AndPosSteps(conj, args[..i]))
    ensures var c := Cl([Not(conj), args[i]]);
      AddedSteps(store, AndPosSteps(conj, args[..i + 1])) == AddedStep(now, c, VeritStep(c, VR.AND_POS, c, [], []))
  {
    var init, last := AndPosSteps(conj, args[..i]), Self(AndPosClause(conj, args[i]), VR.AND_POS, [], []);
    PrefixSnoc(args, i);
    assert AndPosSteps(conj, args[..i + 1]) == init + [last];
    AddedStepsSnoc(store, init, last);
  }

  /** The three steps of SCOPE from the anchor and the `and_pos` clauses to `(cl (not A) F)`. */
  method ScopeCollapseSteps(conj: Term, f: Term, args: seq<Term>, vp1: Term, cdp: CdProof)
    modifies cdp
    ensures cdp.steps == AddedSteps(old(cdp.steps), ScopeCollapse(vp1, conj, f, args))
  {
    ghost var t := ScopeCollapse(vp1, conj, f, args);
    var k := |args|;
    var vp2a := Cl([f] + Repeat(Not(conj), k));
    var vp2b := Cl(Repeat(Not(conj), k) + [f]);
    var vp3 := Cl([Not(conj), f]);
    AddVeritStep(vp2a, VR.RESOLUTION, vp2a, [vp1] + AndPosClauses(conj, args), [], cdp, old(cdp.steps), t, 0);
    AddVeritStep(vp2b, VR.REORDER, vp2b, [vp2a], [], cdp, old(cdp.steps), t, 1);
    AddVeritStep(vp3, VR.DUPLICATED_LITERALS, vp3, [vp2b], [], cdp, old(cdp.steps), t, 2);
    assert t[..3] == t;
  }

  /** The four steps of SCOPE from `(cl (not A) F)` to `(cl (=> A F) (=> A F))`. */
  method ScopeImpliesSteps(conj: Term, f: Term, cdp: CdProof)
    modifies cdp
    ensures cdp.steps == AddedSteps(old(cdp.steps), ScopeImplies(conj, f))
  {
    ghost var t := ScopeImplies(conj, f);
    var vp3 := Cl([Not(conj), f]);
    var imp := App(IMPLIES, [conj, f]);
    var vp4 := Cl([imp, conj]);
    var vp5 := Cl([imp, f]);
    var vp6 := Cl([imp, Not(f)]);
    var vp7 := Cl([imp, imp]);
    AddedStepsFour(cdp.steps, t);
    StoreVeritStep(vp4, VR.IMPLIES_NEG1, vp4, [], [], cdp);
    StoreVeritStep(vp5, VR.RESOLUTION, vp5, [vp4, vp3], [], cdp);
    StoreVeritStep(vp6, VR.IMPLIES_NEG2, vp6, [], [], cdp);
    StoreVeritStep(vp7, VR.RESOLUTION, vp7, [vp5, vp6], [], cdp);
  }

  /** The last steps of SCOPE, concluding `(cl (=> A F))`, or `(cl (not A))` when `F` is `false`. */
  method ScopeTailSteps(res: Term, conj: Term, f: Term, cdp: CdProof)
    modifies cdp
    ensures cdp.steps == AddedSteps(old(cdp.steps), ScopeTail(res, conj, f))
  {
    var imp := App(IMPLIES, [conj, f]);
    var vp7 := Cl([imp, imp]);
    var vp8 := Cl([imp]);
    if f != False {
      ghost var t := [(res, VeritStep(res, VR.DUPLICATED_LITERALS, vp8, [vp7], []))];
      AddVeritStep(res, VR.DUPLICATED_LITERALS, vp8, [vp7], [], cdp, old(cdp.steps), t, 0);
      assert t[..1] == t;
    } else {
      ScopeFalseTail(res, conj, cdp);
    }
  }

  /** The last four steps of SCOPE when the body is `false`, ending in `(cl (not A))`. */
  method ScopeFalseTail(res: Term, conj: Term, cdp: CdProof)
    modifies cdp
    ensures cdp.steps == AddedSteps(old(cdp.steps), ScopeTail(res, conj, False))
  {
    ghost var t := ScopeTail(res, conj, False);
    var imp := App(IMPLIES, [conj, False]);
    var vp7 := Cl([imp, imp]);
    var vp8 := Cl([imp]);
    var vp9 := Cl([App(EQUAL, [imp, Not(conj)])]);
    var vp10 := Cl([Not(imp), Not(conj)]);
    AddedStepsFour(cdp.steps, t);
    StoreVeritStep(vp8, VR.DUPLICATED_LITERALS, vp8, [vp7], [], cdp);
    StoreVeritStep(vp9, VR.IMPLIES_SIMPLIFY, vp9, [], [], cdp);
    StoreVeritStep(vp10, VR.EQUIV1, vp10, [vp9], [], cdp);
    StoreVeritStep(res, VR.RESOLUTION, Cl([res]), [vp8, vp10], [], cdp);
  }

  /** The negations of the given nodes, built one at a time. */
  method Negations(ts: seq<Term>) returns (negs: seq<Term>)
    ensures negs == NegateAll(ts)
  {
    negs := [];
    var i := 0;
    while i < |ts|
      invariant i <= |ts| && negs == NegateAll(ts[..i])
    {
      assert ts[..i + 1] == ts[..i] + [ts[i]];
      negs := negs + [Not(ts[i])];
      i := i + 1;
    }
    assert ts[..i] == ts;
  }

  /** AND_INTRO: the `and_neg` clause, then a resolution with every premise. */
  method AndIntro(res: Term, children: seq<Term>, cdp: CdProof)
    modifies cdp
    ensures cdp.steps == AddedSteps(old(cdp.steps), AndIntroSteps(res, children))
  {
    ghost var t := AndIntroSteps(res, children);
    var negs := Negations(children);
    var vp1 := Cl([res] + negs);
    AddVeritStep(vp1, VR.AND_NEG, vp1, [], [], cdp, old(cdp.steps), t, 0);
    AddVeritStep(res, VR.RESOLUTION, Cl([res]), [vp1] + children, [], cdp, old(cdp.steps), t, 1);
    assert t[..2] == t;
  }

  /** The `forall_inst` equations, built one at a time. */
  method Equations(vars: seq<Term>, args: seq<Term>) returns (eqs: seq<Term>)
    requires |args| <= |vars|
    ensures eqs == InstantiationArgs(vars, args)
  {
    eqs := [];
    var i := 0;
    while i < |args|
      invariant i <= |args| && |eqs| == i
      invariant forall j :: 0 <= j < i ==> eqs[j] == App(EQUAL, [vars[j], args[j]])
    {
      eqs := eqs + [App(EQUAL, [vars[i], args[i]])];
      i := i + 1;
    }
  }

  /** INSTANTIATE: `forall_inst`, `or`, then a resolution with the quantified premise. */
  method Instantiate(res: Term, c0: Term, args: seq<Term>, cdp: CdProof)
    requires |Children(c0)| >= 1 && |args| <= |Children(Children(c0)[0])|
    modifies cdp
    ensures cdp.steps == AddedSteps(old(cdp.steps), InstantiateSteps(res, c0, Children(Children(c0)[0]), args))
  {
    var eqs := Equations(Children(Children(c0)[0]), args);
    var vp1 := Cl([App(OR, [Not(c0), res])]);
    var vp2 := Cl([Not(c0), res]);
    StoreVeritStep(vp1, VR.FORALL_INST, vp1, [], eqs, cdp);
    StoreVeritStep(vp2, VR.OR, vp2, [vp1], [], cdp);
    StoreVeritStep(res, VR.RESOLUTION, Cl([res]), [vp2, c0], [], cdp);
    AddedStepsThree(old(cdp.steps), InstantiateSteps(res, c0, Children(Children(c0)[0]), args));
  }

  // ------------------------------------------------------------------
  // Resolution

  /**
   * RESOLUTION: both premises' veriT rules are read first; a premise
   * proved as an input and read as a clause gets an `or` step; the
   * resolvent's length decides how the conclusion is written.
   */
  method BinaryResolution(res: Term, children: seq<Term>, args: seq<Term>, cdp: CdProof)
    requires |children| >= 2 && |args| >= 2
    modifies cdp
    ensures cdp.steps == AddedSteps(old(cdp.steps), ResolutionSteps(res, children, args, old(cdp.steps)))
  {
    ghost var store := cdp.steps;
    var c0, c1 := children[0], children[1];
    var vp1, vp2 := ResolutionPremises(c0, c1, cdp);
    ghost var s1 := cdp.steps;
    var lits := (if KindOf(c0) == OR then Children(c0) else [c0]) + (if KindOf(c1) == OR then Children(c1) else [c1]);
    var left := RemoveFirst(RemoveFirst(lits, args[1]), Not(args[1]));
    assert left == ResolutionLeft(ResolutionPremiseLits(store, c0, c1) + ResolutionPremiseLits(store, c1, c0), args[1]);
    var conclusion := ConclusionClause(res, KindOf(res) != OR || |left| == 1);
    StoreVeritStep(res, VR.RESOLUTION, conclusion, [vp1, vp2], [], cdp);
    AddedStepsSnoc(store, ResolutionOrSteps(store, c0, c1), ResolutionStep(res, children, args, store));
  }

  /**
   * The `or` steps of RESOLUTION, decided on the veriT rules stored for
   * the premises before either is added; returns the premises as the
   * resolution step cites them.
   */
  method ResolutionPremises(c0: Term, c1: Term, cdp: CdProof) returns (vp1: Term, vp2: Term)
    modifies cdp
    ensures cdp.steps == AddedSteps(old(cdp.steps), ResolutionOrSteps(old(cdp.steps), c0, c1))
    ensures vp1 == ResolutionPremise(old(cdp.steps), c0, c1) && vp2 == ResolutionPremise(old(cdp.steps), c1, c0)
  {
    ghost var store := cdp.steps;
    var rule0 := StoredRule(cdp.steps, c0);
    var rule1 := StoredRule(cdp.steps, c1);
    var needs0 := (rule0 == Some(VR.ASSUME) || rule0 == Some(VR.EQ_RESOLUTION)) && KindOf(c0) == OR
      && !IsSameModEqual(c0, Not(c1));
    var needs1 := (rule1 == Some(VR.ASSUME) || rule1 == Some(VR.EQ_RESOLUTION)) && KindOf(c1) == OR
      && !IsSameModEqual(c1, Not(c0));
    assert needs0 == NeedsOrStep(store, c0, c1) && needs1 == NeedsOrStep(store, c1, c0);
    vp1 := OrPremise(c0, needs0, cdp);
    vp2 := OrPremise(c1, needs1, cdp);
    AddedStepsAppend(store, OrSteps(store, c0, c1), OrSteps(store, c1, c0));
  }

  /** `addVeritStepFromOr` for premise `c` when it needs one; returns the premise as it is then cited. */
  method OrPremise(c: Term, needs: bool, cdp: CdProof) returns (vp: Term)
    modifies cdp
    ensures cdp.steps == AddedSteps(old(cdp.steps), OrStepIf(needs, c))
    ensures vp == if needs then Cl([c]) else c
  {
    vp := c;
    if needs {
      AddVeritStep(c, VR.OR, ClauseOfOr(c), [c], [], cdp, old(cdp.steps), [OrStep(c)], 0);
      vp := Cl([c]);
    }
  }

  /**
   * Whether the chain's conclusion `res` is a single literal: not an OR,
   * or introduced by a premise and not eliminated by a later link.
   */
  method IsSingletonClause(res: Term, children: seq<Term>, args: seq<Term>) returns (single: bool)
    requires WellFormedChain(children, args)
    ensures single == IsSingletonSpec(children, args, res)
  {
    if KindOf(res) != OR {
      return true;
    }
    var i := LastIntroducer(res, children, args);
    if i == 0 {
      return false;
    }
    IsSingletonAt(children, args, res, i - 1);
    var eliminated := EliminatedFrom(res, children, args, i);
    single := !eliminated;
  }

  /**
   * CHAIN_RESOLUTION: premise by premise, an `or` step for each premise
   * read as a clause whose stored proof is an assumption or EQ_RESOLVE,
   * then one resolution over the cited premises.
   */
  method ChainResolution(res: Term, children: seq<Term>, args: seq<Term>, cdp: CdProof)
    requires WellFormedChain(children, args)
    modifies cdp
    ensures cdp.steps == AddedSteps(old(cdp.steps), ChainSteps(res, children, args, old(cdp.steps)))
  {
    ghost var store := cdp.steps;
    var cited := ChainPremises(children, args, cdp);
    var single := IsSingletonClause(res, children, args);
    ghost var s1 := cdp.steps;
    StoreVeritStep(res, VR.RESOLUTION, ConclusionClause(res, single), cited, [], cdp);
    AddedStepsSnoc(store, ChainOrSteps(children, args, store, |children|).0, ChainStep(res, children, args, store));
  }

  /** The `or` steps of a chain, premise by premise; returns the premises the resolution cites. */
  method ChainPremises(children: seq<Term>, args: seq<Term>, cdp: CdProof) returns (cited: seq<Term>)
    requires WellFormedChain(children, args)
    modifies cdp
    ensures ChainDone(children, args, old(cdp.steps), |children|, cited, cdp.steps)
  {
    ghost var store := cdp.steps;
    cited := [];
    var i := 0;
    while i < |children|
      invariant i <= |children|
      invariant ChainDone(children, args, store, i, cited, cdp.steps)
    {
      cited := ChainPremiseNext(children, args, i, cited, cdp, store);
      i := i + 1;
    }
  }

  /** Premise `i` after the `or` steps of the premises before it. */
  method ChainPremiseNext(children: seq<Term>, args: seq<Term>, i: nat, cited: seq<Term>, cdp: CdProof,
                          ghost store: map<Term, ProofStep>)
    returns (cited': seq<Term>)
    requires WellFormedChain(children, args) && i < |children|
    requires ChainDone(children, args, store, i, cited, cdp.steps)
    modifies cdp
    ensures ChainDone(children, args, store, i + 1, cited', cdp.steps)
  {
    ChainOrStepsNext(children, args, store, i);
    var c := ChainPremise(children, args, i, cdp);
    cited' := cited + [c];
  }

  /** The first `i` premises of a chain are done: their `or` steps are stored and `cited` lists them. */
  ghost predicate ChainDone(children: seq<Term>, args: seq<Term>, store: map<Term, ProofStep>, i: nat,
                            cited: seq<Term>, steps: map<Term, ProofStep>)
    requires WellFormedChain(children, args) && i <= |children|
  {
    var ors := ChainOrSteps(children, args, store, i);
    cited == ors.1 && steps == AddedSteps(store, ors.0)
  }

  /** One more premise of the chain: its `or` steps follow those of the earlier premises. */
  lemma ChainOrStepsNext(children: seq<Term>, args: seq<Term>, store: map<Term, ProofStep>, i: nat)
    requires WellFormedChain(children, args) && i < |children|
    ensures var prev := ChainOrSteps(children, args, store, i);
      var premise := ChainPremiseOr(children, args, AddedSteps(store, prev.0), i);
      ChainOrSteps(children, args, store, i + 1) == (prev.0 + premise.0, prev.1 + [premise.1])
      && AddedSteps(store, prev.0 + premise.0) == AddedSteps(AddedSteps(store, prev.0), premise.0)
  {
    var prev := ChainOrSteps(children, args, store, i);
    AddedStepsAppend(store, prev.0, ChainPremiseOr(children, args, AddedSteps(store, prev.0), i).0);
  }

  /**
   * Premise `i` of a chain: an `or` step when it is read as a clause and
   * its stored proof is an assumption or EQ_RESOLVE; returns the premise
   * as the resolution cites it.
   */
  method ChainPremise(children: seq<Term>, args: seq<Term>, i: nat, cdp: CdProof) returns (c: Term)
    requires WellFormedChain(children, args) && i < |children|
    modifies cdp
    ensures var premise := ChainPremiseOr(children, args, old(cdp.steps), i);
      cdp.steps == AddedSteps(old(cdp.steps), premise.0) && c == premise.1
  {
    var asClause := ReadAsClause(children, args, i);
    var rule := ProofRuleFor(cdp.steps, children[i]);
    if asClause && (rule == ProofRules.ASSUME || rule == EQ_RESOLVE) {
      c := ClauseOfOr(children[i]);
      StoreVeritStep(c, VR.OR, c, [children[i]], [], cdp);
      AddedStepsSingle(old(cdp.steps), ChainOrStep(children, i));
    } else {
      c := children[i];
    }
  }

  // ------------------------------------------------------------------
  // The rules translated to a few fixed steps

  /** SPLIT: two `not_not` clauses and their resolution. */
  method Split(res: Term, f: Term, cdp: CdProof)
    modifies cdp
    ensures cdp.steps == AddedSteps(old(cdp.steps), SplitSteps(res, f))
  {
    ghost var t := SplitSteps(res, f);
    var vp1 := Cl([Not(Not(Not(f))), f]);
    var vp2 := Cl([Not(Not(Not(Not(f)))), Not(f)]);
    AddVeritStep(vp2, VR.NOT_NOT, vp2, [], [], cdp, old(cdp.steps), t, 0);
    AddVeritStep(vp1, VR.NOT_NOT, vp1, [], [], cdp, old(cdp.steps), t, 1);
    AddVeritStep(res, VR.RESOLUTION, ClauseOfOr(res), [vp1, vp2], [], cdp, old(cdp.steps), t, 2);
    assert t[..3] == t;
  }

  /** EQ_RESOLVE: the `equiv_pos2` clause and a resolution with both premises. */
  method EqResolve(res: Term, c0: Term, c1: Term, cdp: CdProof)
    modifies cdp
    ensures cdp.steps == AddedSteps(old(cdp.steps), EqResolveSteps(res, c0, c1))
  {
    ghost var t := EqResolveSteps(res, c0, c1);
    var vp1 := Cl([Not(c1), Not(c0), res]);
    AddVeritStep(vp1, VR.EQUIV_POS2, vp1, [], [], cdp, old(cdp.steps), t, 0);
    AddVeritStep(res, VR.RESOLUTION, Cl([res]), [vp1, c1, c0], [], cdp, old(cdp.steps), t, 1);
    assert t[..2] == t;
  }

  /** MODUS_PONENS and NOT_NOT_ELIM: the clause `(cl (not F1) res)`, then a resolution with `F1`. */
  method Implication(res: Term, c0: Term, rule: VR.VeritRule, premises: seq<Term>, cdp: CdProof)
    modifies cdp
    ensures cdp.steps == AddedSteps(old(cdp.steps), ImplicationSteps(res, c0, rule, premises))
  {
    ghost var t := ImplicationSteps(res, c0, rule, premises);
    var vp1 := Cl([Not(c0), res]);
    AddVeritStep(vp1, rule, vp1, premises, [], cdp, old(cdp.steps), t, 0);
    AddVeritStep(res, VR.RESOLUTION, Cl([res]), [vp1, c0], [], cdp, old(cdp.steps), t, 1);
    assert t[..2] == t;
  }

  /** CNF_ITE_POS3 and CNF_ITE_NEG3: two clauses, their resolution, and duplicate removal. */
  method IteThird(res: Term, cond: Term, first: VR.VeritRule, second: VR.VeritRule, cdp: CdProof)
    requires |Children(res)| >= 3
    modifies cdp
    ensures cdp.steps == AddedSteps(old(cdp.steps), IteThirdSteps(res, cond, first, second))
  {
    ghost var t := IteThirdSteps(res, cond, first, second);
    var lits := Children(res);
    var vp1 := Cl([lits[0], cond, lits[2]]);
    var vp2 := Cl([lits[0], Not(cond), lits[1]]);
    var vp3 := Cl([lits[0], lits[1], lits[0], lits[2]]);
    AddVeritStep(vp1, first, vp1, [], [], cdp, old(cdp.steps), t, 0);
    AddVeritStep(vp2, second, vp2, [], [], cdp, old(cdp.steps), t, 1);
    AddVeritStep(vp3, VR.RESOLUTION, vp3, [vp1, vp2], [], cdp, old(cdp.steps), t, 2);
    AddVeritStep(res, VR.DUPLICATED_LITERALS, ClauseOfOr(res), [vp3], [], cdp, old(cdp.steps), t, 3);
    assert t[..4] == t;
  }

  /** TRUE_INTRO: `equiv_simplify`, `equiv2`, then a resolution with the premise. */
  method TrueIntro(res: Term, c0: Term, cdp: CdProof)
    modifies cdp
    ensures cdp.steps == AddedSteps(old(cdp.steps), TrueIntroSteps(res, c0))
  {
    ghost var t := TrueIntroSteps(res, c0);
    var vp1 := Cl([App(EQUAL, [res, c0])]);
    var vp2 := Cl([res, Not(c0)]);
    AddVeritStep(vp1, VR.EQUIV_SIMPLIFY, vp1, [], [], cdp, old(cdp.steps), t, 0);
    AddVeritStep(vp2, VR.EQUIV2, vp2, [vp1], [], cdp, old(cdp.steps), t, 1);
    AddVeritStep(res, VR.RESOLUTION, Cl([res]), [vp2, c0], [], cdp, old(cdp.steps), t, 2);
    assert t[..3] == t;
  }

  /** TRUE_ELIM and FALSE_ELIM: `equiv_simplify`, `equiv1`, then a resolution with the premise. */
  method ConstElim(res: Term, c0: Term, cdp: CdProof)
    modifies cdp
    ensures cdp.steps == AddedSteps(old(cdp.steps), ConstElimSteps(res, c0))
  {
    ghost var t := ConstElimSteps(res, c0);
    var vp1 := Cl([App(EQUAL, [c0, res])]);
    var vp2 := Cl([Not(c0), res]);
    AddVeritStep(vp1, VR.EQUIV_SIMPLIFY, vp1, [], [], cdp, old(cdp.steps), t, 0);
    AddVeritStep(vp2, VR.EQUIV1, vp2, [vp1], [], cdp, old(cdp.steps), t, 1);
    AddVeritStep(res, VR.RESOLUTION, Cl([res]), [vp2, c0], [], cdp, old(cdp.steps), t, 2);
    assert t[..3] == t;
  }

  /** FALSE_INTRO: as TRUE_INTRO, with a `not_not` step and an extra resolution. */
  method FalseIntro(res: Term, c0: Term, cdp: CdProof)
    requires |Children(c0)| >= 1
    modifies cdp
    ensures cdp.steps == AddedSteps(old(cdp.steps), FalseIntroSteps(res, c0))
  {
    ghost var t := FalseIntroSteps(res, c0);
    var f := Children(c0)[0];
    var vp1 := Cl([App(EQUAL, [res, c0])]);
    var vp2 := Cl([res, Not(c0)]);
    var vp3 := Cl([Not(Not(c0)), f]);
    var vp4 := Cl([res, f]);
    AddVeritStep(vp1, VR.EQUIV_SIMPLIFY, vp1, [], [], cdp, old(cdp.steps), t, 0);
    AddVeritStep(vp2, VR.EQUIV2, vp2, [vp1], [], cdp, old(cdp.steps), t, 1);
    AddVeritStep(vp3, VR.NOT_NOT, vp3, [], [], cdp, old(cdp.steps), t, 2);
    AddVeritStep(vp4, VR.RESOLUTION, vp4, [vp2, vp3], [], cdp, old(cdp.steps), t, 3);
    AddVeritStep(res, VR.RESOLUTION, Cl([res]), [vp4, c0], [], cdp, old(cdp.steps), t, 4);
    assert t[..5] == t;
  }

  // ------------------------------------------------------------------
  // The callback

  /**
   * `update`: adds the translation of the step proving `res` by rule `id`
   * from premises `children` with arguments `args`.
   */
  method Update(res: Term, id: PfRule, children: seq<Term>, args: seq<Term>, cdp: CdProof)
    requires TranslationDefined(res, id, children, args)
    modifies cdp
    ensures cdp.steps == AddedSteps(old(cdp.steps), Translation(res, id, children, args, old(cdp.steps)))
  {
    if MultiStep(id) {
      UpdateMulti(res, id, children, args, cdp);
    } else {
      UpdateSingle(res, id, children, args, cdp);
    }
  }

  /** The rules translated to several steps, by group of rules. */
  method UpdateMulti(res: Term, id: PfRule, children: seq<Term>, args: seq<Term>, cdp: CdProof)
    requires TranslationDefined(res, id, children, args) && MultiStep(id)
    modifies cdp
    ensures cdp.steps == AddedSteps(old(cdp.steps), MultiSteps(res, id, children, args, old(cdp.steps)))
  {
    if id == SCOPE {
      Scope(res, children, args, cdp);
    } else if ResolutionRule(id) {
      UpdateResolution(res, id, children, args, cdp);
    } else if PropositionalRule(id) {
      UpdatePropositional(res, id, children, args, cdp);
    } else if IteTrueRule(id) {
      UpdateIteTrue(res, id, children, args, cdp);
    } else {
      UpdateElimInst(res, id, children, args, cdp);
    }
  }

  /** RESOLUTION and CHAIN_RESOLUTION. */
  method UpdateResolution(res: Term, id: PfRule, children: seq<Term>, args: seq<Term>, cdp: CdProof)
    requires TranslationDefined(res, id, children, args) && ResolutionRule(id)
    modifies cdp
    ensures cdp.steps == AddedSteps(old(cdp.steps), ResolutionTranslation(res, id, children, args, old(cdp.steps)))
  {
    if id == ProofRules.RESOLUTION {
      BinaryResolution(res, children, args, cdp);
    } else {
      ChainResolution(res, children, args, cdp);
    }
  }

  /** SPLIT, EQ_RESOLVE, MODUS_PONENS, NOT_NOT_ELIM and AND_INTRO. */
  method UpdatePropositional(res: Term, id: PfRule, children: seq<Term>, args: seq<Term>, cdp: CdProof)
    requires TranslationDefined(res, id, children, args) && PropositionalRule(id)
    modifies cdp
    ensures cdp.steps == AddedSteps(old(cdp.steps), PropositionalTranslation(res, id, children, args))
  {
    if id == SPLIT {
      Split(res, args[0], cdp);
    } else if id == EQ_RESOLVE {
      EqResolve(res, children[0], children[1], cdp);
    } else if id == MODUS_PONENS {
      Implication(res, children[0], VR.IMPLIES, [children[1]], cdp);
    } else if id == NOT_NOT_ELIM {
      Implication(res, children[0], VR.NOT_NOT, [], cdp);
    } else {
      AndIntro(res, children, cdp);
    }
  }

  /** CNF_ITE_POS3, CNF_ITE_NEG3 and TRUE_INTRO. */
  method UpdateIteTrue(res: Term, id: PfRule, children: seq<Term>, args: seq<Term>, cdp: CdProof)
    requires TranslationDefined(res, id, children, args) && IteTrueRule(id)
    modifies cdp
    ensures cdp.steps == AddedSteps(old(cdp.steps), IteTrueTranslation(res, id, children, args))
  {
    if id == CNF_ITE_POS3 {
      IteThird(res, Children(args[0])[0], VR.ITE_POS1, VR.ITE_POS2, cdp);
    } else if id == CNF_ITE_NEG3 {
      IteThird(res, Children(args[0])[0], VR.ITE_NEG1, VR.ITE_NEG2, cdp);
    } else {
      TrueIntro(res, children[0], cdp);
    }
  }

  /** TRUE_ELIM, FALSE_ELIM, FALSE_INTRO and INSTANTIATE. */
  method UpdateElimInst(res: Term, id: PfRule, children: seq<Term>, args: seq<Term>, cdp: CdProof)
    requires TranslationDefined(res, id, children, args) && ElimInstRule(id)
    modifies cdp
    ensures cdp.steps == AddedSteps(old(cdp.steps), ElimInstTranslation(res, id, children, args))
  {
    if id == TRUE_ELIM || id == FALSE_ELIM {
      ConstElim(res, children[0], cdp);
    } else if id == FALSE_INTRO {
      FalseIntro(res, children[0], cdp);
    } else {
      Instantiate(res, children[0], args, cdp);
    }
  }

  /**
   * The rules translated to one step; the rules without a translation of
   * their own keep their arguments under UNDEFINED.
   */
  method UpdateSingle(res: Term, id: PfRule, children: seq<Term>, args: seq<Term>, cdp: CdProof)
    requires TranslationDefined(res, id, children, args) && !MultiStep(id)
    modifies cdp
    ensures cdp.steps == AddedStep(old(cdp.steps), res, SingleStep(res, id, children, args).1)
  {
    var rule: VR.VeritRule, conclusion, stepArgs := VR.UNDEFINED, Cl([res]), args;
    if id == ProofRules.ASSUME {
      rule, conclusion, stepArgs := VR.ASSUME, res, [];
    } else if id == THEORY_REWRITE {
      var tid, k := args[1].q, KindOf(Children(res)[0]);
      if tid == VR.THEORY_ARITH && k == CAST_TO_REAL {
        rule, stepArgs := VR.LA_GENERIC, [RatConst(1)];
      } else {
        rule, stepArgs := VR.TheoryRewriteRule(tid, k), [];
      }
    } else if id == FACTORING {
      rule, stepArgs := VR.DUPLICATED_LITERALS, [];
      conclusion := if KindOf(res) == OR then ClauseOfOr(res) else Cl([res]);
    } else if id == CONTRA {
      rule, conclusion, stepArgs := VR.RESOLUTION, Cl([]), [];
    } else if UnitRule(id).Some? {
      rule, stepArgs := UnitRule(id).value, [];
    } else if ClauseRule(id).Some? {
      rule, conclusion, stepArgs := ClauseRule(id).value, ClauseOfOr(res), [];
    }
    assert SingleStep(res, id, children, args) == (res, VeritStep(res, rule, conclusion, children, stepArgs));
    cdp.AddStep(res, VERIT_RULE, children, [RatConst(rule), res, conclusion] + stepArgs);
  }

  // ------------------------------------------------------------------
  // The final callback

  /**
   * The final callback's `update` for a root `res` proved by veriT rule
   * `vrule` from `children`: the root's step again under `(res)`, the
   * clause `(cl (not false))`, and a resolution of the two concluding the
   * empty clause under `res`, each replacing whatever was stored.
   */
  method FinalUpdate(res: Term, children: seq<Term>, vrule: nat, cdp: CdProof)
    modifies cdp
    ensures cdp.steps == Overwritten(old(cdp.steps), FinalSteps(res, children, vrule))
  {
    var nf := Not(False);
    var wrapped := App(SEXPR, [res]);
    var conclusion := if vrule == VR.ASSUME then res else Cl([res]);
    cdp.OverwriteStep(wrapped, VERIT_RULE, children, [RatConst(vrule), wrapped, conclusion]);
    cdp.OverwriteStep(nf, VERIT_RULE, [], [RatConst(VR.FALSE), nf, Cl([nf])]);
    cdp.OverwriteStep(res, VERIT_RULE, [nf, wrapped], [RatConst(VR.RESOLUTION), res, Cl([])]);
    ghost var steps := FinalSteps(res, children, vrule);
    assert steps[..2][..1] == steps[..1] && steps[..1][..0] == [];
    assert Overwritten(old(cdp.steps), steps[..1]) == old(cdp.steps)[steps[0].0 := steps[0].1];
    assert Overwritten(old(cdp.steps), steps[..2]) == Overwritten(old(cdp.steps), steps[..1])[steps[1].0 := steps[1].1];
  }

  // ------------------------------------------------------------------
  // The driver

  /** The veriT post-processor, translating whole proofs in extended mode or not. */
  class VeritProofPostprocess {
    /** In extended mode SYMM and REORDERING steps are translated instead of looked through. */
    const extended: bool

    constructor (extended: bool)
      ensures this.extended == extended
    {
      this.extended := extended;
    }

    /**
     * `processInternal`: translates the premise proofs first, each in
     * place of the proof `Next` finds for it, then the step of `pf`
     * itself unless it is in veriT form.
     */
    method ProcessInternal(pf: ProofNode, cdp: CdProof)
      requires Translatable(pf, extended)
      modifies cdp
      ensures cdp.steps == ProcessedFrom(old(cdp.steps), pf, extended, 0)
      decreases pf, 2
    {
      var children := ProcessPremises(pf, cdp);
      if ShouldUpdate(pf.rule) {
        Update(pf.result, pf.rule, children, pf.args, cdp);
      }
    }

    /**
     * The loop of `processInternal` over the premise proofs of `pf`;
     * returns the facts they prove, as the step of `pf` cites them.
     */
    method ProcessPremises(pf: ProofNode, cdp: CdProof) returns (children: seq<Term>)
      requires Translatable(pf, extended)
      modifies cdp
      ensures children == NextResults(pf.children, extended)
      ensures Updated(cdp.steps, pf, extended) == ProcessedFrom(old(cdp.steps), pf, extended, 0)
      decreases pf, 1
    {
      ghost var store := cdp.steps;
      children := [];
      var i := 0;
      while i < |pf.children|
        invariant i <= |pf.children|
        invariant PremisesDone(pf, i, children, cdp.steps, store)
      {
        children := ProcessPremise(pf, i, children, cdp, store);
        i := i + 1;
      }
    }

    /**
     * The first `i` premise proofs of `pf` are translated: `children`
     * holds the facts they prove, and what is left to do from the current
     * store is what was to do from `store0`.
     */
    ghost predicate PremisesDone(pf: ProofNode, i: nat, children: seq<Term>,
                                 steps: map<Term, ProofStep>, steps0: map<Term, ProofStep>)
      requires i <= |pf.children|
    {
      |children| == i && (forall j :: 0 <= j < i ==> children[j] == Next(pf.children[j], extended).result)
      && ProcessedFrom(steps, pf, extended, i) == ProcessedFrom(steps0, pf, extended, 0)
    }

    /** Translates premise proof `i` of `pf`, after looking through what `Skip` skips. */
    method ProcessPremise(pf: ProofNode, i: nat, children0: seq<Term>, cdp: CdProof,
                          ghost store: map<Term, ProofStep>) returns (children: seq<Term>)
      requires Translatable(pf, extended) && i < |pf.children|
      requires PremisesDone(pf, i, children0, cdp.steps, store)
      modifies cdp
      ensures PremisesDone(pf, i + 1, children, cdp.steps, store)
      decreases pf, 0
    {
      var next := Skip(pf.children[i]);
      assert Translatable(next, extended);
      assert ProcessedFrom(cdp.steps, pf, extended, i)
          == ProcessedFrom(ProcessedFrom(cdp.steps, next, extended, 0), pf, extended, i + 1);
      ProcessInternal(next, cdp);
      children := children0 + [next.result];
    }

    /**
     * The premise proof translated in place of `pf`: outside extended
     * mode, SYMM and REORDERING steps are looked through to their first
     * premise.
     */
    method Skip(pf: ProofNode) returns (next: ProofNode)
      ensures next == Next(pf, extended)
    {
      next := pf;
      if !extended && (next.rule == REORDERING || next.rule == SYMM) {
        while (next.rule == SYMM || next.rule == REORDERING) && |next.children| >= 1
          invariant Next(next, extended) == Next(pf, extended)
          decreases next
        {
          next := next.children[0];
        }
      }
    }

    /**
     * `process`: translates the proof into a new store, then, when the
     * root's step concludes `(cl false)`, adds the final callback's steps.
     */
    method Process(pf: ProofNode) returns (cdp: CdProof)
      requires Translatable(pf, extended)
      ensures fresh(cdp)
      ensures cdp.steps == Processed(pf, extended)
    {
      cdp := new CdProof();
      ProcessInternal(pf, cdp);
      var root := RootStep(cdp.steps, pf);
      if EndsInFalse(root.args) && RuleNumber(root.args).Some? {
        FinalUpdate(pf.result, root.children, RuleNumber(root.args).value, cdp);
      }
    }
  }
}
