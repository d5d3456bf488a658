/**
 * What the veriT post-processor's driver does to a whole proof, as pure
 * functions: which premise proof each node is translated against
 * (SYMM and REORDERING premises are looked through outside extended
 * mode), the store after translating a proof bottom-up, and the store
 * after the final callback. Properties of the result are proved here.
 */
module VeritDriver {
  import opened Terms
  import opened ProofRules
  import opened ProofStore
  import opened VeritSteps
  import VR = VeritRules

  /** A rule the driver looks through outside extended mode. */
  predicate Skipped(rule: PfRule)
  {
    rule == SYMM || rule == REORDERING
  }

  /**
   * The proof the driver translates in place of premise proof `pf`:
   * outside extended mode, the first premise of SYMM and REORDERING
   * steps, repeatedly, until a node by another rule (or one without
   * premises) is reached.
   */
  function Next(pf: ProofNode, extended: bool): (r: ProofNode)
    ensures r == pf || r < pf
    ensures r.result == pf.result || !extended
    ensures !extended ==> !Skipped(r.rule) || |r.children| == 0
    ensures extended || !Skipped(pf.rule) ==> r == pf
    decreases pf
  {
    if !extended && Skipped(pf.rule) && |pf.children| >= 1 then Next(pf.children[0], extended) else pf
  }

  /** The facts of the premises as the translation of a step cites them. */
  function NextResults(children: seq<ProofNode>, extended: bool): (r: seq<Term>)
    ensures |r| == |children| && forall i :: 0 <= i < |children| ==> r[i] == Next(children[i], extended).result
  {
    seq(|children|, i requires 0 <= i < |children| => Next(children[i], extended).result)
  }

  /** The callback's `shouldUpdate`: every step not already in veriT form is translated. */
  predicate ShouldUpdate(rule: PfRule)
  {
    rule != VERIT_RULE
  }

  /** Node `pf` has the premises and arguments its translation reads. */
  predicate NodeDefined(pf: ProofNode, extended: bool)
  {
    TranslationDefined(pf.result, pf.rule, NextResults(pf.children, extended), pf.args)
  }

  /**
   * Every step the driver translates has the premises and arguments its
   * translation reads.
   */
  predicate Translatable(pf: ProofNode, extended: bool)
    decreases pf
  {
    (ShouldUpdate(pf.rule) ==> NodeDefined(pf, extended))
    && forall i :: 0 <= i < |pf.children| ==> Translatable(Next(pf.children[i], extended), extended)
  }

  /**
   * `processInternal`: the store after translating the premise proofs
   * `k ..` of `pf`, each in place of its `Next`, then `pf` itself when it
   * is not in veriT form already.
   */
  function ProcessedFrom(store: map<Term, ProofStep>, pf: ProofNode, extended: bool, k: nat): map<Term, ProofStep>
    requires k <= |pf.children|
    decreases pf, |pf.children| - k
  {
    if k == |pf.children| then Updated(store, pf, extended)
    else
      var child := Next(pf.children[k], extended);
      ProcessedFrom(ProcessedFrom(store, child, extended, 0), pf, extended, k + 1)
  }

  /**
   * The store after the callback has handled node `pf` itself, its
   * premises translated already. (A node whose translation would read
   * premises or arguments it does not have is left alone here; the driver
   * is only ever given proofs without such nodes.)
   */
  function Updated(store: map<Term, ProofStep>, pf: ProofNode, extended: bool): map<Term, ProofStep>
  {
    if ShouldUpdate(pf.rule) && NodeDefined(pf, extended) then
      AddedSteps(store, Translation(pf.result, pf.rule, NextResults(pf.children, extended), pf.args, store))
    else store
  }

  /**
   * Handling a node keeps every stored step's fact, stores a step for
   * the node's conclusion when it is translated, and keeps a store of
   * veriT steps one.
   */
  lemma UpdatedFacts(store: map<Term, ProofStep>, pf: ProofNode, extended: bool)
    ensures store.Keys <= Updated(store, pf, extended).Keys
    ensures ShouldUpdate(pf.rule) && NodeDefined(pf, extended)
            ==> pf.result in Updated(store, pf, extended)
    ensures VeritStore(store) ==> VeritStore(Updated(store, pf, extended))
    ensures !ShouldUpdate(pf.rule) ==> Updated(store, pf, extended) == store
  {
    if ShouldUpdate(pf.rule) && NodeDefined(pf, extended) {
      var t := Translation(pf.result, pf.rule, NextResults(pf.children, extended), pf.args, store);
      AddedStepsKeys(store, t);
      assert t[|t| - 1].0 == pf.result;
      if VeritStore(store) {
        AddedVeritSteps(store, t);
      }
    }
  }

  /**
   * Translating never removes a stored step, stores a step for the
   * root's conclusion when the root is translated, and keeps a store of
   * veriT steps one.
   */
  lemma {:induction false} ProcessedKeeps(store: map<Term, ProofStep>, pf: ProofNode, extended: bool, k: nat)
    requires k <= |pf.children|
    ensures store.Keys <= ProcessedFrom(store, pf, extended, k).Keys
    ensures ShouldUpdate(pf.rule) && NodeDefined(pf, extended) ==> pf.result in ProcessedFrom(store, pf, extended, k)
    ensures VeritStore(store) ==> VeritStore(ProcessedFrom(store, pf, extended, k))
    decreases pf, |pf.children| - k
  {
    if k == |pf.children| {
      UpdatedFacts(store, pf, extended);
    } else {
      var child := Next(pf.children[k], extended);
      ProcessedKeeps(store, child, extended, 0);
      ProcessedKeeps(ProcessedFrom(store, child, extended, 0), pf, extended, k + 1);
    }
  }

  /** A proof all of whose translated nodes are already veriT steps. */
  predicate InVeritForm(pf: ProofNode, extended: bool)
    decreases pf
  {
    !ShouldUpdate(pf.rule) && forall i :: 0 <= i < |pf.children| ==> InVeritForm(Next(pf.children[i], extended), extended)
  }

  /** A proof already in veriT form is left as it is: nothing is added to the store. */
  lemma {:induction false} ProcessedVeritFormUnchanged(store: map<Term, ProofStep>, pf: ProofNode, extended: bool, k: nat)
    requires k <= |pf.children| && InVeritForm(pf, extended)
    ensures ProcessedFrom(store, pf, extended, k) == store
    decreases pf, |pf.children| - k
  {
    if k == |pf.children| {
      UpdatedFacts(store, pf, extended);
    } else {
      var child := Next(pf.children[k], extended);
      ProcessedVeritFormUnchanged(store, child, extended, 0);
      ProcessedVeritFormUnchanged(store, pf, extended, k + 1);
    }
  }

  // ------------------------------------------------------------------
  // The final callback

  /**
   * The step the root is proved by once it has been processed: its
   * translation's step for its conclusion, or its own step when it was
   * in veriT form already.
   */
  function RootStep(store: map<Term, ProofStep>, pf: ProofNode): ProofStep
  {
    if ShouldUpdate(pf.rule) && pf.result in store then store[pf.result]
    else ProofStep(pf.rule, Results(pf.children), pf.args)
  }

  /** The veriT rule number a step carries as its first argument, if it is a non-negative constant. */
  function RuleNumber(args: seq<Term>): Option<nat>
  {
    if |args| >= 1 && args[0].RatConst? && args[0].q >= 0 then Some(args[0].q) else None
  }

  /**
   * `process`: the store after translating the whole proof into an empty
   * store and, when the root's step concludes `(cl false)`, the three
   * steps of the final callback.
   */
  function Processed(pf: ProofNode, extended: bool): map<Term, ProofStep>
  {
    var s := ProcessedFrom(map[], pf, extended, 0);
    var root := RootStep(s, pf);
    if EndsInFalse(root.args) && RuleNumber(root.args).Some? then
      Overwritten(s, FinalSteps(pf.result, root.children, RuleNumber(root.args).value))
    else s
  }

  /**
   * When the root's translation ends in `(cl false)`, the processed proof
   * proves the root by a resolution concluding the empty clause; every
   * step stored is a veriT step.
   */
  lemma ProcessedEndsInEmptyClause(pf: ProofNode, extended: bool)
    requires ShouldUpdate(pf.rule) && NodeDefined(pf, extended)
    ensures var s := ProcessedFrom(map[], pf, extended, 0);
      pf.result in s && IsVeritStep(pf.result, s[pf.result])
    ensures var s := ProcessedFrom(map[], pf, extended, 0);
      EndsInFalse(s[pf.result].args) ==>
        var p := Processed(pf, extended);
        pf.result in p && p[pf.result].args == [RatConst(VR.RESOLUTION), pf.result, Cl([])]
        && VeritStore(p)
  {
    var s := ProcessedFrom(map[], pf, extended, 0);
    ProcessedKeeps(map[], pf, extended, 0);
    assert IsVeritStep(pf.result, s[pf.result]);
    if EndsInFalse(s[pf.result].args) {
      var root := RootStep(s, pf);
      var v := RuleNumber(root.args).value;
      FinalConcludesEmpty(s, pf.result, root.children, v);
      FinalKeepsVeritStore(s, FinalSteps(pf.result, root.children, v));
    }
  }

  /** Overwriting a store of veriT steps with veriT steps leaves a store of veriT steps. */
  lemma {:induction false} FinalKeepsVeritStore(store: map<Term, ProofStep>, steps: seq<(Term, ProofStep)>)
    requires VeritStore(store) && WellFormed(steps)
    ensures VeritStore(Overwritten(store, steps))
    decreases |steps|
  {
    if |steps| > 0 {
      FinalKeepsVeritStore(store, steps[..|steps| - 1]);
    }
  }
}
