/**
 * The proof objects the post-processors read and write: proof nodes (a
 * rule, the fact it proves, the proofs of its premises and its arguments)
 * and the step store a post-processing callback adds its steps to.
 */
module ProofStore {
  import opened Terms
  import opened ProofRules

  /** A proof node: the rule, the fact it proves, the proofs of its premises and its arguments. */
  datatype ProofNode = ProofNode(rule: PfRule, result: Term, children: seq<ProofNode>, args: seq<Term>)

  /** The facts the given proofs prove, in order. */
  function Results(pfs: seq<ProofNode>): (r: seq<Term>)
    ensures |r| == |pfs| && forall i :: 0 <= i < |pfs| ==> r[i] == pfs[i].result
  {
    seq(|pfs|, i requires 0 <= i < |pfs| => pfs[i].result)
  }

  /**
   * A store after adding a step for `fact`: an existing step is replaced
   * only when it is an assumption.
   */
  function AddedStep(store: map<Term, ProofStep>, fact: Term, step: ProofStep): map<Term, ProofStep>
  {
    if fact in store && store[fact].rule != ASSUME then store else store[fact := step]
  }

  /**
   * Adding a step for `fact` keeps every other fact's step, keeps a step
   * for `fact` that is not an assumption, and otherwise stores `step`.
   */
  lemma AddedStepFacts(store: map<Term, ProofStep>, fact: Term, step: ProofStep)
    ensures var r := AddedStep(store, fact, step);
      r.Keys == store.Keys + {fact}
      && (forall f :: f in store && f != fact ==> r[f] == store[f])
      && (fact in store && store[fact].rule != ASSUME ==> r[fact] == store[fact])
      && (fact !in store || store[fact].rule == ASSUME ==> r[fact] == step)
  {
  }

  /** A step that is not an assumption is never replaced by later additions. */
  lemma AddedStepKeeps(store: map<Term, ProofStep>, fact: Term, step: ProofStep, f: Term)
    requires f in store && store[f].rule != ASSUME
    ensures AddedStep(store, fact, step)[f] == store[f]
  {
  }

  /** A store after adding the given steps in order. */
  function AddedSteps(store: map<Term, ProofStep>, steps: seq<(Term, ProofStep)>): map<Term, ProofStep>
    decreases |steps|
  {
    if |steps| == 0 then store
    else AddedStep(AddedSteps(store, steps[..|steps| - 1]), steps[|steps| - 1].0, steps[|steps| - 1].1)
  }

  /** Adding steps stores a step for each of their facts and removes none. */
  lemma {:induction false} AddedStepsKeys(store: map<Term, ProofStep>, steps: seq<(Term, ProofStep)>)
    ensures AddedSteps(store, steps).Keys == store.Keys + set i | 0 <= i < |steps| :: steps[i].0
    decreases |steps|
  {
    if |steps| > 0 {
      var init := steps[..|steps| - 1];
      AddedStepsKeys(store, init);
      assert forall i :: 0 <= i < |steps| - 1 ==> init[i] == steps[i];
      assert (set i | 0 <= i < |steps| :: steps[i].0) == (set i | 0 <= i < |init| :: init[i].0) + {steps[|steps| - 1].0};
    }
  }

  lemma AddedStepsSnoc(store: map<Term, ProofStep>, steps: seq<(Term, ProofStep)>, s: (Term, ProofStep))
    ensures AddedSteps(store, steps + [s]) == AddedStep(AddedSteps(store, steps), s.0, s.1)
  {
    assert (steps + [s])[..|steps|] == steps;
  }

  /** Adding a single step is adding it to the store. */
  lemma AddedStepsSingle(store: map<Term, ProofStep>, s: (Term, ProofStep))
    ensures AddedSteps(store, [s]) == AddedStep(store, s.0, s.1)
  {
    assert [s][..0] == [];
  }

  /** Adding `a` and then `b` is adding `a + b`. */
  lemma {:induction false} AddedStepsAppend(store: map<Term, ProofStep>, a: seq<(Term, ProofStep)>, b: seq<(Term, ProofStep)>)
    ensures AddedSteps(store, a + b) == AddedSteps(AddedSteps(store, a), b)
    decreases |b|
  {
    if |b| == 0 {
      assert a + b == a;
    } else {
      var b' := b[..|b| - 1];
      assert a + b == (a + b') + [b[|b| - 1]];
      assert b == b' + [b[|b| - 1]];
      AddedStepsSnoc(store, a + b', b[|b| - 1]);
      AddedStepsSnoc(AddedSteps(store, a), b', b[|b| - 1]);
      AddedStepsAppend(store, a, b');
    }
  }

  /** Adding three steps one after another is adding them as a sequence. */
  lemma AddedStepsThree(store: map<Term, ProofStep>, steps: seq<(Term, ProofStep)>)
    requires |steps| == 3
    ensures AddedSteps(store, steps)
         == AddedStep(AddedStep(AddedStep(store, steps[0].0, steps[0].1), steps[1].0, steps[1].1), steps[2].0, steps[2].1)
  {
    var s1, s2 := steps[..1], steps[..2];
    assert s2[..1] == s1 && s1[..0] == [];
    assert AddedSteps(store, s1) == AddedStep(store, steps[0].0, steps[0].1);
    assert AddedSteps(store, s2) == AddedStep(AddedSteps(store, s1), steps[1].0, steps[1].1);
  }

  /** Adding four steps one after another is adding them as a sequence. */
  lemma AddedStepsFour(store: map<Term, ProofStep>, steps: seq<(Term, ProofStep)>)
    requires |steps| == 4
    ensures AddedSteps(store, steps)
         == AddedStep(AddedStep(AddedStep(AddedStep(store, steps[0].0, steps[0].1), steps[1].0, steps[1].1),
                                steps[2].0, steps[2].1), steps[3].0, steps[3].1)
  {
    AddedStepsThree(store, steps[..3]);
    assert steps[..4][..3] == steps[..3] && steps[..4] == steps;
  }

  /** Adding five groups of steps one group after another is adding them all. */
  lemma AddedStepsGroups(store: map<Term, ProofStep>, a: seq<(Term, ProofStep)>, b: seq<(Term, ProofStep)>,
                         c: seq<(Term, ProofStep)>, d: seq<(Term, ProofStep)>, e: seq<(Term, ProofStep)>)
    ensures AddedSteps(store, a + (b + (c + (d + e))))
         == AddedSteps(AddedSteps(AddedSteps(AddedSteps(AddedSteps(store, a), b), c), d), e)
  {
    AddedStepsAppend(store, a, b + (c + (d + e)));
    AddedStepsAppend(AddedSteps(store, a), b, c + (d + e));
    AddedStepsAppend(AddedSteps(AddedSteps(store, a), b), c, d + e);
    AddedStepsAppend(AddedSteps(AddedSteps(AddedSteps(store, a), b), c), d, e);
  }

  /** A fact none of the added steps is for keeps its step, or its absence. */
  lemma {:induction false} AddedStepsOther(store: map<Term, ProofStep>, steps: seq<(Term, ProofStep)>, t: Term)
    requires forall i :: 0 <= i < |steps| ==> steps[i].0 != t
    ensures t in AddedSteps(store, steps) <==> t in store
    ensures t in store ==> AddedSteps(store, steps)[t] == store[t]
    decreases |steps|
  {
    if |steps| > 0 {
      AddedStepsOther(store, steps[..|steps| - 1], t);
    }
  }

  /**
   * `getProofFor(fact)->getRule()`: the rule of the step stored for
   * `fact`; a fact without a step is proved by assuming it.
   */
  function ProofRuleFor(store: map<Term, ProofStep>, fact: Term): (r: PfRule)
    ensures fact !in store ==> r == ASSUME
  {
    if fact in store then store[fact].rule else ASSUME
  }

  /**
   * The step store of a proof under construction. A callback reads the
   * proofs of the premises from the proof nodes it is given and adds its
   * steps here.
   */
  class CdProof {
    var steps: map<Term, ProofStep>

    constructor ()
      ensures steps == map[]
    {
      steps := map[];
    }

    /** `addStep`: stores a step for `fact` under the overwrite policy of `AddedStep`. */
    method AddStep(fact: Term, rule: PfRule, children: seq<Term>, args: seq<Term>)
      modifies this
      ensures steps == AddedStep(old(steps), fact, ProofStep(rule, children, args))
    {
      if !(fact in steps && steps[fact].rule != ASSUME) {
        steps := steps[fact := ProofStep(rule, children, args)];
      }
    }

    /** `addStep` with the ALWAYS overwrite policy: the step replaces whatever was stored. */
    method OverwriteStep(fact: Term, rule: PfRule, children: seq<Term>, args: seq<Term>)
      modifies this
      ensures steps == old(steps)[fact := ProofStep(rule, children, args)]
    {
      steps := steps[fact := ProofStep(rule, children, args)];
    }

    /** `addProof`: stores the top step of a proof node under its result. */
    method AddProof(pn: ProofNode)
      modifies this
      ensures steps == AddedStep(old(steps), pn.result, ProofStep(pn.rule, Results(pn.children), pn.args))
    {
      AddStep(pn.result, pn.rule, Results(pn.children), pn.args);
    }
  }
}
