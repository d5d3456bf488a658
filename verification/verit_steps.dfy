/**
 * The steps the veriT translation adds for each internal rule, as pure
 * functions of the step's conclusion, premises, arguments and the store
 * it reads. Every translated step is stored under VERIT_RULE with
 * arguments `[rule, res, conclusion, args...]`: the numeric veriT rule,
 * the fact the step is stored for and the clause it concludes, written
 * `(cl l1 ... ln)`.
 */
module VeritSteps {
  import opened Terms
  import opened ProofRules
  import opened ProofStore
  import opened Resolution
  import VR = VeritRules

  // ------------------------------------------------------------------
  // Steps and their shape

  /** The step `addVeritStep` stores for `res`. */
  function VeritStep(res: Term, rule: VR.VeritRule, conclusion: Term, children: seq<Term>, args: seq<Term>): (s: ProofStep)
    ensures s.rule == VERIT_RULE && s.children == children && |s.args| == |args| + 3
    ensures s.args[0] == RatConst(rule) && s.args[1] == res && s.args[2] == conclusion && s.args[3..] == args
  {
    ProofStep(VERIT_RULE, children, [RatConst(rule), res, conclusion] + args)
  }

  /** A step for a clause node that concludes that clause itself. */
  function Self(c: Term, rule: VR.VeritRule, children: seq<Term>, args: seq<Term>): (r: (Term, ProofStep))
    ensures r.0 == c && IsVeritStep(c, r.1) && r.1.args[2] == c
    ensures IsClause(c) ==> ConcludesClause(r.1)
  {
    (c, VeritStep(c, rule, c, children, args))
  }

  /** `addVeritStepFromOr`'s conclusion: `(cl F1 ... Fn)` for `res = (or F1 ... Fn)`. */
  function ClauseOfOr(res: Term): (c: Term)
    ensures ClLits(c) == Children(res)
  {
    Cl(Children(res))
  }

  /** A node of the form `(cl l1 ... ln)`. */
  predicate IsClause(t: Term)
  {
    t.App? && t.op == SEXPR && |t.args| >= 1 && t.args[0] == ClSymbol
  }

  /** A well-formed veriT step stored for `key`: tagged VERIT_RULE, with a rule number and `key` as arguments. */
  predicate IsVeritStep(key: Term, s: ProofStep)
  {
    s.rule == VERIT_RULE && |s.args| >= 3 && s.args[0].RatConst? && s.args[0].q >= 0 && s.args[1] == key
  }

  /** A step whose conclusion argument is a clause. */
  predicate ConcludesClause(s: ProofStep)
  {
    |s.args| >= 3 && IsClause(s.args[2])
  }

  /** Steps that are all well-formed veriT steps. */
  predicate WellFormed(steps: seq<(Term, ProofStep)>)
  {
    forall i :: 0 <= i < |steps| ==> IsVeritStep(steps[i].0, steps[i].1)
  }

  /** A translation of `res`: well-formed veriT steps, the last one stored for `res`. */
  predicate Translates(steps: seq<(Term, ProofStep)>, res: Term)
  {
    |steps| > 0 && steps[|steps| - 1].0 == res && WellFormed(steps)
  }

  /** Every step concludes a clause. */
  predicate Clausal(steps: seq<(Term, ProofStep)>)
  {
    forall i :: 0 <= i < |steps| ==> ConcludesClause(steps[i].1)
  }

  /** Steps for the clauses `(cl l1 ... ln)` of each `lits[i]`, each concluding its own clause. */
  function Selves(lits: seq<seq<Term>>, rules: seq<VR.VeritRule>, children: seq<seq<Term>>): (r: seq<(Term, ProofStep)>)
    requires |rules| == |lits| && |children| == |lits|
    ensures |r| == |lits| && WellFormed(r) && Clausal(r)
    ensures forall i :: 0 <= i < |lits| ==> r[i] == Self(Cl(lits[i]), rules[i], children[i], [])
  {
    seq(|lits|, i requires 0 <= i < |lits| => Self(Cl(lits[i]), rules[i], children[i], []))
  }

  /** Both shapes survive concatenation. */
  lemma ShapeAppend(a: seq<(Term, ProofStep)>, b: seq<(Term, ProofStep)>)
    ensures WellFormed(a) && WellFormed(b) ==> WellFormed(a + b)
    ensures Clausal(a) && Clausal(b) ==> Clausal(a + b)
  {
  }

  /** Well-formed steps put before a translation of `res` still translate `res`. */
  lemma TranslatesPrepend(a: seq<(Term, ProofStep)>, b: seq<(Term, ProofStep)>, res: Term)
    requires WellFormed(a) && Translates(b, res)
    ensures Translates(a + b, res)
    ensures Clausal(a) && Clausal(b) ==> Clausal(a + b)
  {
    ShapeAppend(a, b);
  }

  /** Four groups of well-formed clause steps put before a translation of `res` still translate `res`. */
  lemma TranslatesGroups(a: seq<(Term, ProofStep)>, b: seq<(Term, ProofStep)>, c: seq<(Term, ProofStep)>,
                         d: seq<(Term, ProofStep)>, e: seq<(Term, ProofStep)>, res: Term)
    requires WellFormed(a) && WellFormed(b) && WellFormed(c) && WellFormed(d) && Translates(e, res)
    requires Clausal(a) && Clausal(b) && Clausal(c) && Clausal(d) && Clausal(e)
    ensures Translates(a + (b + (c + (d + e))), res) && Clausal(a + (b + (c + (d + e))))
  {
    TranslatesPrepend(d, e, res);
    TranslatesPrepend(c, d + e, res);
    TranslatesPrepend(b, c + (d + e), res);
    TranslatesPrepend(a, b + (c + (d + e)), res);
  }

  /** A store all of whose steps are well-formed veriT steps. */
  predicate VeritStore(store: map<Term, ProofStep>)
  {
    forall t :: t in store ==> IsVeritStep(t, store[t])
  }

  /** Adding well-formed veriT steps to a veriT store gives a veriT store. */
  lemma {:induction false} AddedVeritSteps(store: map<Term, ProofStep>, steps: seq<(Term, ProofStep)>)
    requires VeritStore(store)
    requires WellFormed(steps)
    ensures VeritStore(AddedSteps(store, steps))
    decreases |steps|
  {
    if |steps| > 0 {
      AddedVeritSteps(store, steps[..|steps| - 1]);
    }
  }

  // ------------------------------------------------------------------
  // isSameModEqual

  /**
   * `isSameModEqual` as written: nodes of different kinds differ, equal
   * nodes agree, `=` nodes agree with their sides in either order, and
   * any other nodes agree when their children agree pairwise. Two leaves
   * of the same kind have no children to compare, so they agree even when
   * they are different leaves.
   */
  function IsSameModEqualAsWritten(a: Term, b: Term): bool
    decreases a
  {
    if KindOf(a) != KindOf(b) then false
    else if a == b then true
    else if a.App? && b.App? && a.op == EQUAL && |a.args| == 2 && |b.args| == 2 then
      (IsSameModEqualAsWritten(a.args[0], b.args[1]) && IsSameModEqualAsWritten(a.args[1], b.args[0]))
      || (IsSameModEqualAsWritten(a.args[0], b.args[0]) && IsSameModEqualAsWritten(a.args[1], b.args[1]))
    else if !a.App? then |Children(b)| == 0
    else if !b.App? then |a.args| == 0
    else |a.args| == |b.args| && forall i :: 0 <= i < |a.args| ==> IsSameModEqualAsWritten(a.args[i], b.args[i])
  }

  /** Two different variables count as the same. */
  lemma SameModEqualLeaves()
    ensures Var(0) != Var(1) && IsSameModEqualAsWritten(Var(0), Var(1))
  {
  }

  /**
   * `isSameModEqual` as intended: structural equality in which the two
   * sides of every `=` may be swapped. Different leaves differ.
   */
  function IsSameModEqual(a: Term, b: Term): bool
    decreases a
  {
    if KindOf(a) != KindOf(b) then false
    else if a == b then true
    else if a.App? && b.App? && a.op == EQUAL && |a.args| == 2 && |b.args| == 2 then
      (IsSameModEqual(a.args[0], b.args[1]) && IsSameModEqual(a.args[1], b.args[0]))
      || (IsSameModEqual(a.args[0], b.args[0]) && IsSameModEqual(a.args[1], b.args[1]))
    else if !a.App? || !b.App? || |a.args| == 0 then false
    else |a.args| == |b.args| && forall i :: 0 <= i < |a.args| ==> IsSameModEqual(a.args[i], b.args[i])
  }

  /** A node without `=` nodes in it. */
  predicate NoEqual(t: Term)
    decreases t
  {
    t.App? ==> t.op != EQUAL && forall i :: 0 <= i < |t.args| ==> NoEqual(t.args[i])
  }

  /** Without `=` nodes, being the same modulo `=` is plain equality. */
  lemma {:induction false} SameModEqualIsEquality(a: Term, b: Term)
    requires NoEqual(a)
    ensures IsSameModEqual(a, b) <==> a == b
    decreases a
  {
    if IsSameModEqual(a, b) && a != b {
      forall i | 0 <= i < |a.args|
        ensures a.args[i] == b.args[i]
      {
        SameModEqualIsEquality(a.args[i], b.args[i]);
      }
    }
  }

  /** Being the same modulo `=` is symmetric. */
  lemma {:induction false} SameModEqualSymmetric(a: Term, b: Term)
    ensures IsSameModEqual(a, b) == IsSameModEqual(b, a)
    decreases a
  {
    if KindOf(a) == KindOf(b) && a != b && a.App? && b.App? {
      if a.op == EQUAL && |a.args| == 2 && |b.args| == 2 {
        SameModEqualSymmetric(a.args[0], b.args[1]);
        SameModEqualSymmetric(a.args[1], b.args[0]);
        SameModEqualSymmetric(a.args[0], b.args[0]);
        SameModEqualSymmetric(a.args[1], b.args[1]);
      } else if |a.args| == |b.args| {
        forall i | 0 <= i < |a.args|
          ensures IsSameModEqual(a.args[i], b.args[i]) == IsSameModEqual(b.args[i], a.args[i])
        {
          SameModEqualSymmetric(a.args[i], b.args[i]);
        }
      }
    }
  }

  /** An equality is the same as its mirror image. */
  lemma SameModEqualSwapped(x: Term, y: Term)
    ensures IsSameModEqual(App(EQUAL, [x, y]), App(EQUAL, [y, x]))
  {
    assert IsSameModEqual(x, x) && IsSameModEqual(y, y);
  }

  /** An OR premise is never the same as a negation, so RESOLUTION's test only looks at the kind. */
  lemma OrNeverSameAsNegation(c: Term, other: Term)
    requires KindOf(c) == OR
    ensures !IsSameModEqual(c, Not(other)) && !IsSameModEqualAsWritten(c, Not(other))
  {
  }

  // ------------------------------------------------------------------
  // SCOPE

  /** The conjunction of the assumptions: the assumption itself when there is one. */
  function Conjunction(args: seq<Term>): (c: Term)
    ensures |args| == 1 ==> c == args[0]
    ensures |args| != 1 ==> KindOf(c) == AND && Children(c) == args
  {
    if |args| == 1 then args[0] else App(AND, args)
  }

  /** `n` copies of `t`. */
  function Repeat(t: Term, n: nat): (r: seq<Term>)
    ensures |r| == n && forall i :: 0 <= i < n ==> r[i] == t
  {
    seq(n, _ => t)
  }

  /** The `and_pos` clause for the `i`-th assumption: `(cl (not (and F1 ... Fn)) Fi)`. */
  function AndPosClause(conj: Term, f: Term): Term
  {
    Cl([Not(conj), f])
  }

  /** The `and_pos` steps, one per assumption. */
  function AndPosSteps(conj: Term, fs: seq<Term>): (r: seq<(Term, ProofStep)>)
    ensures |r| == |fs| && WellFormed(r) && Clausal(r)
    ensures forall i :: 0 <= i < |fs| ==> r[i] == Self(AndPosClause(conj, fs[i]), VR.AND_POS, [], [])
    decreases |fs|
  {
    if |fs| == 0 then []
    else
      var init := AndPosSteps(conj, fs[..|fs| - 1]);
      var last := Self(AndPosClause(conj, fs[|fs| - 1]), VR.AND_POS, [], []);
      assert ConcludesClause(last.1);
      ShapeAppend(init, [last]);
      init + [last]
  }

  /** The `and_pos` clauses, in order. */
  function AndPosClauses(conj: Term, fs: seq<Term>): (r: seq<Term>)
    ensures |r| == |fs| && forall i :: 0 <= i < |fs| ==> r[i] == AndPosClause(conj, fs[i])
  {
    seq(|fs|, i requires 0 <= i < |fs| => AndPosClause(conj, fs[i]))
  }

  /** The implication `(=> (and F1 ... Fn) F)` SCOPE proves. */
  function ScopeImplication(conj: Term, f: Term): Term
  {
    App(IMPLIES, [conj, f])
  }

  /**
   * The three steps that resolve the anchor against the `and_pos` clauses
   * and collapse the negated assumptions to `(cl (not A) F)`, for the
   * conjunction `A` and the body `F`.
   */
  function ScopeCollapse(vp1: Term, conj: Term, f: Term, fs: seq<Term>): (r: seq<(Term, ProofStep)>)
    ensures |r| == 3 && WellFormed(r) && Clausal(r)
    ensures r[2].0 == Cl([Not(conj), f])
  {
    var n := |fs|;
    var vp2a := Cl([f] + Repeat(Not(conj), n));
    var vp2b := Cl(Repeat(Not(conj), n) + [f]);
    var vp3 := Cl([Not(conj), f]);
    Selves([[f] + Repeat(Not(conj), n), Repeat(Not(conj), n) + [f], [Not(conj), f]],
           [VR.RESOLUTION, VR.REORDER, VR.DUPLICATED_LITERALS],
           [[vp1] + AndPosClauses(conj, fs), [vp2a], [vp2b]])
  }

  /**
   * The four steps from `(cl (not A) F)` to `(cl (=> A F) (=> A F))`, by
   * `implies_neg1`, `implies_neg2` and two resolutions.
   */
  function ScopeImplies(conj: Term, f: Term): (r: seq<(Term, ProofStep)>)
    ensures |r| == 4 && WellFormed(r) && Clausal(r)
    ensures r[3].0 == Cl([ScopeImplication(conj, f), ScopeImplication(conj, f)])
  {
    var vp3 := Cl([Not(conj), f]);
    var imp := ScopeImplication(conj, f);
    var vp4 := Cl([imp, conj]);
    var vp5 := Cl([imp, f]);
    var vp6 := Cl([imp, Not(f)]);
    Selves([[imp, conj], [imp, f], [imp, Not(f)], [imp, imp]],
           [VR.IMPLIES_NEG1, VR.RESOLUTION, VR.IMPLIES_NEG2, VR.RESOLUTION],
           [[], [vp4, vp3], [], [vp5, vp6]])
  }

  /**
   * The last steps of SCOPE: one `duplicated_literals` step for `res` when
   * the body is not `false`; otherwise four steps ending in a resolution
   * that concludes `(cl (not (and F1 ... Fn)))`.
   */
  function ScopeTail(res: Term, conj: Term, f: Term): (r: seq<(Term, ProofStep)>)
    ensures |r| == (if f == False then 4 else 1)
    ensures Translates(r, res) && Clausal(r)
  {
    var imp := ScopeImplication(conj, f);
    var vp7 := Cl([imp, imp]);
    var vp8 := Cl([imp]);
    if f != False then
      [(res, VeritStep(res, VR.DUPLICATED_LITERALS, vp8, [vp7], []))]
    else
      var vp9 := Cl([App(EQUAL, [imp, Not(conj)])]);
      var vp10 := Cl([Not(imp), Not(conj)]);
      var init := Selves([[imp], [App(EQUAL, [imp, Not(conj)])], [Not(imp), Not(conj)]],
                         [VR.DUPLICATED_LITERALS, VR.IMPLIES_SIMPLIFY, VR.EQUIV1], [[vp7], [], [vp9]]);
      Concluding(init, res, VR.RESOLUTION, Cl([res]), [vp8, vp10])
  }

  /** The anchor clause `(cl (not F1) ... (not Fn) F)`. */
  function AnchorClause(args: seq<Term>, f: Term): Term
  {
    Cl(NegateAll(args) + [f])
  }

  /** The anchor of the subproof, the first step of SCOPE. */
  function ScopeAnchor(children: seq<Term>, args: seq<Term>): (r: seq<(Term, ProofStep)>)
    requires |children| >= 1
    ensures |r| == 1 && WellFormed(r) && Clausal(r)
    ensures r[0] == Self(AnchorClause(args, children[0]), VR.ANCHOR_SUBPROOF, children, args)
  {
    var s := Self(AnchorClause(args, children[0]), VR.ANCHOR_SUBPROOF, children, args);
    assert ConcludesClause(s.1);
    [s]
  }

  /**
   * SCOPE with body proof `F` and assumptions `F1 ... Fn`: the anchor,
   * one `and_pos` step per assumption, three steps to `(cl (not A) F)`,
   * four to `(cl (=> A F) (=> A F))`, then the tail.
   */
  function ScopeSteps(res: Term, children: seq<Term>, args: seq<Term>): (r: seq<(Term, ProofStep)>)
    requires |children| >= 1
    ensures Translates(r, res) && Clausal(r)
  {
    var f := children[0];
    var conj := Conjunction(args);
    var vp1 := AnchorClause(args, f);
    var anchor, pos, col, imp, tail := ScopeAnchor(children, args), AndPosSteps(conj, args),
      ScopeCollapse(vp1, conj, f, args), ScopeImplies(conj, f), ScopeTail(res, conj, f);
    TranslatesGroups(anchor, pos, col, imp, tail, res);
    anchor + (pos + (col + (imp + tail)))
  }

  /** The groups of steps SCOPE adds, in order. */
  lemma ScopeStepsGroups(res: Term, children: seq<Term>, args: seq<Term>)
    requires |children| >= 1
    ensures var f, conj := children[0], Conjunction(args);
      ScopeSteps(res, children, args)
      == ScopeAnchor(children, args) + (AndPosSteps(conj, args) + (ScopeCollapse(AnchorClause(args, f), conj, f, args)
         + (ScopeImplies(conj, f) + ScopeTail(res, conj, f))))
  {
  }

  /**
   * SCOPE adds n + 9 steps in all when the body is not `false`, n + 12 when
   * it is, starting with the anchor of the subproof and ending in a step
   * for the SCOPE result.
   */
  lemma ScopeStepCount(res: Term, children: seq<Term>, args: seq<Term>)
    requires |children| >= 1
    ensures var r := ScopeSteps(res, children, args);
      |r| == |args| + (if children[0] == False then 12 else 9)
      && r[0] == Self(AnchorClause(args, children[0]), VR.ANCHOR_SUBPROOF, children, args)
      && r[|r| - 1].0 == res
  {
  }

  // ------------------------------------------------------------------
  // RESOLUTION (binary)

  /** The veriT rule stored as the first argument of the step for `fact`, if there is such a step. */
  function StoredRule(store: map<Term, ProofStep>, fact: Term): Option<nat>
  {
    if fact in store && |store[fact].args| >= 1 && store[fact].args[0].RatConst? && store[fact].args[0].q >= 0
    then Some(store[fact].args[0].q) else None
  }

  /** A premise proved by a veriT assumption or EQ_RESOLUTION step, whose OR conclusion may stand for a clause. */
  predicate ProvedAsInput(store: map<Term, ProofStep>, fact: Term)
  {
    StoredRule(store, fact) == Some(VR.ASSUME) || StoredRule(store, fact) == Some(VR.EQ_RESOLUTION)
  }

  /** Whether the premise `c` of a binary resolution against `other` gets an extra `or` step. */
  predicate NeedsOrStep(store: map<Term, ProofStep>, c: Term, other: Term)
  {
    ProvedAsInput(store, c) && KindOf(c) == OR && !IsSameModEqual(c, Not(other))
  }

  /** The literals premise `c` contributes to the resolvent. */
  function ResolutionPremiseLits(store: map<Term, ProofStep>, c: Term, other: Term): (r: seq<Term>)
    ensures KindOf(c) == OR ==> r == Children(c)
    ensures KindOf(c) != OR ==> r == [c]
  {
    if ProvedAsInput(store, c) then
      if KindOf(c) == OR && !IsSameModEqual(c, Not(other)) then Children(c) else [c]
    else if KindOf(c) == OR then Children(c) else [c]
  }

  /** The premise as the resolution step cites it: `(cl C)` after an extra `or` step, else `C`. */
  function ResolutionPremise(store: map<Term, ProofStep>, c: Term, other: Term): Term
  {
    if NeedsOrStep(store, c, other) then Cl([c]) else c
  }

  /** The literals left once the first pivot and the first negated pivot are erased. */
  function ResolutionLeft(lits: seq<Term>, pivot: Term): seq<Term>
  {
    RemoveFirst(RemoveFirst(lits, pivot), Not(pivot))
  }

  /**
   * The clause a resolution step concludes: the literals of `res` when
   * `res` stands for a clause of several literals, `(cl)` for `false`,
   * and `(cl res)` when `res` is a single literal.
   */
  function ConclusionClause(res: Term, singleton: bool): (c: Term)
    ensures IsClause(c)
  {
    if !singleton then ClauseOfOr(res)
    else if res == False then Cl([])
    else Cl([res])
  }

  /**
   * Reading `res` as a single literal exactly when it is not an OR or one
   * literal is left makes the concluded clause the resolvent itself (a
   * resolvent that is just the literal `false` is concluded as `(cl)`).
   */
  lemma ConclusionClauseIsResolvent(res: Term, lits: seq<Term>, singleton: bool)
    requires res == ClauseToNode(lits)
    requires singleton <==> KindOf(res) != OR || |lits| == 1
    ensures lits != [False] ==> ConclusionClause(res, singleton) == Cl(lits)
    ensures lits == [False] ==> ConclusionClause(res, singleton) == Cl([])
  {
    if |lits| >= 2 {
      assert Children(res) == lits;
    }
  }

  /** The extra `or` step for a premise read as a clause. */
  function OrStep(c: Term): (r: (Term, ProofStep))
    ensures r.0 == c && IsVeritStep(c, r.1) && ConcludesClause(r.1)
  {
    (c, VeritStep(c, VR.OR, ClauseOfOr(c), [c], []))
  }

  /** The `or` step for premise `c` when `needs` holds, else nothing. */
  function OrStepIf(needs: bool, c: Term): (r: seq<(Term, ProofStep)>)
    ensures |r| <= 1 && WellFormed(r) && Clausal(r)
  {
    if needs then [OrStep(c)] else []
  }

  /** The `or` step premise `c` needs, if any. */
  function OrSteps(store: map<Term, ProofStep>, c: Term, other: Term): (r: seq<(Term, ProofStep)>)
    ensures |r| <= 1 && WellFormed(r) && Clausal(r)
  {
    OrStepIf(NeedsOrStep(store, c, other), c)
  }

  /** The `or` steps of both premises of a binary resolution, decided on the same store. */
  function ResolutionOrSteps(store: map<Term, ProofStep>, c0: Term, c1: Term): (r: seq<(Term, ProofStep)>)
    ensures |r| <= 2 && WellFormed(r) && Clausal(r)
  {
    var or0, or1 := OrSteps(store, c0, c1), OrSteps(store, c1, c0);
    ShapeAppend(or0, or1);
    or0 + or1
  }

  /** RESOLUTION with premises `C1`, `C2` and arguments `(id, L)`. */
  function ResolutionSteps(res: Term, children: seq<Term>, args: seq<Term>, store: map<Term, ProofStep>): (r: seq<(Term, ProofStep)>)
    requires |children| >= 2 && |args| >= 2
    ensures Translates(r, res) && Clausal(r)
    ensures 1 <= |r| <= 3 && r[|r| - 1] == ResolutionStep(res, children, args, store)
  {
    var c0, c1 := children[0], children[1];
    var left := ResolutionLeft(ResolutionPremiseLits(store, c0, c1) + ResolutionPremiseLits(store, c1, c0), args[1]);
    Concluding(ResolutionOrSteps(store, c0, c1), res, VR.RESOLUTION, ConclusionClause(res, KindOf(res) != OR || |left| == 1),
               [ResolutionPremise(store, c0, c1), ResolutionPremise(store, c1, c0)])
  }

  /**
   * RESOLUTION's resolution step: the premises as cited, concluding the
   * literals left once the pivot and its negation are erased.
   */
  function ResolutionStep(res: Term, children: seq<Term>, args: seq<Term>, store: map<Term, ProofStep>): (r: (Term, ProofStep))
    requires |children| >= 2 && |args| >= 2
    ensures r.0 == res && IsVeritStep(res, r.1) && ConcludesClause(r.1)
  {
    var c0, c1 := children[0], children[1];
    var lits := ResolutionPremiseLits(store, c0, c1) + ResolutionPremiseLits(store, c1, c0);
    var left := ResolutionLeft(lits, args[1]);
    Final(res, VR.RESOLUTION, ConclusionClause(res, KindOf(res) != OR || |left| == 1),
          [ResolutionPremise(store, c0, c1), ResolutionPremise(store, c1, c0)])
  }

  /**
   * Erasing the first pivot and then the first negated pivot from the
   * joined literals leaves the binary resolvent, up to order, when the
   * pivot occurs on the side its polarity names and its negation on the
   * other side.
   */
  lemma ResolutionLeftIsResolve(l1: seq<Term>, l2: seq<Term>, pol: bool, pivot: Term)
    requires pol ==> pivot in l1 && Not(pivot) in l2
    requires !pol ==> Not(pivot) in l1 && pivot in l2
    ensures multiset(ResolutionLeft(l1 + l2, pivot)) == multiset(Resolve(l1, l2, pol, pivot))
    ensures |ResolutionLeft(l1 + l2, pivot)| == |Resolve(l1, l2, pol, pivot)|
  {
    var p, np := pivot, Not(pivot);
    RemoveFirstMultiset(l1 + l2, p);
    RemoveFirstMultiset(RemoveFirst(l1 + l2, p), np);
    assert multiset(l1 + l2) == multiset(l1) + multiset(l2);
    if pol {
      RemoveFirstMultiset(l1, p);
      RemoveFirstMultiset(l2, np);
      RemoveOneEach(multiset(l1), multiset(l2), p, np);
    } else {
      RemoveFirstMultiset(l1, np);
      RemoveFirstMultiset(l2, p);
      RemoveOneEach(multiset(l1), multiset(l2), np, p);
    }
    assert |ResolutionLeft(l1 + l2, pivot)| == |multiset(ResolutionLeft(l1 + l2, pivot))|;
    assert |Resolve(l1, l2, pol, pivot)| == |multiset(Resolve(l1, l2, pol, pivot))|;
  }

  /** Taking one `x` out of `a` and one `y` out of `b`, in either order. */
  lemma RemoveOneEach(a: multiset<Term>, b: multiset<Term>, x: Term, y: Term)
    requires x in a && y in b
    ensures ((a + b) - multiset{x}) - multiset{y} == (a - multiset{x}) + (b - multiset{y})
    ensures ((a + b) - multiset{y}) - multiset{x} == (a - multiset{x}) + (b - multiset{y})
  {
    assert (a + b) - multiset{x} == (a - multiset{x}) + b;
    assert (a + b) - multiset{y} == a + (b - multiset{y});
  }

  /**
   * When the pivots occur as the polarity says and `res` is the node of
   * the binary resolvent `R` of the two premises' literals, the resolution
   * step concludes `(cl R)`.
   */
  lemma ResolutionConcludesResolvent(res: Term, children: seq<Term>, args: seq<Term>, store: map<Term, ProofStep>)
    requires |children| >= 2 && |args| >= 2
    requires var l1, l2 := ResolutionPremiseLits(store, children[0], children[1]), ResolutionPremiseLits(store, children[1], children[0]);
      (args[0] == True ==> args[1] in l1 && Not(args[1]) in l2)
      && (args[0] != True ==> Not(args[1]) in l1 && args[1] in l2)
    requires var l1, l2 := ResolutionPremiseLits(store, children[0], children[1]), ResolutionPremiseLits(store, children[1], children[0]);
      var R := Resolve(l1, l2, args[0] == True, args[1]);
      res == ClauseToNode(R) && R != [False]
    ensures var l1, l2 := ResolutionPremiseLits(store, children[0], children[1]), ResolutionPremiseLits(store, children[1], children[0]);
      ResolutionStep(res, children, args, store).1.args[2] == Cl(Resolve(l1, l2, args[0] == True, args[1]))
  {
    var l1, l2 := ResolutionPremiseLits(store, children[0], children[1]), ResolutionPremiseLits(store, children[1], children[0]);
    var R := Resolve(l1, l2, args[0] == True, args[1]);
    ResolutionLeftIsResolve(l1, l2, args[0] == True, args[1]);
    var left := ResolutionLeft(l1 + l2, args[1]);
    ConclusionClauseIsResolvent(res, R, KindOf(res) != OR || |left| == 1);
  }

  // ------------------------------------------------------------------
  // CHAIN_RESOLUTION

  /**
   * Premise `k` of a chain gets an extra `or` step: it is read as a clause
   * and the proof the store gives for it is an assumption or EQ_RESOLVE.
   */
  predicate ChainNeedsOr(children: seq<Term>, args: seq<Term>, store: map<Term, ProofStep>, k: nat)
    requires WellFormedChain(children, args) && k < |children|
  {
    ReadAsClause(children, args, k)
    && (ProofRuleFor(store, children[k]) == ProofRules.ASSUME || ProofRuleFor(store, children[k]) == EQ_RESOLVE)
  }

  /**
   * In a store of translated steps every stored proof is a VERIT_RULE
   * step, so only a premise without a step gets an `or` step.
   */
  lemma ChainOrOnlyForMissing(children: seq<Term>, args: seq<Term>, store: map<Term, ProofStep>, k: nat)
    requires WellFormedChain(children, args) && k < |children| && VeritStore(store)
    ensures ChainNeedsOr(children, args, store, k) <==> ReadAsClause(children, args, k) && children[k] !in store
  {
    if children[k] in store {
      assert IsVeritStep(children[k], store[children[k]]);
    }
  }

  /**
   * The `or` step for premise `k`, stored for the clause of its literals,
   * with premise `k` as its premise.
   */
  function ChainOrStep(children: seq<Term>, k: nat): (r: (Term, ProofStep))
    requires k < |children|
    ensures r.0 == ClauseOfOr(children[k]) && IsVeritStep(r.0, r.1) && ConcludesClause(r.1)
    ensures r.1.children == [children[k]] && ClLits(r.1.args[2]) == Children(r.1.children[0])
  {
    var c := ClauseOfOr(children[k]);
    Self(c, VR.OR, [children[k]], [])
  }

  /** The `or` step for premise `i` as written: its premise is always the first premise. */
  function ChainOrStepAsWritten(children: seq<Term>, i: nat): (r: (Term, ProofStep))
    requires i < |children|
    ensures r.1.children == [children[0]]
  {
    var c := ClauseOfOr(children[i]);
    Self(c, VR.OR, [children[0]], [])
  }

  /**
   * As written, the `or` step that splits premise 1 of `(or a b)`,
   * `(or c d)` into `(cl c d)` cites premise 0, which proves `(or a b)`.
   */
  lemma ChainOrStepWrongPremise()
    ensures var children := [App(OR, [Var(0), Var(1)]), App(OR, [Var(2), Var(3)])];
      var s := ChainOrStepAsWritten(children, 1).1;
      ClLits(s.args[2]) == [Var(2), Var(3)] && s.children == [children[0]]
      && ClLits(s.args[2]) != Children(s.children[0])
  {
    var children := [App(OR, [Var(0), Var(1)]), App(OR, [Var(2), Var(3)])];
    var s := ChainOrStepAsWritten(children, 1).1;
    assert s.args[2] == Cl([Var(2), Var(3)]);
    ClLitsOfCl([Var(2), Var(3)]);
  }

  /**
   * The `or` steps for premises `0 .. m-1` and the premises the final
   * resolution cites for them: each decision reads the store with the
   * earlier `or` steps already added.
   */
  function ChainOrSteps(children: seq<Term>, args: seq<Term>, store: map<Term, ProofStep>, m: nat)
    : (r: (seq<(Term, ProofStep)>, seq<Term>))
    requires WellFormedChain(children, args) && m <= |children|
    ensures |r.1| == m && |r.0| <= m && WellFormed(r.0) && Clausal(r.0)
    decreases m
  {
    if m == 0 then ([], [])
    else
      var prev := ChainOrSteps(children, args, store, m - 1);
      var premise := ChainPremiseOr(children, args, AddedSteps(store, prev.0), m - 1);
      ShapeAppend(prev.0, premise.0);
      (prev.0 + premise.0, prev.1 + [premise.1])
  }

  /**
   * Premise `k` against the store as it then is: its `or` step, if it
   * needs one, and the premise as the resolution cites it.
   */
  function ChainPremiseOr(children: seq<Term>, args: seq<Term>, store: map<Term, ProofStep>, k: nat)
    : (r: (seq<(Term, ProofStep)>, Term))
    requires WellFormedChain(children, args) && k < |children|
    ensures |r.0| <= 1 && WellFormed(r.0) && Clausal(r.0)
    ensures r.1 == children[k] || r.1 == ClauseOfOr(children[k])
  {
    if ChainNeedsOr(children, args, store, k) then ([ChainOrStep(children, k)], ClauseOfOr(children[k]))
    else ([], children[k])
  }

  /** The resolution cites each premise itself or, after its `or` step, the clause of its literals. */
  lemma {:induction false} ChainCitedPremises(children: seq<Term>, args: seq<Term>, store: map<Term, ProofStep>, m: nat)
    requires WellFormedChain(children, args) && m <= |children|
    ensures var cited := ChainOrSteps(children, args, store, m).1;
      forall k :: 0 <= k < m ==> cited[k] == children[k] || cited[k] == ClauseOfOr(children[k])
    decreases m
  {
    if m > 0 {
      ChainCitedPremises(children, args, store, m - 1);
      var prev := ChainOrSteps(children, args, store, m - 1);
      var cited := ChainOrSteps(children, args, store, m).1;
      assert cited == prev.1 + [ChainPremiseOr(children, args, AddedSteps(store, prev.0), m - 1).1];
      forall k | 0 <= k < m
        ensures cited[k] == children[k] || cited[k] == ClauseOfOr(children[k])
      {
        if k < m - 1 {
          assert cited[k] == prev.1[k];
        }
      }
    }
  }

  /**
   * CHAIN_RESOLUTION: the `or` steps, then one resolution over the cited
   * premises concluding the literals of `res` unless `res` is a
   * singleton.
   */
  function ChainSteps(res: Term, children: seq<Term>, args: seq<Term>, store: map<Term, ProofStep>): (r: seq<(Term, ProofStep)>)
    requires WellFormedChain(children, args)
    ensures Translates(r, res) && Clausal(r)
  {
    var ors := ChainOrSteps(children, args, store, |children|);
    Concluding(ors.0, res, VR.RESOLUTION, ConclusionClause(res, IsSingletonSpec(children, args, res)), ors.1)
  }

  /** The chain's resolution step over the cited premises. */
  function ChainStep(res: Term, children: seq<Term>, args: seq<Term>, store: map<Term, ProofStep>): (r: (Term, ProofStep))
    requires WellFormedChain(children, args)
    ensures r.0 == res && IsVeritStep(res, r.1) && ConcludesClause(r.1)
    ensures r.1.children == ChainOrSteps(children, args, store, |children|).1
  {
    Final(res, VR.RESOLUTION, ConclusionClause(res, IsSingletonSpec(children, args, res)),
          ChainOrSteps(children, args, store, |children|).1)
  }

  /**
   * The chain's resolution step concludes the chain's resolvent whenever
   * the singleton test agrees with the resolvent's length.
   */
  lemma ChainConcludesResolvent(res: Term, children: seq<Term>, args: seq<Term>, store: map<Term, ProofStep>)
    requires WellFormedChain(children, args)
    requires res == ChainConclusion(children, args)
    requires Resolvent(children, args, |children|) != [False]
    requires KindOf(res) == OR ==> (IsSingletonSpec(children, args, res) <==> |Resolvent(children, args, |children|)| == 1)
    ensures var r := ChainSteps(res, children, args, store);
      r[|r| - 1].1.args[2] == Cl(Resolvent(children, args, |children|))
  {
    var R := Resolvent(children, args, |children|);
    ConclusionClauseIsResolvent(res, R, IsSingletonSpec(children, args, res));
  }

  // ------------------------------------------------------------------
  // The singleton scan as written

  /**
   * The backward scan for the last premise introducing `res`, as written:
   * it compares premise `i - 1` with `args[2 * (i - 1)]`, a polarity slot,
   * and reads past the end of `args` at the last premise. `None` stands
   * for that out-of-range read.
   */
  function IntroducerAsWritten(res: Term, children: seq<Term>, args: seq<Term>, i: nat): Option<nat>
    requires i <= |children|
    decreases i
  {
    if i == 0 then Some(0)
    else if KindOf(children[i - 1]) != OR then IntroducerAsWritten(res, children, args, i - 1)
    else if 2 * (i - 1) >= |args| then None
    else if args[2 * (i - 1)] == children[i - 1] || Not(args[2 * (i - 1)]) == children[i - 1] then
      IntroducerAsWritten(res, children, args, i - 1)
    else if res in Children(children[i - 1]) then Some(i)
    else IntroducerAsWritten(res, children, args, i - 1)
  }

  /**
   * The forward scan for a link eliminating `res`, as written: link `i`
   * reads its polarity from `args[2 * i - 1]` and its pivot from
   * `args[2 * i]`, which is past the end for the last premise (and
   * `2 * i - 1` wraps around for `i = 0`). `None` stands for those reads.
   */
  function EliminatedAsWritten(res: Term, children: seq<Term>, args: seq<Term>, i: nat): Option<bool>
    decreases |children| - i
  {
    if i >= |children| then Some(false)
    else if i == 0 || 2 * i >= |args| then None
    else
      var posFirst := args[2 * i - 1] == True;
      var pivot := args[2 * i];
      if (res == pivot && posFirst) || (Not(res) == pivot && !posFirst) || (Not(pivot) == res && !posFirst) then Some(true)
      else EliminatedAsWritten(res, children, args, i + 1)
  }

  /** The singleton test as written; `None` when it reads outside `args`. */
  function IsSingletonAsWritten(res: Term, children: seq<Term>, args: seq<Term>): Option<bool>
  {
    if KindOf(res) != OR then Some(true)
    else
      match IntroducerAsWritten(res, children, args, |children|)
      case None => None
      case Some(i) =>
        match EliminatedAsWritten(res, children, args, i)
        case None => None
        case Some(e) => Some(!e)
  }

  /** A successful backward scan as written stops before the last premise. */
  lemma {:induction false} IntroducerAsWrittenBelow(res: Term, children: seq<Term>, args: seq<Term>, i: nat)
    requires WellFormedChain(children, args) && i <= |children|
    ensures match IntroducerAsWritten(res, children, args, i)
      case None => true
      case Some(k) => k < |children|
    decreases i
  {
    if i > 0 {
      IntroducerAsWrittenBelow(res, children, args, i - 1);
    }
  }

  /** The forward scan as written never ends by running off the last premise. */
  lemma {:induction false} EliminatedAsWrittenNeverFalse(res: Term, children: seq<Term>, args: seq<Term>, i: nat)
    requires WellFormedChain(children, args) && i < |children|
    ensures EliminatedAsWritten(res, children, args, i) != Some(false)
    decreases |children| - i
  {
    if i != 0 && 2 * i < |args| {
      EliminatedAsWrittenNeverFalse(res, children, args, i + 1);
    }
  }

  /**
   * As written, an OR conclusion is never found to be a singleton without
   * reading outside the arguments: whenever the scan would answer
   * "singleton", it has read past the end of `args` first.
   */
  lemma AsWrittenNeverSingleton(res: Term, children: seq<Term>, args: seq<Term>)
    requires WellFormedChain(children, args) && KindOf(res) == OR
    ensures IsSingletonAsWritten(res, children, args) != Some(true)
  {
    IntroducerAsWrittenBelow(res, children, args, |children|);
    match IntroducerAsWritten(res, children, args, |children|)
    case None =>
    case Some(i) => EliminatedAsWrittenNeverFalse(res, children, args, i);
  }

  /**
   * A chain whose OR conclusion is a singleton: `(or (or p q) x)` resolved
   * with `(not x)` on pivot `x` leaves `(or p q)`. The corrected test says
   * singleton; the scan as written reads past the end of `args`.
   */
  lemma SingletonScanExample()
    ensures var r := App(OR, [Var(0), Var(1)]);
      var children := [App(OR, [r, Var(2)]), Not(Var(2))];
      var args := [True, Var(2)];
      WellFormedChain(children, args)
      && ChainConclusion(children, args) == r
      && IsSingletonSpec(children, args, r)
      && IsSingletonAsWritten(r, children, args) == None
  {
    var r := App(OR, [Var(0), Var(1)]);
    var children := [App(OR, [r, Var(2)]), Not(Var(2))];
    var args := [True, Var(2)];
    assert Introduces(children, args, 0, r);
    assert !Introduces(children, args, 1, r);
    assert !LinkEliminates(children, args, 1, r);
    assert PremiseLits(children, args, 0) == [r, Var(2)];
    assert PremiseLits(children, args, 1) == [Not(Var(2))];
    assert Resolvent(children, args, 2) == [r];
  }

  // ------------------------------------------------------------------
  // Rules translated to one step

  /** The final step of a case: stored for `res`, concluding `conclusion`. */
  function Final(res: Term, rule: VR.VeritRule, conclusion: Term, children: seq<Term>): (r: (Term, ProofStep))
    ensures r.0 == res && IsVeritStep(res, r.1) && r.1.args[2] == conclusion && r.1.children == children
    ensures IsClause(conclusion) ==> ConcludesClause(r.1)
  {
    (res, VeritStep(res, rule, conclusion, children, []))
  }

  /**
   * The rules translated to a single step concluding `(cl res)`: the
   * elimination rules for AND, NOT OR and NOT IMPLIES and the equality
   * rules.
   */
  function UnitRule(id: PfRule): (r: Option<VR.VeritRule>)
    ensures r.Some? <==> id in {AND_ELIM, NOT_OR_ELIM, NOT_IMPLIES_ELIM1, NOT_IMPLIES_ELIM2, REFL, TRANS, CONG, SYMM}
  {
    if id == AND_ELIM then Some(VR.AND)
    else if id == NOT_OR_ELIM then Some(VR.NOT_OR)
    else if id == NOT_IMPLIES_ELIM1 then Some(VR.NOT_IMPLIES1)
    else if id == NOT_IMPLIES_ELIM2 then Some(VR.NOT_IMPLIES2)
    else if id == REFL then Some(VR.REFL)
    else if id == TRANS then Some(VR.TRANS)
    else if id == CONG then Some(VR.CONG)
    else if id == SYMM then Some(VR.SYMM)
    else None
  }

  /**
   * The rules translated to a single step concluding the literals of the
   * OR `res`: the clausifying elimination rules, the CNF rules with at
   * most two literals on the left, and REORDERING. The numbered ITE,
   * EQUIV, XOR and CNF rules map to the veriT rule of the other number
   * where the two systems number the cases differently.
   */
  function ClauseRule(id: PfRule): (r: Option<VR.VeritRule>)
    ensures r.Some? <==> id in {IMPLIES_ELIM, EQUIV_ELIM1, EQUIV_ELIM2, NOT_EQUIV_ELIM1, NOT_EQUIV_ELIM2,
      XOR_ELIM1, XOR_ELIM2, NOT_XOR_ELIM1, NOT_XOR_ELIM2, ITE_ELIM1, ITE_ELIM2, NOT_ITE_ELIM1, NOT_ITE_ELIM2,
      NOT_AND, CNF_AND_POS, CNF_AND_NEG, CNF_OR_POS, CNF_OR_NEG, CNF_IMPLIES_POS, CNF_IMPLIES_NEG1,
      CNF_IMPLIES_NEG2, CNF_EQUIV_POS1, CNF_EQUIV_POS2, CNF_EQUIV_NEG1, CNF_EQUIV_NEG2, CNF_XOR_POS1,
      CNF_XOR_POS2, CNF_XOR_NEG1, CNF_XOR_NEG2, CNF_ITE_POS1, CNF_ITE_POS2, CNF_ITE_NEG1, CNF_ITE_NEG2, REORDERING}
  {
    if id == IMPLIES_ELIM then Some(VR.IMPLIES)
    else if id == EQUIV_ELIM1 then Some(VR.EQUIV1)
    else if id == EQUIV_ELIM2 then Some(VR.EQUIV2)
    else if id == NOT_EQUIV_ELIM1 then Some(VR.NOT_EQUIV1)
    else if id == NOT_EQUIV_ELIM2 then Some(VR.NOT_EQUIV2)
    else if id == XOR_ELIM1 then Some(VR.XOR1)
    else if id == XOR_ELIM2 then Some(VR.XOR2)
    else if id == NOT_XOR_ELIM1 then Some(VR.NOT_XOR1)
    else if id == NOT_XOR_ELIM2 then Some(VR.NOT_XOR2)
    else if id == ITE_ELIM1 then Some(VR.ITE2)
    else if id == ITE_ELIM2 then Some(VR.ITE1)
    else if id == NOT_ITE_ELIM1 then Some(VR.NOT_ITE2)
    else if id == NOT_ITE_ELIM2 then Some(VR.NOT_ITE1)
    else if id == NOT_AND then Some(VR.NOT_AND)
    else if id == CNF_AND_POS then Some(VR.AND_POS)
    else if id == CNF_AND_NEG then Some(VR.AND_NEG)
    else if id == CNF_OR_POS then Some(VR.OR_POS)
    else if id == CNF_OR_NEG then Some(VR.OR_NEG)
    else if id == CNF_IMPLIES_POS then Some(VR.IMPLIES_POS)
    else if id == CNF_IMPLIES_NEG1 then Some(VR.IMPLIES_NEG1)
    else if id == CNF_IMPLIES_NEG2 then Some(VR.IMPLIES_NEG2)
    else if id == CNF_EQUIV_POS1 then Some(VR.EQUIV_POS2)
    else if id == CNF_EQUIV_POS2 then Some(VR.EQUIV_POS1)
    else if id == CNF_EQUIV_NEG1 then Some(VR.EQUIV_NEG2)
    else if id == CNF_EQUIV_NEG2 then Some(VR.EQUIV_NEG1)
    else if id == CNF_XOR_POS1 then Some(VR.XOR_POS1)
    else if id == CNF_XOR_POS2 then Some(VR.XOR_POS2)
    else if id == CNF_XOR_NEG1 then Some(VR.XOR_NEG2)
    else if id == CNF_XOR_NEG2 then Some(VR.XOR_NEG1)
    else if id == CNF_ITE_POS1 then Some(VR.ITE_POS2)
    else if id == CNF_ITE_POS2 then Some(VR.ITE_POS1)
    else if id == CNF_ITE_NEG1 then Some(VR.ITE_NEG2)
    else if id == CNF_ITE_NEG2 then Some(VR.ITE_NEG1)
    else if id == REORDERING then Some(VR.REORDER)
    else None
  }

  /**
   * THEORY_REWRITE of `(= t t')` by theory `tid`: `la_generic` with
   * coefficient 1 for an arithmetic cast to real, otherwise the rule the
   * table gives for the theory and the kind of `t`.
   */
  function TheoryRewriteStep(res: Term, children: seq<Term>, tid: VR.TheoryId): (r: (Term, ProofStep))
    requires |Children(res)| >= 1
    ensures r.0 == res && IsVeritStep(res, r.1) && ConcludesClause(r.1) && r.1.args[2] == Cl([res])
    ensures var k := KindOf(Children(res)[0]);
      if tid == VR.THEORY_ARITH && k == CAST_TO_REAL then r.1.args[0] == RatConst(VR.LA_GENERIC) && r.1.args[3..] == [RatConst(1)]
      else r.1.args[0] == RatConst(VR.TheoryRewriteRule(tid, k)) && |r.1.args| == 3
  {
    var k := KindOf(Children(res)[0]);
    if tid == VR.THEORY_ARITH && k == CAST_TO_REAL then
      (res, VeritStep(res, VR.LA_GENERIC, Cl([res]), children, [RatConst(1)]))
    else
      Final(res, VR.TheoryRewriteRule(tid, k), Cl([res]), children)
  }

  // ------------------------------------------------------------------
  // Rules translated to several steps

  /** Clause steps `init` followed by the step for `res` by `rule`, concluding the clause `conclusion`. */
  function Concluding(init: seq<(Term, ProofStep)>, res: Term, rule: VR.VeritRule, conclusion: Term, children: seq<Term>)
    : (r: seq<(Term, ProofStep)>)
    requires WellFormed(init) && Clausal(init) && IsClause(conclusion)
    ensures Translates(r, res) && Clausal(r) && |r| == |init| + 1
    ensures r == init + [Final(res, rule, conclusion, children)]
    ensures forall i :: 0 <= i < |init| ==> r[i] == init[i]
    ensures r[|init|] == Final(res, rule, conclusion, children) && r[|init|].1.args[2] == conclusion
  {
    var last := [Final(res, rule, conclusion, children)];
    TranslatesPrepend(init, last, res);
    init + last
  }

  /** SPLIT on `F`: two `not_not` clauses resolved into `(cl F (not F))`. */
  function SplitSteps(res: Term, f: Term): (r: seq<(Term, ProofStep)>)
    ensures Translates(r, res) && Clausal(r) && |r| == 3
  {
    var vp1 := Cl([Not(Not(Not(f))), f]);
    var vp2 := Cl([Not(Not(Not(Not(f)))), Not(f)]);
    [Self(vp2, VR.NOT_NOT, [], []), Self(vp1, VR.NOT_NOT, [], []),
     Final(res, VR.RESOLUTION, ClauseOfOr(res), [vp1, vp2])]
  }

  /** EQ_RESOLVE from `F1` and `(= F1 F2)`: an `equiv_pos2` clause resolved with both premises. */
  function EqResolveSteps(res: Term, c0: Term, c1: Term): (r: seq<(Term, ProofStep)>)
    ensures Translates(r, res) && Clausal(r) && |r| == 2
  {
    var e := Cl([Not(c1), Not(c0), res]);
    [Self(e, VR.EQUIV_POS2, [], []), Final(res, VR.RESOLUTION, Cl([res]), [e, c1, c0])]
  }

  /**
   * MODUS_PONENS (`rule` is IMPLIES, premise `(=> F1 F2)`) and
   * NOT_NOT_ELIM (`rule` is NOT_NOT, no premise): the clause
   * `(cl (not F1) res)`, resolved with `F1`.
   */
  function ImplicationSteps(res: Term, c0: Term, rule: VR.VeritRule, premises: seq<Term>): (r: seq<(Term, ProofStep)>)
    ensures Translates(r, res) && Clausal(r) && |r| == 2
  {
    var vp1 := Cl([Not(c0), res]);
    [Self(vp1, rule, premises, []), Final(res, VR.RESOLUTION, Cl([res]), [vp1, c0])]
  }

  /** AND_INTRO: the `and_neg` clause `(cl res (not F1) ... (not Fn))` resolved with every premise. */
  function AndIntroSteps(res: Term, children: seq<Term>): (r: seq<(Term, ProofStep)>)
    ensures Translates(r, res) && Clausal(r) && |r| == 2
  {
    var vp1 := Cl([res] + NegateAll(children));
    [Self(vp1, VR.AND_NEG, [], []), Final(res, VR.RESOLUTION, Cl([res]), [vp1] + children)]
  }

  /**
   * CNF_ITE_POS3 and CNF_ITE_NEG3 on `(ite C F1 F2)`: the two clauses for
   * either value of `C`, resolved on `C`, then the duplicate literal
   * removed.
   */
  function IteThirdSteps(res: Term, cond: Term, first: VR.VeritRule, second: VR.VeritRule): (r: seq<(Term, ProofStep)>)
    requires |Children(res)| >= 3
    ensures Translates(r, res) && Clausal(r) && |r| == 4
  {
    var lits := Children(res);
    var vp1 := Cl([lits[0], cond, lits[2]]);
    var vp2 := Cl([lits[0], Not(cond), lits[1]]);
    var vp3 := Cl([lits[0], lits[1], lits[0], lits[2]]);
    [Self(vp1, first, [], []), Self(vp2, second, [], []), Self(vp3, VR.RESOLUTION, [vp1, vp2], []),
     Final(res, VR.DUPLICATED_LITERALS, ClauseOfOr(res), [vp3])]
  }

  /** TRUE_INTRO from `F`: `(cl (= res F))` by `equiv_simplify`, `equiv2`, then resolution with `F`. */
  function TrueIntroSteps(res: Term, c0: Term): (r: seq<(Term, ProofStep)>)
    ensures Translates(r, res) && Clausal(r) && |r| == 3
  {
    var vp1 := Cl([App(EQUAL, [res, c0])]);
    var vp2 := Cl([res, Not(c0)]);
    Concluding(Selves([[App(EQUAL, [res, c0])], [res, Not(c0)]], [VR.EQUIV_SIMPLIFY, VR.EQUIV2], [[], [vp1]]),
               res, VR.RESOLUTION, Cl([res]), [vp2, c0])
  }

  /** TRUE_ELIM and FALSE_ELIM from `(= F c)`: `equiv_simplify`, `equiv1`, then resolution with the premise. */
  function ConstElimSteps(res: Term, c0: Term): (r: seq<(Term, ProofStep)>)
    ensures Translates(r, res) && Clausal(r) && |r| == 3
    ensures r[2].1.args[2] == Cl([res])
  {
    var vp1 := Cl([App(EQUAL, [c0, res])]);
    var vp2 := Cl([Not(c0), res]);
    Concluding(Selves([[App(EQUAL, [c0, res])], [Not(c0), res]], [VR.EQUIV_SIMPLIFY, VR.EQUIV1], [[], [vp1]]),
               res, VR.RESOLUTION, Cl([res]), [vp2, c0])
  }

  /** FALSE_INTRO from `(not F)`: as TRUE_INTRO, with a `not_not` step to reach `F`. */
  function FalseIntroSteps(res: Term, c0: Term): (r: seq<(Term, ProofStep)>)
    requires |Children(c0)| >= 1
    ensures Translates(r, res) && Clausal(r) && |r| == 5
    ensures r[4].1.args[2] == Cl([res])
  {
    var f := Children(c0)[0];
    var vp1 := Cl([App(EQUAL, [res, c0])]);
    var vp2 := Cl([res, Not(c0)]);
    var vp3 := Cl([Not(Not(c0)), f]);
    var vp4 := Cl([res, f]);
    Concluding(Selves([[App(EQUAL, [res, c0])], [res, Not(c0)], [Not(Not(c0)), f], [res, f]],
                      [VR.EQUIV_SIMPLIFY, VR.EQUIV2, VR.NOT_NOT, VR.RESOLUTION], [[], [vp1], [], [vp2, vp3]]),
               res, VR.RESOLUTION, Cl([res]), [vp4, c0])
  }

  /** The `forall_inst` arguments: each bound variable equated with its instance. */
  function InstantiationArgs(vars: seq<Term>, args: seq<Term>): (r: seq<Term>)
    requires |args| <= |vars|
    ensures |r| == |args| && forall i :: 0 <= i < |args| ==> r[i] == App(EQUAL, [vars[i], args[i]])
  {
    seq(|args|, i requires 0 <= i < |args| => App(EQUAL, [vars[i], args[i]]))
  }

  /**
   * INSTANTIATE of `(forall (x1 ... xn) F)` with `t1 ... tn`:
   * `forall_inst` with the equations `(= xi ti)`, an `or` step, and a
   * resolution with the quantified premise.
   */
  function InstantiateSteps(res: Term, c0: Term, vars: seq<Term>, args: seq<Term>): (r: seq<(Term, ProofStep)>)
    requires |args| <= |vars|
    ensures Translates(r, res) && Clausal(r) && |r| == 3
    ensures r[2].1.args[2] == Cl([res])
  {
    Concluding(InstantiatePremises(res, c0, InstantiationArgs(vars, args)), res, VR.RESOLUTION, Cl([res]), [Cl([Not(c0), res]), c0])
  }

  /** The `forall_inst` step with the equations `eqs`, then the `or` step, of INSTANTIATE. */
  function InstantiatePremises(res: Term, c0: Term, eqs: seq<Term>): (r: seq<(Term, ProofStep)>)
    ensures |r| == 2 && WellFormed(r) && Clausal(r)
    ensures r[0] == Self(Cl([App(OR, [Not(c0), res])]), VR.FORALL_INST, [], eqs)
  {
    var vp1 := Cl([App(OR, [Not(c0), res])]);
    [Self(vp1, VR.FORALL_INST, [], eqs), Self(Cl([Not(c0), res]), VR.OR, [vp1], [])]
  }

  /** The `forall_inst` step of INSTANTIATE carries the equations `(= xi ti)` as its arguments. */
  lemma InstantiateCarriesEquations(res: Term, c0: Term, vars: seq<Term>, args: seq<Term>)
    requires |args| <= |vars|
    ensures var r := InstantiateSteps(res, c0, vars, args);
      r[0].1.args[3..] == InstantiationArgs(vars, args) && r[0].1.children == []
  {
  }

  // ------------------------------------------------------------------
  // The translation of one step

  /** What each rule's translation reads from its premises, arguments and conclusion. */
  predicate TranslationDefined(res: Term, id: PfRule, children: seq<Term>, args: seq<Term>)
  {
    (id == SCOPE ==> |children| >= 1)
    && (id == THEORY_REWRITE ==> |args| >= 2 && args[1].RatConst? && args[1].q >= 0 && |Children(res)| >= 1)
    && (id == ProofRules.RESOLUTION ==> |children| >= 2 && |args| >= 2)
    && (id == CHAIN_RESOLUTION ==> WellFormedChain(children, args))
    && (id == SPLIT ==> |args| >= 1)
    && (id == EQ_RESOLVE || id == MODUS_PONENS ==> |children| >= 2)
    && (id == NOT_NOT_ELIM || id == TRUE_INTRO || id == TRUE_ELIM || id == FALSE_ELIM ==> |children| >= 1)
    && (id == FALSE_INTRO ==> |children| >= 1 && |Children(children[0])| >= 1)
    && (id == CNF_ITE_POS3 || id == CNF_ITE_NEG3 ==> |Children(res)| >= 3 && |args| >= 1 && |Children(args[0])| >= 1)
    && (id == INSTANTIATE ==>
          |children| >= 1 && |Children(children[0])| >= 1 && |args| <= |Children(Children(children[0])[0])|)
  }

  /** The rules translated to more than one step, or to steps that read the store. */
  predicate MultiStep(id: PfRule)
  {
    id == SCOPE || ResolutionRule(id) || PropositionalRule(id) || IteTrueRule(id) || ElimInstRule(id)
  }

  /**
   * The steps the translation adds for an internal step proving `res` by
   * rule `id`, reading the steps already in `store`. Every rule gets a
   * translation; the rules without one of their own get a single
   * UNDEFINED step keeping their arguments.
   */
  function Translation(res: Term, id: PfRule, children: seq<Term>, args: seq<Term>, store: map<Term, ProofStep>)
    : (r: seq<(Term, ProofStep)>)
    requires TranslationDefined(res, id, children, args)
    ensures Translates(r, res)
    ensures id != ProofRules.ASSUME ==> Clausal(r)
  {
    if MultiStep(id) then MultiSteps(res, id, children, args, store)
    else [SingleStep(res, id, children, args)]
  }

  /** The translation of the rules that add several steps, by group of rules. */
  function MultiSteps(res: Term, id: PfRule, children: seq<Term>, args: seq<Term>, store: map<Term, ProofStep>)
    : (r: seq<(Term, ProofStep)>)
    requires TranslationDefined(res, id, children, args) && MultiStep(id)
    ensures Translates(r, res) && Clausal(r)
  {
    if id == SCOPE then ScopeSteps(res, children, args)
    else if ResolutionRule(id) then ResolutionTranslation(res, id, children, args, store)
    else if PropositionalRule(id) then PropositionalTranslation(res, id, children, args)
    else if IteTrueRule(id) then IteTrueTranslation(res, id, children, args)
    else ElimInstTranslation(res, id, children, args)
  }

  /** The resolution rules. */
  predicate ResolutionRule(id: PfRule)
  {
    id == ProofRules.RESOLUTION || id == CHAIN_RESOLUTION
  }

  /** The propositional rules translated to a few fixed steps. */
  predicate PropositionalRule(id: PfRule)
  {
    id == SPLIT || id == EQ_RESOLVE || id == MODUS_PONENS || id == NOT_NOT_ELIM || id == AND_INTRO
  }

  /** The `ite` clausification rules and TRUE_INTRO. */
  predicate IteTrueRule(id: PfRule)
  {
    id == CNF_ITE_POS3 || id == CNF_ITE_NEG3 || id == TRUE_INTRO
  }

  /** The constant elimination rules, FALSE_INTRO and INSTANTIATE. */
  predicate ElimInstRule(id: PfRule)
  {
    id == TRUE_ELIM || id == FALSE_ELIM || id == FALSE_INTRO || id == INSTANTIATE
  }

  /** RESOLUTION and CHAIN_RESOLUTION. */
  function ResolutionTranslation(res: Term, id: PfRule, children: seq<Term>, args: seq<Term>, store: map<Term, ProofStep>)
    : (r: seq<(Term, ProofStep)>)
    requires TranslationDefined(res, id, children, args) && ResolutionRule(id)
    ensures Translates(r, res) && Clausal(r)
  {
    if id == ProofRules.RESOLUTION then ResolutionSteps(res, children, args, store)
    else ChainSteps(res, children, args, store)
  }

  /** SPLIT, EQ_RESOLVE, MODUS_PONENS, NOT_NOT_ELIM and AND_INTRO. */
  function PropositionalTranslation(res: Term, id: PfRule, children: seq<Term>, args: seq<Term>): (r: seq<(Term, ProofStep)>)
    requires TranslationDefined(res, id, children, args) && PropositionalRule(id)
    ensures Translates(r, res) && Clausal(r)
  {
    if id == SPLIT then SplitSteps(res, args[0])
    else if id == EQ_RESOLVE then EqResolveSteps(res, children[0], children[1])
    else if id == MODUS_PONENS then ImplicationSteps(res, children[0], VR.IMPLIES, [children[1]])
    else if id == NOT_NOT_ELIM then ImplicationSteps(res, children[0], VR.NOT_NOT, [])
    else AndIntroSteps(res, children)
  }

  /** CNF_ITE_POS3, CNF_ITE_NEG3 and TRUE_INTRO. */
  function IteTrueTranslation(res: Term, id: PfRule, children: seq<Term>, args: seq<Term>): (r: seq<(Term, ProofStep)>)
    requires TranslationDefined(res, id, children, args) && IteTrueRule(id)
    ensures Translates(r, res) && Clausal(r)
  {
    if id == CNF_ITE_POS3 then IteThirdSteps(res, Children(args[0])[0], VR.ITE_POS1, VR.ITE_POS2)
    else if id == CNF_ITE_NEG3 then IteThirdSteps(res, Children(args[0])[0], VR.ITE_NEG1, VR.ITE_NEG2)
    else TrueIntroSteps(res, children[0])
  }

  /** TRUE_ELIM, FALSE_ELIM, FALSE_INTRO and INSTANTIATE. */
  function ElimInstTranslation(res: Term, id: PfRule, children: seq<Term>, args: seq<Term>): (r: seq<(Term, ProofStep)>)
    requires TranslationDefined(res, id, children, args) && ElimInstRule(id)
    ensures Translates(r, res) && Clausal(r)
  {
    if id == TRUE_ELIM || id == FALSE_ELIM then ConstElimSteps(res, children[0])
    else if id == FALSE_INTRO then FalseIntroSteps(res, children[0])
    else InstantiateSteps(res, children[0], Children(Children(children[0])[0]), args)
  }

  /** The internal rules with no veriT translation of their own. */
  predicate Untranslated(id: PfRule)
  {
    !MultiStep(id) && id != ProofRules.ASSUME && id != THEORY_REWRITE && id != FACTORING && id != CONTRA
    && UnitRule(id).None? && ClauseRule(id).None?
  }

  /** The one step stored for `res` by the rules translated to a single step. */
  function SingleStep(res: Term, id: PfRule, children: seq<Term>, args: seq<Term>): (r: (Term, ProofStep))
    requires TranslationDefined(res, id, children, args) && !MultiStep(id)
    ensures r.0 == res && IsVeritStep(res, r.1)
    ensures id != ProofRules.ASSUME ==> ConcludesClause(r.1)
    ensures Untranslated(id) ==> r.1 == VeritStep(res, VR.UNDEFINED, Cl([res]), children, args)
  {
    if id == ProofRules.ASSUME then (res, VeritStep(res, VR.ASSUME, res, children, []))
    else if id == THEORY_REWRITE then TheoryRewriteStep(res, children, args[1].q)
    else if id == FACTORING then
      Final(res, VR.DUPLICATED_LITERALS, if KindOf(res) == OR then ClauseOfOr(res) else Cl([res]), children)
    else if id == CONTRA then Final(res, VR.RESOLUTION, Cl([]), children)
    else if UnitRule(id).Some? then Final(res, UnitRule(id).value, Cl([res]), children)
    else if ClauseRule(id).Some? then Final(res, ClauseRule(id).value, ClauseOfOr(res), children)
    else (res, VeritStep(res, VR.UNDEFINED, Cl([res]), children, args))
  }

  /**
   * How a clause reads the fact `res`: as the literal `res`, as the
   * literals of the OR `res`, or as the empty clause when `res` is `false`.
   */
  predicate ReadsAs(c: Term, res: Term)
  {
    c == Cl([res]) || (KindOf(res) == OR && c == ClauseOfOr(res)) || (res == False && c == Cl([]))
  }

  /**
   * The shape the internal rule gives its conclusion: SCOPE concludes the
   * implication (or the negated conjunction for a `false` body), CONTRA
   * concludes `false`, and the clausifying rules conclude an OR.
   */
  predicate ConclusionShape(res: Term, id: PfRule, children: seq<Term>, args: seq<Term>)
  {
    (id == SCOPE && |children| >= 1 ==>
       res == (if children[0] == False then Not(Conjunction(args)) else ScopeImplication(Conjunction(args), children[0])))
    && (id == CONTRA ==> res == False)
    && (id == SPLIT || id == CNF_ITE_POS3 || id == CNF_ITE_NEG3 ==> KindOf(res) == OR)
    && (ClauseRule(id).Some? ==> KindOf(res) == OR)
  }

  /** The last translated step concludes a clause that reads as the internal step's conclusion. */
  lemma TranslationReadsResult(res: Term, id: PfRule, children: seq<Term>, args: seq<Term>, store: map<Term, ProofStep>)
    requires TranslationDefined(res, id, children, args) && ConclusionShape(res, id, children, args)
    requires id != ProofRules.ASSUME
    ensures var r := Translation(res, id, children, args, store);
      ReadsAs(r[|r| - 1].1.args[2], res)
  {
    if MultiStep(id) {
      MultiStepsReadResult(res, id, children, args, store);
    } else {
      SingleStepReadsResult(res, id, children, args);
    }
  }

  /**
   * Outside THEORY_REWRITE, whose table may itself answer UNDEFINED, a
   * one-step translation carries the veriT rule UNDEFINED exactly when
   * the internal rule has no translation of its own.
   */
  lemma UndefinedIffUntranslated(res: Term, id: PfRule, children: seq<Term>, args: seq<Term>)
    requires TranslationDefined(res, id, children, args) && !MultiStep(id) && id != THEORY_REWRITE
    ensures SingleStep(res, id, children, args).1.args[0] == RatConst(VR.UNDEFINED) <==> Untranslated(id)
  {
  }

  /** The one-step translations conclude a clause that reads as `res`. */
  lemma SingleStepReadsResult(res: Term, id: PfRule, children: seq<Term>, args: seq<Term>)
    requires TranslationDefined(res, id, children, args) && !MultiStep(id) && id != ProofRules.ASSUME
    requires (id == CONTRA ==> res == False) && (ClauseRule(id).Some? ==> KindOf(res) == OR)
    ensures ReadsAs(SingleStep(res, id, children, args).1.args[2], res)
  {
  }

  /** The several-step translations end in a step concluding a clause that reads as `res`. */
  lemma MultiStepsReadResult(res: Term, id: PfRule, children: seq<Term>, args: seq<Term>, store: map<Term, ProofStep>)
    requires TranslationDefined(res, id, children, args) && ConclusionShape(res, id, children, args)
    requires MultiStep(id)
    ensures var r := MultiSteps(res, id, children, args, store);
      ReadsAs(r[|r| - 1].1.args[2], res)
  {
    if id == SCOPE {
      ScopeReadsResult(res, children, args);
    } else if ResolutionRule(id) {
      ResolutionReadsResult(res, id, children, args, store);
    } else if PropositionalRule(id) {
      PropositionalReadsResult(res, id, children, args);
    } else if IteTrueRule(id) {
      IteTrueReadsResult(res, id, children, args);
    } else {
      ElimInstReadsResult(res, id, children, args);
    }
  }

  /** Case of MultiStepsReadResult: the SCOPE translation. */
  lemma ScopeReadsResult(res: Term, children: seq<Term>, args: seq<Term>)
    requires TranslationDefined(res, SCOPE, children, args) && ConclusionShape(res, SCOPE, children, args)
    ensures var r := ScopeSteps(res, children, args);
      ReadsAs(r[|r| - 1].1.args[2], res)
  {
  }

  /** Case of MultiStepsReadResult: the resolution translations. */
  lemma ResolutionReadsResult(res: Term, id: PfRule, children: seq<Term>, args: seq<Term>, store: map<Term, ProofStep>)
    requires TranslationDefined(res, id, children, args) && ResolutionRule(id)
    ensures var r := ResolutionTranslation(res, id, children, args, store);
      ReadsAs(r[|r| - 1].1.args[2], res)
  {
    if id == ProofRules.RESOLUTION {
      BinaryReadsResult(res, children, args, store);
    } else {
      ChainReadsResult(res, children, args, store);
    }
  }

  /** A binary resolution concludes a clause that reads as its result. */
  lemma BinaryReadsResult(res: Term, children: seq<Term>, args: seq<Term>, store: map<Term, ProofStep>)
    requires |children| >= 2 && |args| >= 2
    ensures var r := ResolutionSteps(res, children, args, store);
      ReadsAs(r[|r| - 1].1.args[2], res)
  {
  }

  /** A chain resolution concludes a clause that reads as its result. */
  lemma ChainReadsResult(res: Term, children: seq<Term>, args: seq<Term>, store: map<Term, ProofStep>)
    requires WellFormedChain(children, args)
    ensures var r := ChainSteps(res, children, args, store);
      ReadsAs(r[|r| - 1].1.args[2], res)
  {
  }

  /** Case of MultiStepsReadResult: the SPLIT, EQ_RESOLVE, MODUS_PONENS, NOT_NOT_ELIM and AND_INTRO translations. */
  lemma PropositionalReadsResult(res: Term, id: PfRule, children: seq<Term>, args: seq<Term>)
    requires TranslationDefined(res, id, children, args) && PropositionalRule(id)
    requires id == SPLIT ==> KindOf(res) == OR
    ensures var r := PropositionalTranslation(res, id, children, args);
      ReadsAs(r[|r| - 1].1.args[2], res)
  {
    if id == SPLIT {
      SplitReadsResult(res, args[0]);
    }
  }

  /** SPLIT concludes the literals of its OR. */
  lemma SplitReadsResult(res: Term, f: Term)
    requires KindOf(res) == OR
    ensures var r := SplitSteps(res, f);
      ReadsAs(r[|r| - 1].1.args[2], res)
  {
  }

  /** Case of MultiStepsReadResult: the CNF_ITE_POS3, CNF_ITE_NEG3 and TRUE_INTRO translations. */
  lemma IteTrueReadsResult(res: Term, id: PfRule, children: seq<Term>, args: seq<Term>)
    requires TranslationDefined(res, id, children, args) && IteTrueRule(id)
    requires id != TRUE_INTRO ==> KindOf(res) == OR
    ensures var r := IteTrueTranslation(res, id, children, args);
      ReadsAs(r[|r| - 1].1.args[2], res)
  {
  }

  /** Case of MultiStepsReadResult: the TRUE_ELIM, FALSE_ELIM, FALSE_INTRO and INSTANTIATE translations. */
  lemma ElimInstReadsResult(res: Term, id: PfRule, children: seq<Term>, args: seq<Term>)
    requires TranslationDefined(res, id, children, args) && ElimInstRule(id)
    ensures var r := ElimInstTranslation(res, id, children, args);
      ReadsAs(r[|r| - 1].1.args[2], res)
  {
  }

  // ------------------------------------------------------------------
  // The final callback

  /** The final callback applies to a root step whose conclusion clause is `(cl false)`. */
  predicate EndsInFalse(args: seq<Term>)
  {
    |args| >= 3 && |Children(args[2])| > 1 && Children(args[2])[1] == False
  }

  /** The `(res)` node the final callback stores the root's old step under. */
  function Wrapped(res: Term): Term
  {
    App(SEXPR, [res])
  }

  /**
   * The three steps of the final callback for the root `res` proved by
   * veriT rule `vrule` from `children`: the root's step again under
   * `(res)`, `(cl (not false))` by the `false` rule, and a resolution of
   * the two concluding the empty clause under `res`.
   */
  function FinalSteps(res: Term, children: seq<Term>, vrule: nat): (r: seq<(Term, ProofStep)>)
    ensures |r| == 3 && WellFormed(r)
  {
    var nf := Not(False);
    [(Wrapped(res), ProofStep(VERIT_RULE, children,
        [RatConst(vrule), Wrapped(res), if vrule == VR.ASSUME then res else Cl([res])])),
     (nf, ProofStep(VERIT_RULE, [], [RatConst(VR.FALSE), nf, Cl([nf])])),
     (res, ProofStep(VERIT_RULE, [nf, Wrapped(res)], [RatConst(VR.RESOLUTION), res, Cl([])]))]
  }

  /** A store after storing the given steps in order, each replacing whatever was there. */
  function Overwritten(store: map<Term, ProofStep>, steps: seq<(Term, ProofStep)>): (r: map<Term, ProofStep>)
    ensures r.Keys == store.Keys + set i | 0 <= i < |steps| :: steps[i].0
    decreases |steps|
  {
    if |steps| == 0 then store
    else
      var init := steps[..|steps| - 1];
      assert forall i :: 0 <= i < |steps| - 1 ==> init[i] == steps[i];
      Overwritten(store, init)[steps[|steps| - 1].0 := steps[|steps| - 1].1]
  }

  /**
   * After the final callback the root is proved by a resolution
   * concluding the empty clause, and both of its premises have steps: the
   * root's old step under `(res)` and `(cl (not false))`.
   */
  lemma FinalConcludesEmpty(store: map<Term, ProofStep>, res: Term, children: seq<Term>, vrule: nat)
    ensures var s := Overwritten(store, FinalSteps(res, children, vrule));
      res in s && Not(False) in s && Wrapped(res) in s
      && s[res] == ProofStep(VERIT_RULE, [Not(False), Wrapped(res)], [RatConst(VR.RESOLUTION), res, Cl([])])
      && s[Wrapped(res)] == ProofStep(VERIT_RULE, children,
           [RatConst(vrule), Wrapped(res), if vrule == VR.ASSUME then res else Cl([res])])
      && (res != Not(False) ==> s[Not(False)] == ProofStep(VERIT_RULE, [], [RatConst(VR.FALSE), Not(False), Cl([Not(False)])]))
  {
    var steps := FinalSteps(res, children, vrule);
    assert steps[..2][..1] == steps[..1] && steps[..1][..0] == [];
    assert Overwritten(store, steps[..1]) == store[steps[0].0 := steps[0].1];
    assert Overwritten(store, steps[..2]) == Overwritten(store, steps[..1])[steps[1].0 := steps[1].1];
    assert Overwritten(store, steps) == Overwritten(store, steps[..2])[steps[2].0 := steps[2].1];
    assert Wrapped(res) != res by {
      assert res in Wrapped(res).args;
    }
  }
}
