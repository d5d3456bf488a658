/**
 * Clause-id bookkeeping of the new proof manager: the ids of input
 * assertions, of SAT literals and of SAT clauses, the definitions of
 * clauses, the buffered resolution chains, the memoised justification of
 * propagated literals and the final resolution that derives the empty
 * clause.
 *
 * The proof object is its step store, keyed by id, with ids handed out by
 * a counter. The SAT solver is abstracted as in the SAT proof manager: a
 * trail position and a truth value per variable, and a reason lookup from
 * variable to clause (propagated literal first) together with the proof id
 * of that clause.
 */
module NewProof {
  import opened Terms
  import opened SatClauses

  /** The rules the manager records steps under. */
  datatype NewProofRule =
    | RULE_UNDEF | RULE_INPUT | RULE_RESOLUTION | RULE_THEORY_LEMMA
    | RULE_ITE_INTRO | RULE_PREPROCESSING_ITE_REMOVAL | RULE_OTHER(code: nat)

  /** A step of the proof object: rule, premise ids and conclusion. */
  datatype NewStep = NewStep(rule: NewProofRule, premises: seq<nat>, conclusion: seq<Term>)

  /** The empty placeholder step a new id starts as. */
  const Placeholder := NewStep(RULE_UNDEF, [], [])

  /** One link of a buffered resolution chain: the resolved clause's id, the pivot and its sign. */
  datatype ResLink = ResLink(id: nat, pivot: Term, sign: bool)

  /** A clause of the SAT solver; its proof id is 0 until it is registered. */
  class SatClauseObj {
    var lits: seq<SatLit>
    var proofId: nat

    constructor (lits: seq<SatLit>)
      ensures this.lits == lits && proofId == 0
    {
      this.lits := lits;
      proofId := 0;
    }
  }

  /** Inserts `k` with value `v` unless `k` already has a value: the first writer wins. */
  function KeepFirst<K(!new), V>(m: map<K, V>, k: K, v: V): (r: map<K, V>)
    ensures k in r && r[k] == (if k in m then m[k] else v)
    ensures forall j :: j != k ==> (j in r <==> j in m)
    ensures forall j :: j in m ==> r[j] == m[j]
  {
    if k in m then m else m[k := v]
  }

  /** Once an entry is written, later writers of the same key change nothing. */
  lemma KeepFirstStable<K(!new), V>(m: map<K, V>, k: K, v: V, w: V)
    ensures KeepFirst(KeepFirst(m, k, v), k, w) == KeepFirst(m, k, v)
    ensures KeepFirst(KeepFirst(m, k, v), k, w)[k] == (if k in m then m[k] else v)
  {
  }

  /** `b` keeps every entry of `a`. */
  ghost predicate Grows<K, V>(a: map<K, V>, b: map<K, V>)
  {
    forall k :: k in a ==> k in b && b[k] == a[k]
  }

  /** Every literal that has an id has that id recorded as some literal's id. */
  ghost predicate Paired(litToId: map<SatLit, nat>, idToLit: map<nat, SatLit>)
  {
    forall l :: l in litToId ==> litToId[l] in idToLit
  }

  /** Recording a literal and its id together keeps the tables paired, the new entry pointing back. */
  lemma PairedRecord(litToId: map<SatLit, nat>, idToLit: map<nat, SatLit>, l: SatLit, id: nat)
    requires Paired(litToId, idToLit)
    ensures Paired(litToId[l := id], idToLit[id := l])
    ensures idToLit[id := l][litToId[l := id][l]] == l
  {
  }

  /**
   * Registering a literal in the id tables when `next` is the next id:
   * the tables afterwards and the literal's id.
   */
  function RegisterLitIds(litToId: map<SatLit, nat>, idToLit: map<nat, SatLit>, next: nat, lit: SatLit)
    : (r: (map<SatLit, nat>, map<nat, SatLit>, nat))
    ensures lit in r.0 && r.0[lit] == r.2 && Grows(litToId, r.0)
    ensures lit in litToId ==> r.2 == litToId[lit] && r.0 == litToId && r.1 == idToLit
    ensures lit !in litToId ==> r.2 == next && r.1 == idToLit[next := lit] && r.0 == litToId[lit := next]
  {
    if lit in litToId then (litToId, idToLit, litToId[lit])
    else (litToId[lit := next], idToLit[next := lit], next)
  }

  /** Registering is idempotent: a second registration returns the same id and changes nothing. */
  lemma RegisterLitIdempotent(litToId: map<SatLit, nat>, idToLit: map<nat, SatLit>, next: nat,
                              next': nat, lit: SatLit)
    ensures var r := RegisterLitIds(litToId, idToLit, next, lit);
            RegisterLitIds(r.0, r.1, next', lit) == r
  {
  }

  /** The negation of every literal of `ls` has an id in `m`. */
  ghost predicate AllJustified(m: map<SatLit, nat>, ls: seq<SatLit>)
  {
    forall k :: 0 <= k < |ls| ==> Neg(ls[k]) in m
  }

  /** The ids justifying the negations of `ls`, in order. */
  function JustIds(m: map<SatLit, nat>, ls: seq<SatLit>): (r: seq<nat>)
    requires AllJustified(m, ls)
    ensures |r| == |ls| && forall k :: 0 <= k < |ls| ==> r[k] == m[Neg(ls[k])]
  {
    seq(|ls|, k requires 0 <= k < |ls| => m[Neg(ls[k])])
  }

  /** The justification ids stay the same when the table only grows. */
  lemma JustIdsGrow(m: map<SatLit, nat>, m': map<SatLit, nat>, ls: seq<SatLit>)
    requires AllJustified(m, ls)
    requires Grows(m, m')
    ensures AllJustified(m', ls)
    ensures JustIds(m', ls) == JustIds(m, ls)
  {
    assert forall k :: 0 <= k < |ls| ==> ls[k] in ls;
  }

  lemma JustIdsSnoc(m: map<SatLit, nat>, ls: seq<SatLit>, x: SatLit)
    requires AllJustified(m, ls) && Neg(x) in m
    ensures JustIds(m, ls + [x]) == JustIds(m, ls) + [m[Neg(x)]]
  {
  }

  class NewProofManager {
    /** The id of each input assertion (and of what it was preprocessed into). */
    var assertionToClauseId: map<Term, nat>
    var litToClauseId: map<SatLit, nat>
    var clauseIdToLit: map<nat, SatLit>
    var litToNode: map<SatLit, Term>
    var clauseToNode: map<nat, Term>
    var clauseToNodeDef: map<nat, Term>
    var clauseIdToClause: map<nat, SatClauseObj>
    /** The literals with a queued theory proof. */
    var litToTheoryProof: set<SatLit>
    /** The resolution chain being built, and the finished ones. */
    var resolution: seq<ResLink>
    var resolutions: seq<seq<ResLink>>
    /** The proof object: the next id to hand out and the steps recorded so far. */
    var nextId: nat
    var steps: map<nat, NewStep>

    /** The SAT solver: trail position and value of each variable, reason clauses and their proof ids. */
    const trail: nat -> nat
    const value: nat -> bool
    const reason: nat -> Option<seq<SatLit>>
    const reasonId: nat -> nat

    /**
     * The tables agree: every literal with an id has that id mapped back
     * to a literal; a clause with a node has a definition; every step id
     * was handed out; 0 is never handed out (it marks an unregistered
     * clause).
     */
    ghost predicate Valid()
      reads this
    {
      Paired(litToClauseId, clauseIdToLit)
      && clauseToNode.Keys <= clauseToNodeDef.Keys
      && nextId >= 1
      && forall i :: i in steps ==> i < nextId
    }

    /**
     * The state keeps every id and step of `ids0` and `steps0`, has not
     * gone back on `n0`, and every literal given an id since was assigned
     * before trail position `bound`.
     */
    ghost predicate ExtendsSince(ids0: map<SatLit, nat>, steps0: map<nat, NewStep>, n0: nat, bound: nat)
      reads this
    {
      Grows(ids0, litToClauseId) && Grows(steps0, steps) && n0 <= nextId
      && forall l :: l in litToClauseId && l !in ids0 ==> trail(l.v) < bound
    }

    predicate IsTrue(l: SatLit)
    {
      value(l.v) != l.negated
    }

    /**
     * The solver's reasons: the first literal of a reason is true and on
     * the reason's variable; every other literal is false and assigned
     * earlier on the trail.
     */
    ghost predicate SolverConsistent()
    {
      forall v: nat {:trigger reason(v)} :: reason(v).Some? ==>
        var c := reason(v).value;
        |c| >= 1 && c[0].v == v && IsTrue(c[0])
        && forall i :: 1 <= i < |c| ==> !IsTrue(c[i]) && trail(c[i].v) < trail(v)
    }

    /** A literal can be justified: it already has an id, or it is true (so the solver propagated it). */
    ghost predicate Justifiable(l: SatLit)
      reads this
    {
      l in litToClauseId || IsTrue(l)
    }

    constructor (trail: nat -> nat, value: nat -> bool, reason: nat -> Option<seq<SatLit>>,
                 reasonId: nat -> nat)
      ensures Valid() && steps == map[] && resolution == [] && resolutions == []
      ensures litToClauseId == map[] && assertionToClauseId == map[] && litToNode == map[]
      ensures clauseIdToClause == map[] && litToTheoryProof == {}
      ensures this.trail == trail && this.value == value && this.reason == reason && this.reasonId == reasonId
    {
      assertionToClauseId, litToClauseId, clauseIdToLit, litToNode := map[], map[], map[], map[];
      clauseToNode, clauseToNodeDef, clauseIdToClause := map[], map[], map[];
      litToTheoryProof := {};
      resolution, resolutions := [], [];
      nextId, steps := 1, map[];
      this.trail, this.value, this.reason, this.reasonId := trail, value, reason, reasonId;
    }

    /** Adds a step to the proof object under the next id. */
    method AddProofStep(step: NewStep) returns (id: nat)
      requires Valid()
      modifies this`nextId, this`steps
      ensures Valid()
      ensures id == old(nextId) && id !in old(steps) && nextId == id + 1
      ensures steps == old(steps)[id := step]
    {
      id := nextId;
      nextId := nextId + 1;
      steps := steps[id := step];
    }

    /** `addInputAssertion`: a new INPUT step concluding the formula, which now has that id. */
    method AddInputAssertion(formula: Term)
      requires Valid()
      modifies this`nextId, this`steps, this`assertionToClauseId
      ensures Valid()
      ensures steps == old(steps)[old(nextId) := NewStep(RULE_INPUT, [], [formula])]
      ensures nextId == old(nextId) + 1
      ensures assertionToClauseId == old(assertionToClauseId)[formula := old(nextId)]
    {
      var id := AddProofStep(NewStep(RULE_INPUT, [], [formula]));
      assertionToClauseId := assertionToClauseId[formula := id];
    }

    /** `addInputSubAssertion`: a formula reached from several assertions keeps the first id. */
    method AddInputSubAssertion(formula: Term, id: nat)
      modifies this`assertionToClauseId
      ensures assertionToClauseId == KeepFirst(old(assertionToClauseId), formula, id)
    {
      if formula in assertionToClauseId {
        return;
      }
      assertionToClauseId := assertionToClauseId[formula := id];
    }

    /** `addAssertionProofStep`: a step from the id of `src` to `dest`, which gets the new id. */
    method AddAssertionProofStep(src: Term, dest: Term, rule: NewProofRule)
      requires Valid() && src in assertionToClauseId
      modifies this`nextId, this`steps, this`assertionToClauseId
      ensures Valid()
      ensures steps == old(steps)[old(nextId) := NewStep(rule, [old(assertionToClauseId)[src]], [dest])]
      ensures nextId == old(nextId) + 1
      ensures assertionToClauseId == old(assertionToClauseId)[dest := old(nextId)]
    {
      var id := AddProofStep(NewStep(rule, [assertionToClauseId[src]], [dest]));
      assertionToClauseId := assertionToClauseId[dest := id];
    }

    /** `addIteRemovalProofStep`: no step; the result of ITE removal takes the id of `src`. */
    method AddIteRemovalProofStep(src: Term, dest: Term)
      requires src in assertionToClauseId
      modifies this`assertionToClauseId
      ensures assertionToClauseId == old(assertionToClauseId)[dest := old(assertionToClauseId)[src]]
      ensures dest in assertionToClauseId && assertionToClauseId[dest] == old(assertionToClauseId)[src]
    {
      var id := assertionToClauseId[src];
      assertionToClauseId := assertionToClauseId[dest := id];
    }

    /** `addIteDefProofStep`: a new ITE_INTRO step concluding the definition. */
    method AddIteDefProofStep(def: Term)
      requires Valid()
      modifies this`nextId, this`steps, this`assertionToClauseId
      ensures Valid()
      ensures steps == old(steps)[old(nextId) := NewStep(RULE_ITE_INTRO, [], [def])]
      ensures nextId == old(nextId) + 1
      ensures assertionToClauseId == old(assertionToClauseId)[def := old(nextId)]
    {
      var id := AddProofStep(NewStep(RULE_ITE_INTRO, [], [def]));
      assertionToClauseId := assertionToClauseId[def := id];
    }

    /**
     * `addCnfProofStep(lit, id)`: a literal whose node is an input gets
     * the input's id, recorded both ways; any other literal keeps `id`.
     */
    method AddCnfProofStepLit(lit: SatLit, id: nat) returns (r: nat)
      requires Valid() && lit in litToNode
      modifies this`litToClauseId, this`clauseIdToLit
      ensures Valid()
      ensures litToNode[lit] !in assertionToClauseId ==>
        r == id && litToClauseId == old(litToClauseId) && clauseIdToLit == old(clauseIdToLit)
      ensures litToNode[lit] in assertionToClauseId ==>
        r == assertionToClauseId[litToNode[lit]]
        && litToClauseId == old(litToClauseId)[lit := r] && clauseIdToLit == old(clauseIdToLit)[r := lit]
    {
      var litDef := litToNode[lit];
      if litDef !in assertionToClauseId {
        return id;
      }
      r := assertionToClauseId[litDef];
      PairedRecord(litToClauseId, clauseIdToLit, lit, r);
      litToClauseId := litToClauseId[lit := r];
      clauseIdToLit := clauseIdToLit[r := lit];
    }

    method AddLitDef(lit: SatLit, litNode: Term)
      modifies this`litToNode
      ensures litToNode == old(litToNode)[lit := litNode]
    {
      litToNode := litToNode[lit := litNode];
    }

    /**
     * `addClauseDef(clause, node, def)`: a clause that has no definition
     * yet gets both its node and its definition; otherwise nothing changes.
     */
    method AddClauseDefWithNode(clause: nat, clauseNode: Term, clauseNodeDef: Term)
      requires Valid()
      modifies this`clauseToNode, this`clauseToNodeDef
      ensures Valid()
      ensures clause in old(clauseToNodeDef) ==>
        clauseToNode == old(clauseToNode) && clauseToNodeDef == old(clauseToNodeDef)
      ensures clause !in old(clauseToNodeDef) ==>
        clauseToNode == old(clauseToNode)[clause := clauseNode]
        && clauseToNodeDef == old(clauseToNodeDef)[clause := clauseNodeDef]
    {
      // the node and definition tables are kept in step
      assert clause !in clauseToNode || clause in clauseToNodeDef;
      if clause in clauseToNodeDef {
        return;
      }
      clauseToNode := clauseToNode[clause := clauseNode];
      clauseToNodeDef := clauseToNodeDef[clause := clauseNodeDef];
    }

    /** `addClauseDef(clause, def)`: the first definition is kept. */
    method AddClauseDef(clause: nat, clauseNodeDef: Term)
      requires Valid()
      modifies this`clauseToNodeDef
      ensures Valid()
      ensures clauseToNodeDef == KeepFirst(old(clauseToNodeDef), clause, clauseNodeDef)
    {
      if clause in clauseToNodeDef {
        return;
      }
      clauseToNodeDef := clauseToNodeDef[clause := clauseNodeDef];
    }

    /**
     * `registerClause(lit)`: a registered literal returns its id;
     * otherwise it gets a new placeholder step, recorded both ways.
     */
    method RegisterLit(lit: SatLit) returns (id: nat)
      requires Valid()
      modifies this`nextId, this`steps, this`litToClauseId, this`clauseIdToLit
      ensures Valid()
      ensures (litToClauseId, clauseIdToLit, id) == RegisterLitIds(old(litToClauseId), old(clauseIdToLit), old(nextId), lit)
      ensures lit in old(litToClauseId) ==> nextId == old(nextId) && steps == old(steps)
      ensures lit !in old(litToClauseId) ==> nextId == old(nextId) + 1 && steps == old(steps)[id := Placeholder]
    {
      if lit in litToClauseId {
        return litToClauseId[lit];
      }
      id := AddProofStep(Placeholder);
      PairedRecord(litToClauseId, clauseIdToLit, lit, id);
      litToClauseId := litToClauseId[lit := id];
      clauseIdToLit := clauseIdToLit[id := lit];
    }

    /**
     * `registerClause(lit, reason, def)`: a registered literal returns its
     * id. Otherwise a given definition is recorded as the literal's node,
     * and the id is the input's id (INPUT), the theory proof's or an
     * UNDEF step concluding the definition (THEORY_LEMMA), or a new
     * placeholder; it is recorded both ways.
     */
    method RegisterLitWithReason(lit: SatLit, reason: NewProofRule, litNodeDef: Term) returns (id: nat)
      requires Valid()
      requires lit !in litToClauseId && litNodeDef == Null ==> lit in litToNode
      requires lit !in litToClauseId && reason == RULE_INPUT ==>
        (if litNodeDef == Null then litToNode[lit] else litNodeDef) in assertionToClauseId
      modifies this`nextId, this`steps, this`litToClauseId, this`clauseIdToLit, this`litToNode
      ensures Valid()
      ensures lit in old(litToClauseId) ==>
        id == old(litToClauseId)[lit] && unchanged(this`nextId, this`steps, this`litToClauseId, this`clauseIdToLit, this`litToNode)
      ensures lit !in old(litToClauseId) ==>
        var def := if litNodeDef == Null then old(litToNode)[lit] else litNodeDef;
        litToNode == (if litNodeDef == Null then old(litToNode) else old(litToNode)[lit := litNodeDef])
        && litToClauseId == old(litToClauseId)[lit := id] && clauseIdToLit == old(clauseIdToLit)[id := lit]
        && (reason == RULE_INPUT ==> id == assertionToClauseId[def] && steps == old(steps))
        && (reason == RULE_THEORY_LEMMA && lit in litToTheoryProof ==>
              id == old(nextId) && steps == old(steps)[id := NewStep(RULE_THEORY_LEMMA, [], [def])])
        && (reason == RULE_THEORY_LEMMA && lit !in litToTheoryProof ==>
              id == old(nextId) && steps == old(steps)[id := NewStep(RULE_UNDEF, [], [def])])
        && (reason != RULE_INPUT && reason != RULE_THEORY_LEMMA ==>
              id == old(nextId) && steps == old(steps)[id := Placeholder])
    {
      if lit in litToClauseId {
        return litToClauseId[lit];
      }
      var def := litNodeDef;
      if def != Null {
        AddLitDef(lit, def);
      } else {
        def := litToNode[lit];
      }
      if reason == RULE_INPUT {
        id := assertionToClauseId[def];
      } else if reason == RULE_THEORY_LEMMA {
        if lit in litToTheoryProof {
          id := AddProofStep(NewStep(RULE_THEORY_LEMMA, [], [def]));
        } else {
          id := AddProofStep(NewStep(RULE_UNDEF, [], [def]));
        }
      } else {
        id := AddProofStep(Placeholder);
      }
      PairedRecord(litToClauseId, clauseIdToLit, lit, id);
      litToClauseId := litToClauseId[lit := id];
      clauseIdToLit := clauseIdToLit[id := lit];
    }

    /**
     * `registerClause(clause)`: a clause with a proof id returns it;
     * otherwise it gets a new placeholder step, stored on the clause and
     * in the id table.
     */
    method RegisterClauseObj(clause: SatClauseObj) returns (id: nat)
      requires Valid()
      requires clause.proofId != 0 ==> clause.proofId in clauseIdToClause
      modifies this`nextId, this`steps, this`clauseIdToClause, clause`proofId
      ensures Valid() && id != 0 && clause.proofId == id
      ensures old(clause.proofId) != 0 ==>
        id == old(clause.proofId) && unchanged(this`nextId, this`steps, this`clauseIdToClause)
      ensures old(clause.proofId) == 0 ==>
        id == old(nextId) && nextId == id + 1 && steps == old(steps)[id := Placeholder]
        && clauseIdToClause == old(clauseIdToClause)[id := clause]
    {
      if clause.proofId != 0 {
        return clause.proofId;
      }
      id := AddProofStep(Placeholder);
      clause.proofId := id;
      clauseIdToClause := clauseIdToClause[id := clause];
    }

    /**
     * `addResolutionStep(lit, clause, sign)`: the clause is registered
     * (the second registration finds the id of the first) and a link with
     * the literal's node as pivot is appended to the chain being built.
     */
    method AddResolutionStep(lit: SatLit, clause: SatClauseObj, sign: bool)
      requires Valid() && lit in litToNode
      requires clause.proofId != 0 ==> clause.proofId in clauseIdToClause
      modifies this`nextId, this`steps, this`clauseIdToClause, clause`proofId, this`resolution
      ensures Valid() && clause.proofId != 0
      ensures resolution == old(resolution) + [ResLink(clause.proofId, litToNode[lit], sign)]
      ensures old(clause.proofId) != 0 ==>
        clause.proofId == old(clause.proofId) && unchanged(this`nextId, this`steps, this`clauseIdToClause)
      ensures old(clause.proofId) == 0 ==>
        clause.proofId == old(nextId) && nextId == old(nextId) + 1
        && steps == old(steps)[old(nextId) := Placeholder]
        && clauseIdToClause == old(clauseIdToClause)[old(nextId) := clause]
    {
      var first := RegisterClauseObj(clause);
      var id := RegisterClauseObj(clause);
      resolution := resolution + [ResLink(id, litToNode[lit], sign)];
    }

    /** `endResChain(lit)`: ends the chain concluding the literal's clause. */
    method EndResChainLit(lit: SatLit)
      requires lit in litToClauseId && |resolution| > 0
      modifies this`resolution, this`resolutions
      ensures resolutions == old(resolutions) + [old(resolution)] && resolution == []
    {
      EndResChain(litToClauseId[lit]);
    }

    /** `endResChain(id)`: the chain built so far is saved and the buffer cleared. */
    method EndResChain(id: nat)
      requires |resolution| > 0
      modifies this`resolution, this`resolutions
      ensures resolutions == old(resolutions) + [old(resolution)] && resolution == []
    {
      resolutions := resolutions + [resolution];
      resolution := [];
    }

    method QueueTheoryProof(lit: SatLit)
      requires lit !in litToTheoryProof
      modifies this`litToTheoryProof
      ensures litToTheoryProof == old(litToTheoryProof) + {lit}
    {
      litToTheoryProof := litToTheoryProof + {lit};
    }

    /**
     * `justifyLit`: a literal with an id returns it. Otherwise the
     * negation of every other literal of its reason is justified first,
     * then a RESOLUTION step from the reason's id and those justifications
     * concludes the literal's node, and its id is recorded both ways.
     * `ok` is false when an assertion of CVC4 fails: the literal has
     * no reason, the reason has no proof id, or a node is missing.
     */
    method JustifyLit(lit: SatLit) returns (ok: bool, id: nat)
      requires Valid() && SolverConsistent() && Justifiable(lit)
      modifies this`nextId, this`steps, this`litToClauseId, this`clauseIdToLit
      ensures Valid()
      ensures lit in old(litToClauseId) ==>
        ok && id == old(litToClauseId)[lit] && unchanged(this`nextId, this`steps, this`litToClauseId, this`clauseIdToLit)
      ensures Grows(old(litToClauseId), litToClauseId) && Grows(old(steps), steps) && old(nextId) <= nextId
      ensures forall l :: l in litToClauseId && l !in old(litToClauseId) ==> trail(l.v) <= trail(lit.v)
      ensures ok ==> lit in litToClauseId && litToClauseId[lit] == id
      ensures ok && lit !in old(litToClauseId) ==> Derived(lit, id)
      decreases trail(lit.v), 2
    {
      if lit in litToClauseId {
        return true, litToClauseId[lit];
      }
      ok, id := DeriveLit(lit);
    }

    /**
     * The step of `id` derives `lit`: it resolves the reason of `lit` with
     * the justifications of the reason's other literals, and `id` is
     * recorded as the literal's.
     */
    ghost predicate Derived(lit: SatLit, id: nat)
      reads this
    {
      reason(lit.v).Some? && lit in litToNode && id in steps && id in clauseIdToLit && clauseIdToLit[id] == lit
      && var c := reason(lit.v).value;
      AllJustified(litToClauseId, Others(c, lit))
      && steps[id] == NewStep(RULE_RESOLUTION, [reasonId(lit.v)] + JustIds(litToClauseId, Others(c, lit)),
                              [litToNode[lit]])
    }

    /** The part of `justifyLit` after the memo lookup. */
    method DeriveLit(lit: SatLit) returns (ok: bool, id: nat)
      requires Valid() && SolverConsistent() && IsTrue(lit) && lit !in litToClauseId
      modifies this`nextId, this`steps, this`litToClauseId, this`clauseIdToLit
      ensures Valid()
      ensures Grows(old(litToClauseId), litToClauseId) && Grows(old(steps), steps) && old(nextId) <= nextId
      ensures forall l :: l in litToClauseId && l !in old(litToClauseId) ==> trail(l.v) <= trail(lit.v)
      ensures ok ==> lit in litToClauseId && litToClauseId[lit] == id && Derived(lit, id)
      decreases trail(lit.v), 1
    {
      if reason(lit.v).None? || reasonId(lit.v) == 0 {
        return false, 0;
      }
      var c := reason(lit.v).value;
      var premises;
      ok, premises := JustifyReason(lit, c);
      if !ok || lit !in litToNode {
        return false, 0;
      }
      id := AddProofStep(NewStep(RULE_RESOLUTION, premises, [litToNode[lit]]));
      PairedRecord(litToClauseId, clauseIdToLit, lit, id);
      JustIdsGrow(litToClauseId, litToClauseId[lit := id], Others(c, lit));
      litToClauseId := litToClauseId[lit := id];
      clauseIdToLit := clauseIdToLit[id := lit];
    }

    /**
     * One turn of the loops over a reason or a conflict: the negation of
     * `l` is justified and its id appended to the ids of the literals
     * `done` before it.
     */
    method JustifyNext(l: SatLit, ghost done: seq<SatLit>) returns (ok: bool, sub: nat)
      requires Valid() && SolverConsistent() && Justifiable(Neg(l))
      requires AllJustified(litToClauseId, done)
      modifies this`nextId, this`steps, this`litToClauseId, this`clauseIdToLit
      ensures Valid()
      ensures Grows(old(litToClauseId), litToClauseId) && Grows(old(steps), steps) && old(nextId) <= nextId
      ensures forall x :: x in litToClauseId && x !in old(litToClauseId) ==> trail(x.v) <= trail(l.v)
      ensures ok ==> AllJustified(litToClauseId, done + [l])
                     && JustIds(litToClauseId, done + [l]) == old(JustIds(litToClauseId, done)) + [sub]
      decreases trail(l.v), 3
    {
      ghost var before := litToClauseId;
      ok, sub := JustifyLit(Neg(l));
      if ok {
        JustIdsGrow(before, litToClauseId, done);
        JustIdsSnoc(litToClauseId, done, l);
      }
    }

    /**
     * The loop of `justifyLit` over the reason `c` of `lit`: the reason's
     * id, then the justification of the negation of each other literal.
     */
    method JustifyReason(lit: SatLit, c: seq<SatLit>) returns (ok: bool, premises: seq<nat>)
      requires Valid() && SolverConsistent() && IsTrue(lit)
      requires lit !in litToClauseId && reason(lit.v) == Some(c)
      modifies this`nextId, this`steps, this`litToClauseId, this`clauseIdToLit
      ensures Valid() && lit !in litToClauseId
      ensures Grows(old(litToClauseId), litToClauseId) && Grows(old(steps), steps) && old(nextId) <= nextId
      ensures forall l :: l in litToClauseId && l !in old(litToClauseId) ==> trail(l.v) < trail(lit.v)
      ensures ok ==> AllJustified(litToClauseId, Others(c, lit))
                     && premises == [reasonId(lit.v)] + JustIds(litToClauseId, Others(c, lit))
      decreases trail(lit.v), 0
    {
      ghost var ids0, steps0 := litToClauseId, steps;
      var ids := [];
      ghost var done: seq<SatLit> := [];
      var i := 0;
      while i < |c|
        invariant 0 <= i <= |c| && done == Others(c[..i], lit)
        invariant Valid() && lit !in litToClauseId
        invariant ExtendsSince(ids0, steps0, old(nextId), trail(lit.v))
        invariant AllJustified(litToClauseId, done)
        invariant ids == JustIds(litToClauseId, done)
      {
        var cur := c[i];
        OthersPrefixSnoc(c, i, lit);
        ghost var nextDone := if cur != lit then done + [cur] else done;
        assert nextDone == Others(c[..i + 1], lit);
        if cur != lit {
          if cur !in litToNode {
            return false, [];
          }
          // only the first literal of the reason is on the literal's variable, and it is the literal
          assert i >= 1 && !IsTrue(cur) && trail(cur.v) < trail(lit.v);
          var subOk, sub := JustifyNext(cur, done);
          if !subOk {
            return false, [];
          }
          ids := ids + [sub];
          done := done + [cur];
        }
        i := i + 1;
      }
      assert c[..|c|] == c;
      return true, [reasonId(lit.v)] + ids;
    }

    /**
     * The loop of `finalizeProof(id)`: the justification of the negation
     * of each literal of the conflict, in order.
     */
    method JustifyConflict(conflict: seq<SatLit>) returns (ok: bool, ids: seq<nat>)
      requires Valid() && SolverConsistent()
      requires forall l :: l in conflict ==> Justifiable(Neg(l))
      modifies this`nextId, this`steps, this`litToClauseId, this`clauseIdToLit
      ensures Valid()
      ensures Grows(old(litToClauseId), litToClauseId) && Grows(old(steps), steps)
      ensures ok ==> AllJustified(litToClauseId, conflict) && ids == JustIds(litToClauseId, conflict)
    {
      ghost var ids0, steps0 := litToClauseId, steps;
      ids := [];
      ghost var done: seq<SatLit> := [];
      var i := 0;
      while i < |conflict|
        invariant 0 <= i <= |conflict| && done == conflict[..i] && Valid()
        invariant Grows(ids0, litToClauseId) && Grows(steps0, steps)
        invariant AllJustified(litToClauseId, done)
        invariant ids == JustIds(litToClauseId, done)
      {
        var l := conflict[i];
        if l !in litToNode {
          return false, ids;
        }
        assert Justifiable(Neg(l)) by {
          assert l in conflict;
        }
        var subOk, sub := JustifyNext(l, done);
        if !subOk {
          return false, ids;
        }
        ids := ids + [sub];
        done := done + [l];
        i := i + 1;
      }
      assert done == conflict;
      ok := true;
    }

    /** The literals of the conflict with this id: its clause's, or the literal recorded for it. */
    function ConflictLits(conflictId: nat): seq<SatLit>
      requires conflictId in clauseIdToClause || conflictId in clauseIdToLit
      reads this, if conflictId in clauseIdToClause then {clauseIdToClause[conflictId]} else {}
    {
      if conflictId in clauseIdToClause then clauseIdToClause[conflictId].lits else [clauseIdToLit[conflictId]]
    }

    /**
     * `finalizeProof(id)`: each literal of the conflict is resolved away
     * with the justification of its negation, in a final RESOLUTION step
     * with a null conclusion.
     */
    method FinalizeProofId(conflictId: nat) returns (ok: bool)
      requires Valid() && SolverConsistent()
      requires conflictId in clauseIdToClause || conflictId in clauseIdToLit
      requires forall l :: l in ConflictLits(conflictId) ==> Justifiable(Neg(l))
      modifies this`nextId, this`steps, this`litToClauseId, this`clauseIdToLit
      ensures Valid()
      ensures Grows(old(litToClauseId), litToClauseId) && Grows(old(steps), steps)
      ensures ok ==>
        var conflict := old(ConflictLits(conflictId));
        AllJustified(litToClauseId, conflict)
        && nextId >= 1 && nextId - 1 in steps
        && steps[nextId - 1] == NewStep(RULE_RESOLUTION, [conflictId] + JustIds(litToClauseId, conflict), [Null])
    {
      var conflict := ConflictLits(conflictId);
      var ids;
      ok, ids := JustifyConflict(conflict);
      if !ok {
        return;
      }
      var id := AddProofStep(NewStep(RULE_RESOLUTION, [conflictId] + ids, [Null]));
    }

    /**
     * `finalizeProof(lit)`, for a false unit clause: a literal with an id
     * is finalized under that id (which the paired tables guarantee is a
     * recorded conflict); otherwise it takes its input's id, recorded both
     * ways, first.
     */
    method FinalizeProofLit(lit: SatLit) returns (ok: bool)
      requires Valid() && SolverConsistent()
      requires lit in litToClauseId ==>
        forall l :: l in ConflictLits(litToClauseId[lit]) ==> Justifiable(Neg(l))
      requires lit !in litToClauseId ==>
        lit in litToNode && litToNode[lit] in assertionToClauseId
        && var id := assertionToClauseId[litToNode[lit]];
           forall l :: l in (if id in clauseIdToClause then clauseIdToClause[id].lits else [lit]) ==>
             Justifiable(Neg(l))
      modifies this`nextId, this`steps, this`litToClauseId, this`clauseIdToLit
      ensures Valid()
      ensures lit in litToClauseId
      ensures lit !in old(litToClauseId) ==> litToClauseId[lit] == assertionToClauseId[litToNode[lit]]
      ensures Grows(old(steps), steps)
      ensures ok && lit in old(litToClauseId) ==>
        var conflict := old(ConflictLits(litToClauseId[lit]));
        nextId - 1 in steps
        && AllJustified(litToClauseId, conflict)
        && steps[nextId - 1] == NewStep(RULE_RESOLUTION, [litToClauseId[lit]] + JustIds(litToClauseId, conflict), [Null])
      ensures ok && lit !in old(litToClauseId) ==>
        var conflictId := litToClauseId[lit];
        var conflict := old(if conflictId in clauseIdToClause then clauseIdToClause[conflictId].lits else [lit]);
        nextId - 1 in steps
        && AllJustified(litToClauseId, conflict)
        && steps[nextId - 1] == NewStep(RULE_RESOLUTION, [conflictId] + JustIds(litToClauseId, conflict), [Null])
    {
      if lit in litToClauseId {
        var conflictId := litToClauseId[lit];
        ok := FinalizeProofId(conflictId);
        return;
      }
      var litDef := litToNode[lit];
      var id := assertionToClauseId[litDef];
      PairedRecord(litToClauseId, clauseIdToLit, lit, id);
      litToClauseId := litToClauseId[lit := id];
      clauseIdToLit := clauseIdToLit[id := lit];
      ok := FinalizeProofId(id);
    }

    /** `finalizeProof()`: the last step added is the conflicting one. */
    method FinalizeProofLast() returns (ok: bool, conflictId: nat)
      requires Valid() && SolverConsistent()
      requires nextId - 1 in clauseIdToClause || nextId - 1 in clauseIdToLit
      requires forall l :: l in ConflictLits(nextId - 1) ==> Justifiable(Neg(l))
      modifies this`nextId, this`steps, this`litToClauseId, this`clauseIdToLit
      ensures Valid() && conflictId == old(nextId) - 1
      ensures ok ==>
        var conflict := old(ConflictLits(nextId - 1));
        nextId - 1 in steps
        && AllJustified(litToClauseId, conflict)
        && steps[nextId - 1] == NewStep(RULE_RESOLUTION, [conflictId] + JustIds(litToClauseId, conflict), [Null])
    {
      conflictId := nextId - 1;
      ok := FinalizeProofId(conflictId);
    }
  }
}
