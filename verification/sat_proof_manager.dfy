/**
 * Proof production for the SAT solver: the resolution chains the solver
 * performs while learning clauses are buffered as links and turned into
 * CHAIN_RESOLUTION steps; propagated literals are explained from their
 * reason clauses; the proof of `false` is closed by a fixpoint that
 * explains every literal left as a free assumption.
 *
 * The SAT solver and the CNF stream are abstracted: each SAT variable has
 * an atom node, a literal's node is the atom or its negation, the solver's
 * reason lookup is a partial function from variable to clause (first
 * literal the propagated one), and every reason only mentions variables
 * assigned earlier on the trail.
 */
module SatProof {
  import opened Terms
  import opened Resolution
  import opened ProofRules
  import opened SatClauses

  /**
   * A resolution link: the clause resolved in, the pivot, and whether the
   * pivot occurs as is in the clause accumulated so far (and negated in
   * this clause).
   */
  datatype Link = Link(clause: Term, pivot: Term, posFirst: bool)

  /** The link's clause is an OR node having `lit` among its children. */
  predicate IncludesLit(link: Link, lit: Term)
  {
    KindOf(link.clause) == OR && lit in Children(link.clause)
  }

  /** Literals of the OR clauses of a list of links. */
  function LinkLits(links: seq<Link>): set<Term>
  {
    if |links| == 0 then {}
    else
      var last := links[|links| - 1];
      LinkLits(links[..|links| - 1])
        + (if KindOf(last.clause) == OR then set x | x in Children(last.clause) else {})
  }

  lemma {:induction false} IncludedInLinkLits(links: seq<Link>, j: nat, x: Term)
    requires j < |links| && IncludesLit(links[j], x)
    ensures x in LinkLits(links)
    decreases |links|
  {
    if j < |links| - 1 {
      IncludedInLinkLits(links[..|links| - 1], j, x);
    }
  }

  /** Premise k >= 1 of a chain together with its polarity and pivot arguments. */
  function LinksOf(premises: seq<Term>, pivots: seq<Term>): (r: seq<(Term, Term, Term)>)
    requires |premises| >= 1 && |pivots| == 2 * (|premises| - 1)
    ensures |r| == |premises| - 1
    ensures forall m :: 0 <= m < |r| ==> r[m] == (premises[m + 1], pivots[2 * m], pivots[2 * m + 1])
  {
    seq(|premises| - 1, m requires 0 <= m < |premises| - 1 =>
      (premises[m + 1], pivots[2 * m], pivots[2 * m + 1]))
  }

  /** Inserting a copy of premise k and of its two arguments repeats link k. */
  lemma DuplicateLink(premises: seq<Term>, pivots: seq<Term>, k: nat)
    requires |premises| >= 1 && |pivots| == 2 * (|premises| - 1)
    requires 1 <= k < |premises|
    ensures var p' := premises[..k] + [premises[k]] + premises[k..];
            var v' := pivots[..2 * (k - 1)] + [pivots[2 * (k - 1)], pivots[2 * k - 1]] + pivots[2 * (k - 1)..];
            var l := LinksOf(premises, pivots);
            |v'| == 2 * (|p'| - 1)
            && LinksOf(p', v') == l[..k - 1] + [l[k - 1]] + l[k - 1..]
  {
    var p' := premises[..k] + [premises[k]] + premises[k..];
    var v' := pivots[..2 * (k - 1)] + [pivots[2 * (k - 1)], pivots[2 * k - 1]] + pivots[2 * (k - 1)..];
    var l := LinksOf(premises, pivots);
    var l' := LinksOf(p', v');
    var e := l[..k - 1] + [l[k - 1]] + l[k - 1..];
    assert |l'| == |e|;
    forall m | 0 <= m < |l'|
      ensures l'[m] == e[m]
    {
      if m < k - 1 {
        assert p'[m + 1] == premises[m + 1];
        assert v'[2 * m] == pivots[2 * m] && v'[2 * m + 1] == pivots[2 * m + 1];
      } else if m == k - 1 {
        assert p'[m + 1] == premises[k];
      } else {
        assert p'[m + 1] == premises[m];
        assert v'[2 * m] == pivots[2 * (m - 1)] && v'[2 * m + 1] == pivots[2 * (m - 1) + 1];
      }
    }
  }

  lemma DuplicateLinkMultiset(l: seq<(Term, Term, Term)>, k: nat)
    requires 1 <= k <= |l|
    ensures multiset(l[..k - 1] + [l[k - 1]] + l[k - 1..]) == multiset(l) + multiset{l[k - 1]}
    ensures forall x :: x in l[..k - 1] + [l[k - 1]] + l[k - 1..] ==> x in l
  {
    assert l == l[..k - 1] + l[k - 1..];
  }

  /** Entries (literal, index of its last inclusion), ordered by index. */
  predicate SortedByIndex(s: seq<(Term, nat)>)
  {
    forall a, b :: 0 <= a < b < |s| ==> s[a].1 <= s[b].1
  }

  predicate DistinctLits(s: seq<(Term, nat)>)
  {
    forall a, b :: 0 <= a < b < |s| ==> s[a].0 != s[b].0
  }

  /** Every queued literal is mapped to its own index. */
  predicate Consistent(s: seq<(Term, nat)>, m: map<Term, nat>)
  {
    forall a :: 0 <= a < |s| ==> s[a].0 in m && m[s[a].0] == s[a].1
  }

  /** The position after every entry whose index is not above `idx`. */
  function InsertPos(s: seq<(Term, nat)>, idx: nat): (p: nat)
    requires SortedByIndex(s)
    ensures p <= |s|
    ensures forall a :: 0 <= a < p ==> s[a].1 <= idx
    ensures forall a :: p <= a < |s| ==> idx < s[a].1
    decreases |s|
  {
    if |s| == 0 || idx < s[0].1 then 0 else 1 + InsertPos(s[1..], idx)
  }

  /** The number of entries whose index is below `idx`: the position after them. */
  function StrictPos(s: seq<(Term, nat)>, idx: nat): (p: nat)
    requires SortedByIndex(s)
    ensures p <= |s|
    ensures forall a :: 0 <= a < p ==> s[a].1 < idx
    ensures forall a :: p <= a < |s| ==> idx <= s[a].1
    decreases |s|
  {
    if |s| == 0 || idx <= s[0].1 then 0 else 1 + StrictPos(s[1..], idx)
  }

  /** A position with the smaller indices before it and the others after it is StrictPos. */
  lemma {:induction false} StrictPosIs(s: seq<(Term, nat)>, idx: nat, l: nat)
    requires SortedByIndex(s) && l <= |s|
    requires l > 0 ==> s[l - 1].1 < idx
    requires forall a :: l <= a < |s| ==> idx <= s[a].1
    ensures StrictPos(s, idx) == l
    decreases |s|
  {
    if |s| > 0 && s[0].1 < idx {
      StrictPosIs(s[1..], idx, l - 1);
    }
  }

  /** Inserting a new literal at a position that respects the order keeps the queue well formed. */
  lemma InsertEntry(s: seq<(Term, nat)>, m: map<Term, nat>, l: nat, e: (Term, nat))
    requires SortedByIndex(s) && DistinctLits(s) && Consistent(s, m)
    requires l <= |s|
    requires forall a :: 0 <= a < l ==> s[a].1 <= e.1
    requires forall a :: l <= a < |s| ==> e.1 <= s[a].1
    requires e.0 !in m
    ensures var s' := s[..l] + [e] + s[l..];
            SortedByIndex(s') && DistinctLits(s') && Consistent(s', m[e.0 := e.1])
  {
    var s' := s[..l] + [e] + s[l..];
    assert forall a :: 0 <= a < |s'| ==> s'[a] == (if a < l then s[a] else if a == l then e else s[a - 1]);
  }

  /**
   * Maps a new literal to the index of its last inclusion and queues it
   * after the last entry with a smaller index (not at all when there is
   * none); the entries with smaller indices keep their positions.
   */
  method QueueLit(lit: Term, index: nat, lastInclusion0: seq<(Term, nat)>, lastInclusionMap0: map<Term, nat>)
    returns (lastInclusion: seq<(Term, nat)>, lastInclusionMap: map<Term, nat>)
    requires SortedByIndex(lastInclusion0) && DistinctLits(lastInclusion0)
    requires Consistent(lastInclusion0, lastInclusionMap0) && lit !in lastInclusionMap0
    ensures SortedByIndex(lastInclusion) && DistinctLits(lastInclusion)
    ensures Consistent(lastInclusion, lastInclusionMap)
    ensures lastInclusionMap == lastInclusionMap0[lit := index]
    ensures |lastInclusion0| <= |lastInclusion| <= |lastInclusion0| + 1
    ensures forall a :: 0 <= a < |lastInclusion0| && lastInclusion0[a].1 < index ==>
      lastInclusion[a] == lastInclusion0[a]
    ensures var l := StrictPos(lastInclusion0, index);
      lastInclusion == if l > 0 then lastInclusion0[..l] + [(lit, index)] + lastInclusion0[l..] else lastInclusion0
  {
    lastInclusion := lastInclusion0;
    var l := |lastInclusion|;
    while l > 0 && index <= lastInclusion[l - 1].1
      invariant 0 <= l <= |lastInclusion|
      invariant forall m :: l <= m < |lastInclusion| ==> index <= lastInclusion[m].1
    {
      l := l - 1;
    }
    StrictPosIs(lastInclusion0, index, l);
    if l > 0 {
      InsertEntry(lastInclusion, lastInclusionMap0, l, (lit, index));
      lastInclusion := lastInclusion[..l] + [(lit, index)] + lastInclusion[l..];
    }
    lastInclusionMap := lastInclusionMap0[lit := index];
  }

  /** The premises of the chain a list of links denotes: the links' clauses. */
  function ChainChildren(links: seq<Link>): (r: seq<Term>)
    ensures |r| == |links| && forall i :: 0 <= i < |links| ==> r[i] == links[i].clause
  {
    seq(|links|, i requires 0 <= i < |links| => links[i].clause)
  }

  /**
   * The arguments of that chain: for each link after the first, its
   * polarity as a Boolean constant, then its pivot.
   */
  function ChainArgs(links: seq<Link>): (r: seq<Term>)
    requires |links| >= 1
    ensures |r| == 2 * (|links| - 1)
    ensures forall j :: 1 <= j < |links| ==>
      PolArg(r, j) == BoolConst(links[j].posFirst) && PivotArg(r, j) == links[j].pivot
  {
    seq(2 * (|links| - 1), j requires 0 <= j < 2 * (|links| - 1) =>
      var h := Half(j, |links| - 1); if j == 2 * h then BoolConst(links[h + 1].posFirst) else links[h + 1].pivot)
  }

  /**
   * The chain built from the links resolves exactly as the links say: link
   * j of the chain eliminates a literal iff link j does, and premise j is
   * the clause of link j.
   */
  lemma ChainOfLinks(links: seq<Link>, j: nat, lit: Term)
    requires 1 <= j < |links|
    ensures WellFormedChain(ChainChildren(links), ChainArgs(links))
    ensures ChainChildren(links)[j] == links[j].clause
    ensures LinkEliminates(ChainChildren(links), ChainArgs(links), j, lit)
            <==> Eliminates(lit, links[j].pivot, links[j].posFirst)
  {
    var args := ChainArgs(links);
    assert PolArg(args, j) == BoolConst(links[j].posFirst) && PivotArg(args, j) == links[j].pivot;
  }

  /** A sequence that agrees with the arguments of a chain at every pair is those arguments. */
  lemma SameChainArgs(links: seq<Link>, args: seq<Term>)
    requires |links| >= 1 && |args| == 2 * (|links| - 1)
    requires forall j :: 1 <= j < |links| ==>
      PolArg(args, j) == BoolConst(links[j].posFirst) && PivotArg(args, j) == links[j].pivot
    ensures args == ChainArgs(links)
  {
    SameArgs(args, ChainArgs(links), |links| - 1);
  }

  /**
   * Whether CVC4 treats a link's clause as a clause: an OR node that
   * is not itself the atom the pivot negates.
   */
  predicate TreatedAsClause(link: Link)
  {
    KindOf(link.clause) == OR
    && !(KindOf(link.pivot) == NOT && |Children(link.pivot)| >= 1
         && KindOf(Children(link.pivot)[0]) == OR && Children(link.pivot)[0] == link.clause)
  }

  /** A store after adding a step for `fact` unless `fact` already has one. */
  function AddedFirst(store: map<Term, ProofStep>, fact: Term, step: ProofStep): (r: map<Term, ProofStep>)
    ensures fact in r && r.Keys == store.Keys + {fact}
    ensures forall f :: f in store ==> r[f] == store[f]
    ensures fact !in store ==> r[fact] == step
  {
    if fact in store then store else store[fact := step]
  }

  /**
   * A step concludes `fact` as far as the model can tell: a well-formed
   * CHAIN_RESOLUTION concludes it. The factoring and reordering steps of
   * a reduced chain are checked by rules outside this model.
   */
  predicate StepConcludes(fact: Term, step: ProofStep)
  {
    step.rule == CHAIN_RESOLUTION && WellFormedChain(step.children, step.args)
    ==> ChainConclusion(step.children, step.args) == fact
  }

  /**
   * Every CHAIN_RESOLUTION step of a store concludes its fact: a
   * well-formed chain's conclusion is the fact it is stored for.
   */
  predicate StoreConcludes(store: map<Term, ProofStep>)
  {
    forall f :: f in store ==> StepConcludes(f, store[f])
  }

  lemma AddedFirstConcludes(store: map<Term, ProofStep>, fact: Term, step: ProofStep)
    requires StoreConcludes(store) && StepConcludes(fact, step)
    ensures StoreConcludes(AddedFirst(store, fact, step))
  {
  }

  /** Every step of a buffer concludes the fact it is buffered for. */
  predicate BufferConcludes(buffer: seq<(Term, ProofStep)>)
  {
    forall m :: 0 <= m < |buffer| ==> StepConcludes(buffer[m].0, buffer[m].1)
  }

  /** The store after adding the buffered steps in order, each unless its fact already has one. */
  function AddedAll(store: map<Term, ProofStep>, buffer: seq<(Term, ProofStep)>): (r: map<Term, ProofStep>)
    ensures r.Keys == store.Keys + set m | 0 <= m < |buffer| :: buffer[m].0
    ensures forall f :: f in store ==> r[f] == store[f]
    decreases |buffer|
  {
    if buffer == [] then store
    else
      var last := buffer[|buffer| - 1];
      var r := AddedFirst(AddedAll(store, buffer[..|buffer| - 1]), last.0, last.1);
      assert r.Keys == store.Keys + set m | 0 <= m < |buffer| :: buffer[m].0 by {
        forall f | f in r.Keys
          ensures f in store.Keys + set m | 0 <= m < |buffer| :: buffer[m].0
        {
          if f !in store.Keys && f != last.0 {
            var m :| 0 <= m < |buffer| - 1 && buffer[..|buffer| - 1][m].0 == f;
            assert buffer[m].0 == f;
          }
        }
        forall m | 0 <= m < |buffer|
          ensures buffer[m].0 in r.Keys
        {
          if m < |buffer| - 1 {
            assert buffer[..|buffer| - 1][m].0 == buffer[m].0;
          }
        }
      }
      r
  }

  /** The first buffered step for a fact the store lacks is the one recorded. */
  lemma {:induction false} AddedAllFirst(store: map<Term, ProofStep>, buffer: seq<(Term, ProofStep)>, m: nat)
    requires m < |buffer| && buffer[m].0 !in store
    requires forall m' :: 0 <= m' < m ==> buffer[m'].0 != buffer[m].0
    ensures AddedAll(store, buffer)[buffer[m].0] == buffer[m].1
    decreases |buffer|
  {
    var init := buffer[..|buffer| - 1];
    if m < |buffer| - 1 {
      AddedAllFirst(store, init, m);
      assert buffer[m].0 in AddedAll(store, init);
    }
  }

  lemma {:induction false} AddedAllConcludes(store: map<Term, ProofStep>, buffer: seq<(Term, ProofStep)>)
    requires StoreConcludes(store) && BufferConcludes(buffer)
    ensures StoreConcludes(AddedAll(store, buffer))
    decreases |buffer|
  {
    if buffer != [] {
      var init := buffer[..|buffer| - 1];
      assert BufferConcludes(init) by {
        forall m | 0 <= m < |init|
          ensures StepConcludes(init[m].0, init[m].1)
        {
          assert init[m] == buffer[m];
        }
      }
      AddedAllConcludes(store, init);
      AddedFirstConcludes(AddedAll(store, init), buffer[|buffer| - 1].0, buffer[|buffer| - 1].1);
    }
  }

  /**
   * What reducing clause `n` may return: steps that conclude their facts,
   * and a reduced clause that is `n` itself or the fact of one of them.
   */
  predicate ReducedBy(n: Term, reduced: (seq<(Term, ProofStep)>, Term))
  {
    BufferConcludes(reduced.0)
    && (reduced.1 == n || exists m :: 0 <= m < |reduced.0| && reduced.0[m].0 == reduced.1)
  }

  /** The literals of the expected conclusion: the clause itself when it is a unit. */
  function TargetLits(conclusion: Term, conclusionLits: multiset<SatLit>): seq<Term>
  {
    if |conclusionLits| == 1 then [conclusion] else Children(conclusion)
  }

  /** Link `x` (premise, polarity, pivot) eliminates a literal missing from the target clause. */
  ghost predicate EliminatesOffending(x: (Term, Term, Term), targetLits: seq<Term>)
  {
    exists l :: l !in targetLits && Eliminates(l, x.2, x.1 == True)
  }

  /** Every link that occurs more often in `m` than in `m0` eliminates a literal missing from the target. */
  ghost predicate AddedLinksEliminate(m0: multiset<(Term, Term, Term)>, m: multiset<(Term, Term, Term)>,
                                targetLits: seq<Term>)
  {
    forall x :: m0[x] < m[x] ==> EliminatesOffending(x, targetLits)
  }

  lemma EliminatesOffendingBy(x: (Term, Term, Term), lit: Term, targetLits: seq<Term>)
    requires lit !in targetLits && Eliminates(lit, x.2, x.1 == True)
    ensures EliminatesOffending(x, targetLits)
  {
  }

  lemma RepeatedLinkEliminates(m0: multiset<(Term, Term, Term)>, x: (Term, Term, Term), count: nat,
                                targetLits: seq<Term>)
    requires EliminatesOffending(x, targetLits)
    ensures AddedLinksEliminate(m0, m0 + multiset{}[x := count], targetLits)
  {
  }

  lemma AddedLinksEliminateTrans(m0: multiset<(Term, Term, Term)>, m1: multiset<(Term, Term, Term)>,
                                 m2: multiset<(Term, Term, Term)>, targetLits: seq<Term>)
    requires AddedLinksEliminate(m0, m1, targetLits) && AddedLinksEliminate(m1, m2, targetLits)
    ensures AddedLinksEliminate(m0, m2, targetLits)
  {
  }

  /**
   * The link buffer after ending a chain, as the code is written: the
   * early return for a chain of a single premise skips the final clearing
   * and leaves that link in the buffer.
   */
  function LinksAfterEndAsWritten(links: seq<Link>): (r: seq<Link>)
    requires |links| >= 1
    ensures |links| == 1 ==> r == links
    ensures |links| >= 2 ==> r == []
  {
    if |links| == 1 then links else []
  }

  /**
   * What that leftover does: the next chain, started on clause `next`,
   * resolves the previous chain's clause `stale` against `next` on the
   * null pivot instead of starting at `next`.
   */
  lemma StaleLinkAfterSinglePremiseChain(stale: Term, next: Term)
    ensures var links := LinksAfterEndAsWritten([Link(stale, Null, true)]) + [Link(next, Null, true)];
            ChainChildren(links) == [stale, next] && ChainArgs(links) == [True, Null]
  {
    var links := LinksAfterEndAsWritten([Link(stale, Null, true)]) + [Link(next, Null, true)];
    assert links == [Link(stale, Null, true), Link(next, Null, true)];
  }

  /**
   * Every stored fact of `s` has its step's premises in `s` or still to be
   * visited in `todo`.
   */
  predicate ClosedWithin(store: map<Term, ProofStep>, s: set<Term>, todo: seq<Term>)
  {
    forall f, c :: f in s && f in store && c in store[f].children ==> c in s || c in todo
  }

  lemma DiffShrinks<T>(k: set<T>, s: set<T>, x: T)
    requires x in k && x !in s
    ensures |k - (s + {x})| < |k - s|
  {
    assert k - s == (k - (s + {x})) + {x};
  }

  /**
   * The facts reached from `todo` (and those already `seen`) by expanding
   * every fact that has a stored step into the step's premises; a fact
   * without a step is a leaf. Cycles through the store are cut by `seen`.
   */
  function Reach(store: map<Term, ProofStep>, todo: seq<Term>, seen: set<Term>): (r: set<Term>)
    ensures seen <= r && forall t :: t in todo ==> t in r
    ensures ClosedWithin(store, seen, todo) ==> ClosedWithin(store, r, [])
    decreases |store.Keys - seen|, |todo|
  {
    if |todo| == 0 then seen
    else
      var f := todo[0];
      var next := if f in store && f !in seen then todo[1..] + store[f].children else todo[1..];
      VisitKeepsClosed(store, seen, todo);
      if f in seen then
        assert seen + {f} == seen;
        Reach(store, next, seen)
      else if f in store then
        DiffShrinks(store.Keys, seen, f);
        Reach(store, next, seen + {f})
      else
        assert store.Keys - (seen + {f}) == store.Keys - seen;
        Reach(store, next, seen + {f})
  }

  /** Visiting the first fact to do keeps the visited facts closed. */
  lemma VisitKeepsClosed(store: map<Term, ProofStep>, seen: set<Term>, todo: seq<Term>)
    requires |todo| > 0
    ensures var f := todo[0];
            var next := if f in store && f !in seen then todo[1..] + store[f].children else todo[1..];
            ClosedWithin(store, seen, todo) ==> ClosedWithin(store, seen + {f}, next)
  {
    var f := todo[0];
    var next := if f in store && f !in seen then todo[1..] + store[f].children else todo[1..];
    if ClosedWithin(store, seen, todo) {
      forall g, c | g in seen + {f} && g in store && c in store[g].children
        ensures c in seen + {f} || c in next
      {
        if g in seen {
          assert c in seen || c in todo;
          if c in todo && c != f {
            var k :| 0 <= k < |todo| && todo[k] == c;
            assert next[k - 1] == c;
          }
        } else {
          assert c in store[f].children && f !in seen;
          assert c in next[|todo| - 1..];
        }
      }
    }
  }

  /**
   * The free assumptions of the proof of `root` the store denotes: the
   * facts reached from `root` that have no step of their own.
   */
  function FreeAssumptions(store: map<Term, ProofStep>, root: Term): (r: set<Term>)
    ensures root !in store ==> root in r
    ensures forall f :: f in r ==> f !in store
  {
    set f | f in Reach(store, [root], {}) && f !in store
  }

  /**
   * The free assumptions are exactly the leaves of the expansion: every
   * premise of a reached stored step is reached in turn, and a reached
   * premise without a step is free.
   */
  lemma FreeAssumptionsClosed(store: map<Term, ProofStep>, root: Term, f: Term, c: Term)
    requires f == root || f in Reach(store, [root], {})
    requires f in store && c in store[f].children
    ensures c in store ==> c in Reach(store, [root], {})
    ensures c !in store ==> c in FreeAssumptions(store, root)
  {
    assert ClosedWithin(store, {}, [root]);
  }

  /** Outcome of the crowding-literal repair. */
  datatype Crowding =
    | NoCrowding
    | Duplicated(premises: seq<Term>, pivots: seq<Term>)
    | AssertionFailed

  /**
   * The solver-side view the manager reads: the node of each variable, the
   * node order, the reason of each propagated variable, the trail position
   * of each variable, the CNF translation cache and the input assumptions.
   */
  class SatProofManager {
    const atom: nat -> Term
    const nodeId: Term -> nat
    const reason: nat -> Option<seq<SatLit>>
    const trail: nat -> nat
    const translation: map<Term, SatLit>
    /**
     * Reduction of a resolvent by factoring, reordering and double-negation
     * elimination: the steps it adds and the clause it yields.
     */
    const factor: Term -> (seq<(Term, ProofStep)>, Term)

    /** The clauses registered as input assumptions. */
    var assumptions: set<Term>
    /** The unit conflict stored for a later finalization. */
    var conflictLit: Option<SatLit>

    /** The links of the resolution chain being recorded. */
    var resLinks: seq<Link>
    /** Literals whose removal from the learned clause is still to be justified. */
    var redundantLits: seq<SatLit>
    /** The resolution-chain proof generator: one step per fact, first step kept. */
    var steps: map<Term, ProofStep>

    constructor (atom: nat -> Term, nodeId: Term -> nat, reason: nat -> Option<seq<SatLit>>,
                 trail: nat -> nat, translation: map<Term, SatLit>,
                 factor: Term -> (seq<(Term, ProofStep)>, Term), assumptions: set<Term>)
      ensures this.atom == atom && this.nodeId == nodeId && this.reason == reason
      ensures this.trail == trail && this.translation == translation && this.factor == factor
      ensures this.assumptions == assumptions
      ensures resLinks == [] && redundantLits == [] && steps == map[] && conflictLit == None
    {
      this.atom := atom;
      this.nodeId := nodeId;
      this.reason := reason;
      this.trail := trail;
      this.translation := translation;
      this.factor := factor;
      this.assumptions := assumptions;
      resLinks := [];
      redundantLits := [];
      steps := map[];
      conflictLit := None;
    }

    /** Reasons mention the propagated literal first and earlier variables after. */
    ghost predicate ReasonsFollowTrail()
    {
      forall v: nat {:trigger reason(v)} :: reason(v).Some? ==>
        var c := reason(v).value;
        |c| >= 1 && c[0].v == v && forall i :: 1 <= i < |c| ==> trail(c[i].v) < trail(v)
    }

    /** The reduction only adds steps that conclude their facts. */
    ghost predicate FactoringConcludes()
    {
      forall n {:trigger factor(n)} :: ReducedBy(n, factor(n))
    }

    /** Records a step unless the fact already has one. */
    method AddStep(fact: Term, step: ProofStep)
      modifies this`steps
      ensures steps == AddedFirst(old(steps), fact, step)
    {
      if fact !in steps {
        steps := steps[fact := step];
      }
    }

    /** Opens a chain with the clause being resolved: its pivot is null. */
    method StartResChain(start: seq<SatLit>)
      modifies this`resLinks
      ensures resLinks == old(resLinks) + [Link(ClauseNodeOf(atom, nodeId, start), Null, true)]
    {
      resLinks := resLinks + [Link(ClauseNodeOf(atom, nodeId, start), Null, true)];
    }

    /**
     * Resolves the chain against the unit clause of `~lit`; a redundant
     * literal is only recorded, to be justified when the chain ends.
     */
    method AddResolutionStepLit(lit: SatLit, redundant: bool)
      modifies this`resLinks, this`redundantLits
      ensures !redundant ==>
        resLinks == old(resLinks) + [Link(LitNode(atom, Neg(lit)), atom(lit.v), !lit.negated)]
        && redundantLits == old(redundantLits)
      ensures redundant ==> resLinks == old(resLinks) && redundantLits == old(redundantLits) + [lit]
    {
      if !redundant {
        resLinks := resLinks + [Link(LitNode(atom, Neg(lit)), atom(lit.v), !lit.negated)];
      } else {
        redundantLits := redundantLits + [lit];
      }
    }

    /** Resolves the chain against `clause` on the variable of `lit`, which occurs in `clause`. */
    method AddResolutionStepClause(clause: seq<SatLit>, lit: SatLit)
      modifies this`resLinks
      ensures resLinks == old(resLinks) + [Link(ClauseNodeOf(atom, nodeId, clause), atom(lit.v), lit.negated)]
    {
      resLinks := resLinks + [Link(ClauseNodeOf(atom, nodeId, clause), atom(lit.v), lit.negated)];
    }

    /**
     * The link added for a literal `lit` of the accumulated clause removes
     * exactly that literal: resolving `[lit]` against the unit clause of its
     * negation with that link's polarity and pivot leaves nothing.
     */
    lemma UnitLinkResolvesLiteral(lit: SatLit)
      ensures Eliminates(LitNode(atom, lit), atom(lit.v), !lit.negated)
      ensures Resolve([LitNode(atom, lit)], [LitNode(atom, Neg(lit))], !lit.negated, atom(lit.v)) == []
    {
      if lit.negated {
        assert Not(atom(lit.v)) == LitNode(atom, lit);
      }
    }

    /**
     * The link added for a clause containing `lit` removes the negation of
     * `lit` from the accumulated clause and `lit` from the clause.
     */
    lemma ClauseLinkResolvesLiteral(lit: SatLit)
      ensures Eliminates(LitNode(atom, Neg(lit)), atom(lit.v), lit.negated)
      ensures Resolve([LitNode(atom, Neg(lit))], [LitNode(atom, lit)], lit.negated, atom(lit.v)) == []
    {
      if !lit.negated {
        assert Not(atom(lit.v)) == LitNode(atom, Neg(lit));
      }
    }

    /**
     * The index of the last link whose clause is an OR node containing
     * `lit`, or the number of links when there is none.
     */
    method FindLastInclusion(lit: Term) returns (r: nat)
      ensures r <= |resLinks|
      ensures r < |resLinks| ==> IncludesLit(resLinks[r], lit)
      ensures forall j :: r < j < |resLinks| ==> !IncludesLit(resLinks[j], lit)
      ensures r == |resLinks| <==> forall j :: 0 <= j < |resLinks| ==> !IncludesLit(resLinks[j], lit)
    {
      var i := |resLinks|;
      while i > 0
        invariant 0 <= i <= |resLinks|
        invariant forall j :: i <= j < |resLinks| ==> !IncludesLit(resLinks[j], lit)
      {
        var link := resLinks[i - 1];
        if KindOf(link.clause) == OR && lit in Children(link.clause) {
          return i - 1;
        }
        i := i - 1;
      }
      return |resLinks|;
    }

    /** The bookkeeping of the crowding repair stays consistent. */
    ghost predicate CrowdingInv(lastInclusion: seq<(Term, nat)>, lastInclusionMap: map<Term, nat>,
                                offending: map<Term, nat>)
      reads this`resLinks
    {
      SortedByIndex(lastInclusion) && DistinctLits(lastInclusion)
      && Consistent(lastInclusion, lastInclusionMap)
      && lastInclusionMap.Keys <= LinkLits(resLinks)
      && lastInclusionMap.Keys == offending.Keys
    }

    /** The offending literals of a resolvent, with their number of occurrences. */
    method CountOffending(clauseLits: seq<Term>, targetLits: seq<Term>) returns (offending: map<Term, nat>)
      ensures offending.Keys == set x | x in clauseLits && x !in targetLits
      ensures forall x :: x in offending ==> offending[x] == multiset(clauseLits)[x]
    {
      offending := map[];
      var n := 0;
      while n < |clauseLits|
        invariant n <= |clauseLits|
        invariant offending.Keys == set x | x in clauseLits[..n] && x !in targetLits
        invariant forall x :: x in offending ==> offending[x] == multiset(clauseLits[..n])[x]
      {
        var x := clauseLits[n];
        assert clauseLits[..n + 1] == clauseLits[..n] + [x];
        if x !in targetLits {
          offending := offending[x := (if x in offending then offending[x] else 0) + 1];
        }
        n := n + 1;
      }
      assert clauseLits[..n] == clauseLits;
    }

    /** The last inclusion of every offending literal, ordered by index. */
    method InitialLastInclusion(offending: map<Term, nat>)
      returns (failed: bool, lastInclusion: seq<(Term, nat)>, lastInclusionMap: map<Term, nat>)
      ensures !failed ==> CrowdingInv(lastInclusion, lastInclusionMap, offending)
    {
      lastInclusion := [];
      lastInclusionMap := map[];
      var todo := offending.Keys;
      while todo != {}
        invariant todo <= offending.Keys
        invariant lastInclusionMap.Keys == offending.Keys - todo
        invariant lastInclusionMap.Keys <= LinkLits(resLinks)
        invariant SortedByIndex(lastInclusion) && DistinctLits(lastInclusion)
        invariant Consistent(lastInclusion, lastInclusionMap)
        decreases |todo|
      {
        var lit :| lit in todo;
        var index := FindLastInclusion(lit);
        if index >= |resLinks| {
          return true, lastInclusion, lastInclusionMap;
        }
        IncludedInLinkLits(resLinks, index, lit);
        var p := InsertPos(lastInclusion, index);
        InsertEntry(lastInclusion, lastInclusionMap, p, (lit, index));
        lastInclusion := lastInclusion[..p] + [(lit, index)] + lastInclusion[p..];
        lastInclusionMap := lastInclusionMap[lit := index];
        todo := todo - {lit};
      }
      return false, lastInclusion, lastInclusionMap;
    }

    /**
     * A literal a repeated clause brings in for the first time: it gets its
     * last inclusion and is queued; that inclusion must come strictly after
     * the one of `offLit`.
     */
    method QueueIntroducedLit(lit: Term, offLit: Term, i: nat,
                              lastInclusion0: seq<(Term, nat)>, lastInclusionMap0: map<Term, nat>,
                              offending0: map<Term, nat>)
      returns (failed: bool, lastInclusion: seq<(Term, nat)>, lastInclusionMap: map<Term, nat>)
      requires CrowdingInv(lastInclusion0, lastInclusionMap0, offending0)
      requires i < |lastInclusion0| && lastInclusion0[i].0 == offLit
      requires lit !in lastInclusionMap0
      ensures !failed ==>
        CrowdingInv(lastInclusion, lastInclusionMap, offending0[lit := 0])
        && i < |lastInclusion| && lastInclusion[i] == lastInclusion0[i]
        && lit in lastInclusionMap && lastInclusionMap == lastInclusionMap0[lit := lastInclusionMap[lit]]
        && |lastInclusion| <= |lastInclusion0| + 1
        && lastInclusionMap[lit] > lastInclusionMap0[offLit]
    {
      var index := FindLastInclusion(lit);
      if index >= |resLinks| {
        return true, lastInclusion0, lastInclusionMap0;
      }
      IncludedInLinkLits(resLinks, index, lit);
      lastInclusion, lastInclusionMap := QueueLit(lit, index, lastInclusion0, lastInclusionMap0);
      // the new literal is introduced strictly after the offending one
      failed := index <= lastInclusionMap[offLit];
      assert lastInclusion0[i].1 == lastInclusionMap0[offLit];
    }

    /**
     * Registers one literal a repeated clause brings in: a new literal gets
     * its last inclusion and is queued after the entries with smaller
     * indices; it must be introduced strictly after `offLit`, and its count
     * grows by `occurrences`.
     */
    method IntroduceLit(lit: Term, offLit: Term, i: nat, occurrences: nat,
                        lastInclusion0: seq<(Term, nat)>, lastInclusionMap0: map<Term, nat>,
                        offending0: map<Term, nat>)
      returns (failed: bool, lastInclusion: seq<(Term, nat)>, lastInclusionMap: map<Term, nat>,
               offending: map<Term, nat>)
      requires CrowdingInv(lastInclusion0, lastInclusionMap0, offending0)
      requires i < |lastInclusion0| && lastInclusion0[i].0 == offLit
      ensures !failed ==>
        CrowdingInv(lastInclusion, lastInclusionMap, offending)
        && i < |lastInclusion| && lastInclusion[i] == lastInclusion0[i]
        && lastInclusionMap.Keys == lastInclusionMap0.Keys + {lit}
        && (forall x :: x in lastInclusionMap0 ==> lastInclusionMap[x] == lastInclusionMap0[x])
        && |lastInclusionMap.Keys| == |lastInclusionMap0.Keys| + (if lit in lastInclusionMap0 then 0 else 1)
        && |lastInclusion| <= |lastInclusion0| + (if lit in lastInclusionMap0 then 0 else 1)
        && lastInclusionMap[lit] > lastInclusionMap[offLit]
      ensures !failed ==>
        offending == offending0[lit := (if lit in offending0 then offending0[lit] else 0) + occurrences]
    {
      if lit !in lastInclusionMap0 {
        failed, lastInclusion, lastInclusionMap := QueueIntroducedLit(lit, offLit, i, lastInclusion0, lastInclusionMap0, offending0);
        offending := offending0[lit := 0];
        if failed {
          return;
        }
      } else {
        lastInclusion, lastInclusionMap, offending := lastInclusion0, lastInclusionMap0, offending0;
        if lastInclusionMap[lit] <= lastInclusionMap[offLit] {
          return true, lastInclusion, lastInclusionMap, offending;
        }
      }
      offending := offending[lit := offending[lit] + occurrences];
      return false, lastInclusion, lastInclusionMap, offending;
    }

    /**
     * Registers every literal of a repeated clause except `elim` and those
     * of the target clause.
     */
    method AddIntroducedLits(lits: seq<Term>, elim: Term, targetLits: seq<Term>, offLit: Term, i: nat,
                             occurrences: nat, lastInclusion0: seq<(Term, nat)>,
                             lastInclusionMap0: map<Term, nat>, offending0: map<Term, nat>)
      returns (failed: bool, lastInclusion: seq<(Term, nat)>, lastInclusionMap: map<Term, nat>,
               offending: map<Term, nat>)
      requires CrowdingInv(lastInclusion0, lastInclusionMap0, offending0)
      requires i < |lastInclusion0| && lastInclusion0[i].0 == offLit
      ensures !failed ==>
        CrowdingInv(lastInclusion, lastInclusionMap, offending)
        && i < |lastInclusion| && lastInclusion[i] == lastInclusion0[i]
        && offLit in lastInclusionMap && lastInclusionMap[offLit] == lastInclusionMap0[offLit]
        && |lastInclusionMap0.Keys| <= |lastInclusionMap.Keys|
        && |lastInclusion| - |lastInclusion0| <= |lastInclusionMap.Keys| - |lastInclusionMap0.Keys|
      ensures !failed ==> forall x :: x in lits && x != elim && x !in targetLits ==>
        x in lastInclusionMap && lastInclusionMap[x] > lastInclusionMap[offLit]
      ensures !failed ==> forall x :: x in offending && x !in offending0 ==> x !in targetLits
    {
      lastInclusion, lastInclusionMap, offending := lastInclusion0, lastInclusionMap0, offending0;
      ghost var bound := lastInclusionMap0[offLit];
      var q := 0;
      while q < |lits|
        invariant 0 <= q <= |lits|
        invariant IntroducedUpTo(q, lits, elim, targetLits, i, bound, lastInclusion0, lastInclusionMap0, offending0,
                                 lastInclusion, lastInclusionMap, offending)
      {
        failed, lastInclusion, lastInclusionMap, offending :=
          IntroduceNext(q, lits, elim, targetLits, offLit, i, occurrences, bound, lastInclusion0, lastInclusionMap0,
                        offending0, lastInclusion, lastInclusionMap, offending);
        if failed {
          return true, lastInclusion, lastInclusionMap, offending;
        }
        q := q + 1;
      }
      forall x | x in lits && x != elim && x !in targetLits
        ensures x in lastInclusionMap && lastInclusionMap[x] > bound
      {
        var p :| 0 <= p < |lits| && lits[p] == x;
      }
      return false, lastInclusion, lastInclusionMap, offending;
    }

    /**
     * The bookkeeping after the first `q` literals of a repeated clause are
     * registered: it stays consistent and keeps the old entries, and every
     * literal registered so far is introduced after the offending one.
     */
    ghost predicate IntroducedUpTo(q: nat, lits: seq<Term>, elim: Term, targetLits: seq<Term>, i: nat,
                                   bound: nat, lastInclusion0: seq<(Term, nat)>, lastInclusionMap0: map<Term, nat>,
                                   offending0: map<Term, nat>, lastInclusion: seq<(Term, nat)>,
                                   lastInclusionMap: map<Term, nat>, offending: map<Term, nat>)
      reads this`resLinks
      requires q <= |lits| && i < |lastInclusion0|
    {
      CrowdingInv(lastInclusion, lastInclusionMap, offending)
      && (forall x :: x in lastInclusionMap0 ==> x in lastInclusionMap && lastInclusionMap[x] == lastInclusionMap0[x])
      && i < |lastInclusion| && lastInclusion[i] == lastInclusion0[i]
      && |lastInclusionMap0.Keys| <= |lastInclusionMap.Keys|
      && |lastInclusion| - |lastInclusion0| <= |lastInclusionMap.Keys| - |lastInclusionMap0.Keys|
      && (forall p :: 0 <= p < q && lits[p] != elim && lits[p] !in targetLits ==>
            lits[p] in lastInclusionMap && lastInclusionMap[lits[p]] > bound)
      && forall x :: x in offending && x !in offending0 ==> x !in targetLits
    }

    /** Registers literal `q` of a repeated clause unless it is `elim` or in the target clause. */
    method IntroduceNext(q: nat, lits: seq<Term>, elim: Term, targetLits: seq<Term>, offLit: Term, i: nat,
                         occurrences: nat, ghost bound: nat, ghost lastInclusion0: seq<(Term, nat)>,
                         ghost lastInclusionMap0: map<Term, nat>, ghost offending0: map<Term, nat>,
                         lastInclusion1: seq<(Term, nat)>, lastInclusionMap1: map<Term, nat>,
                         offending1: map<Term, nat>)
      returns (failed: bool, lastInclusion: seq<(Term, nat)>, lastInclusionMap: map<Term, nat>,
               offending: map<Term, nat>)
      requires q < |lits| && i < |lastInclusion0| && lastInclusion0[i].0 == offLit
      requires offLit in lastInclusionMap0 && bound == lastInclusionMap0[offLit]
      requires IntroducedUpTo(q, lits, elim, targetLits, i, bound, lastInclusion0, lastInclusionMap0, offending0,
                              lastInclusion1, lastInclusionMap1, offending1)
      ensures !failed ==>
        IntroducedUpTo(q + 1, lits, elim, targetLits, i, bound, lastInclusion0, lastInclusionMap0, offending0,
                       lastInclusion, lastInclusionMap, offending)
    {
      lastInclusion, lastInclusionMap, offending := lastInclusion1, lastInclusionMap1, offending1;
      var lit := lits[q];
      if lit != elim && lit !in targetLits {
        failed, lastInclusion, lastInclusionMap, offending :=
          IntroduceLit(lit, offLit, i, occurrences, lastInclusion, lastInclusionMap, offending);
        if failed {
          return;
        }
        assert forall x :: x in offending ==> x in offending1 || x == lit;
        assert lastInclusionMap1[offLit] == bound;
      }
      return false, lastInclusion, lastInclusionMap, offending;
    }

    /** Inserts `count` copies of premise k and of its polarity/pivot pair. */
    method RepeatLink(premises: seq<Term>, pivots: seq<Term>, k: nat, count: nat)
      returns (ps: seq<Term>, pv: seq<Term>)
      requires |premises| >= 1 && |pivots| == 2 * (|premises| - 1) && 1 <= k < |premises|
      ensures |ps| == |premises| + count && |pv| == 2 * (|ps| - 1) && ps[0] == premises[0]
      ensures forall x :: x in LinksOf(ps, pv) ==> x in LinksOf(premises, pivots)
      ensures multiset(LinksOf(ps, pv)) == multiset(LinksOf(premises, pivots))
                                          + multiset{}[LinksOf(premises, pivots)[k - 1] := count]
    {
      ps, pv := premises, pivots;
      var clause, posFirstNode, pivot := premises[k], pivots[2 * (k - 1)], pivots[2 * k - 1];
      var cnt := count;
      while cnt > 0
        invariant 0 <= cnt <= count
        invariant |ps| == |premises| + (count - cnt) && |pv| == 2 * (|ps| - 1) && ps[0] == premises[0]
        invariant 1 <= k < |ps| && ps[k] == clause
        invariant pv[2 * (k - 1)] == posFirstNode && pv[2 * k - 1] == pivot
        invariant LinksOf(ps, pv)[k - 1] == LinksOf(premises, pivots)[k - 1]
        invariant forall x :: x in LinksOf(ps, pv) ==> x in LinksOf(premises, pivots)
        invariant multiset(LinksOf(ps, pv)) == multiset(LinksOf(premises, pivots))
                                              + multiset{}[LinksOf(premises, pivots)[k - 1] := count - cnt]
      {
        DuplicateLink(ps, pv, k);
        DuplicateLinkMultiset(LinksOf(ps, pv), k);
        ps := ps[..k] + [clause] + ps[k..];
        pv := pv[..2 * (k - 1)] + [posFirstNode, pivot] + pv[2 * (k - 1)..];
        cnt := cnt - 1;
      }
    }

    /**
     * Repeats link k, which eliminates the offending literal `offLit`,
     * `count` more times: every link added eliminates a literal missing
     * from the target clause.
     */
    method RepeatEliminator(premises: seq<Term>, pivots: seq<Term>, k: nat, count: nat,
                            ghost offLit: Term, ghost targetLits: seq<Term>)
      returns (ps: seq<Term>, pv: seq<Term>)
      requires |premises| >= 1 && |pivots| == 2 * (|premises| - 1) && 1 <= k < |premises|
      requires offLit !in targetLits && Eliminates(offLit, pivots[2 * k - 1], pivots[2 * (k - 1)] == True)
      ensures |ps| >= 1 && |pv| == 2 * (|ps| - 1) && ps[0] == premises[0]
      ensures forall x :: x in LinksOf(ps, pv) ==> x in LinksOf(premises, pivots)
      ensures multiset(LinksOf(premises, pivots)) <= multiset(LinksOf(ps, pv))
      ensures AddedLinksEliminate(multiset(LinksOf(premises, pivots)), multiset(LinksOf(ps, pv)), targetLits)
    {
      ps, pv := RepeatLink(premises, pivots, k, count);
      var link := LinksOf(premises, pivots)[k - 1];
      MultisetAddGrows(multiset(LinksOf(premises, pivots)), multiset{}[link := count]);
      EliminatesOffendingBy(link, offLit, targetLits);
      RepeatedLinkEliminates(multiset(LinksOf(premises, pivots)), link, count, targetLits);
    }

    /**
     * The first link from `from` on that eliminates `lit`, or the number of
     * links when none does.
     */
    method FindEliminator(lit: Term, from: nat) returns (j: nat)
      requires from <= |resLinks|
      ensures from <= j <= |resLinks|
      ensures j < |resLinks| ==> Eliminates(lit, resLinks[j].pivot, resLinks[j].posFirst)
      ensures forall j' :: from <= j' < j ==> !Eliminates(lit, resLinks[j'].pivot, resLinks[j'].posFirst)
    {
      j := from;
      while j < |resLinks|
        invariant from <= j <= |resLinks|
        invariant forall j' :: from <= j' < j ==> !Eliminates(lit, resLinks[j'].pivot, resLinks[j'].posFirst)
      {
        var link := resLinks[j];
        if (lit == link.pivot && link.posFirst) || (Not(lit) == link.pivot && !link.posFirst)
           || (Not(link.pivot) == lit && !link.posFirst) {
          return;
        }
        j := j + 1;
      }
    }

    /**
     * Repairs a chain whose resolvent has literals (`clauseLits`) missing
     * from the target clause: each offending literal is eliminated again by
     * repeating, once per occurrence, the first link after its last
     * inclusion that eliminates it; literals such a repeated clause brings
     * in become offending in turn. The assertions of the procedure are
     * failure outcomes.
     */
    method ProcessCrowdingLits(clauseLits: seq<Term>, targetLits: seq<Term>,
                               premises: seq<Term>, pivots: seq<Term>) returns (r: Crowding)
      requires |premises| >= 1 && |pivots| == 2 * (|premises| - 1)
      ensures r.NoCrowding? <==> forall l :: l in clauseLits ==> l in targetLits
      ensures r.Duplicated? ==>
        |r.premises| >= 1 && |r.pivots| == 2 * (|r.premises| - 1)
        && r.premises[0] == premises[0]
        && (forall x :: x in LinksOf(r.premises, r.pivots) ==> x in LinksOf(premises, pivots))
        && multiset(LinksOf(premises, pivots)) <= multiset(LinksOf(r.premises, r.pivots))
        && AddedLinksEliminate(multiset(LinksOf(premises, pivots)), multiset(LinksOf(r.premises, r.pivots)),
                               targetLits)
    {
      var offending := CountOffending(clauseLits, targetLits);
      if offending.Keys == {} {
        forall l | l in clauseLits
          ensures l in targetLits
        {
          assert l !in offending.Keys;
        }
        return NoCrowding;
      }
      assert exists l :: l in clauseLits && l !in targetLits by {
        var x :| x in offending.Keys;
      }
      ghost var U := LinkLits(resLinks);
      var failed, lastInclusion, lastInclusionMap := InitialLastInclusion(offending);
      if failed {
        return AssertionFailed;
      }
      var ps, pv := premises, pivots;
      var i := 0;
      while i < |lastInclusion|
        invariant 0 <= i <= |lastInclusion|
        invariant CrowdingInv(lastInclusion, lastInclusionMap, offending)
        invariant |ps| >= 1 && |pv| == 2 * (|ps| - 1) && ps[0] == premises[0]
        invariant forall x :: x in LinksOf(ps, pv) ==> x in LinksOf(premises, pivots)
        invariant multiset(LinksOf(premises, pivots)) <= multiset(LinksOf(ps, pv))
        invariant forall x :: x in offending ==> x !in targetLits
        invariant AddedLinksEliminate(multiset(LinksOf(premises, pivots)), multiset(LinksOf(ps, pv)), targetLits)
        decreases |U| - |lastInclusionMap.Keys|, |lastInclusion| - i
      {
        SubsetCard(lastInclusionMap.Keys, U);
        // each offending literal is processed once: the queue has no repeats
        assert forall a :: 0 <= a < i ==> lastInclusion[a].0 != lastInclusion[i].0;
        ghost var ps0, pv0 := ps, pv;
        failed, lastInclusion, lastInclusionMap, offending, ps, pv :=
          EliminateOffending(targetLits, i, lastInclusion, lastInclusionMap, offending, ps, pv);
        if failed {
          return AssertionFailed;
        }
        MultisetSubsetTrans(multiset(LinksOf(premises, pivots)), multiset(LinksOf(ps0, pv0)),
                            multiset(LinksOf(ps, pv)));
        AddedLinksEliminateTrans(multiset(LinksOf(premises, pivots)), multiset(LinksOf(ps0, pv0)),
                                 multiset(LinksOf(ps, pv)), targetLits);
        i := i + 1;
      }
      return Duplicated(ps, pv);
    }

    /**
     * Eliminates the offending literal at position `i` of the queue: finds
     * the first link after its last inclusion that eliminates it, registers
     * the literals that link's clause brings in, and repeats the link once
     * per occurrence of the literal.
     */
    method EliminateOffending(targetLits: seq<Term>, i: nat, lastInclusion0: seq<(Term, nat)>,
                              lastInclusionMap0: map<Term, nat>, offending0: map<Term, nat>,
                              ps0: seq<Term>, pv0: seq<Term>)
      returns (failed: bool, lastInclusion: seq<(Term, nat)>, lastInclusionMap: map<Term, nat>,
               offending: map<Term, nat>, ps: seq<Term>, pv: seq<Term>)
      requires CrowdingInv(lastInclusion0, lastInclusionMap0, offending0)
      requires i < |lastInclusion0|
      requires |ps0| >= 1 && |pv0| == 2 * (|ps0| - 1)
      requires forall x :: x in offending0 ==> x !in targetLits
      ensures !failed ==>
        CrowdingInv(lastInclusion, lastInclusionMap, offending)
        && |lastInclusion| >= i + 1
        && |lastInclusionMap0.Keys| <= |lastInclusionMap.Keys|
        && |lastInclusion| - |lastInclusion0| <= |lastInclusionMap.Keys| - |lastInclusionMap0.Keys|
        && |ps| >= 1 && |pv| == 2 * (|ps| - 1) && ps[0] == ps0[0]
        && (forall x :: x in LinksOf(ps, pv) ==> x in LinksOf(ps0, pv0))
        && multiset(LinksOf(ps0, pv0)) <= multiset(LinksOf(ps, pv))
      ensures !failed ==>
        (forall x :: x in offending ==> x !in targetLits)
        && AddedLinksEliminate(multiset(LinksOf(ps0, pv0)), multiset(LinksOf(ps, pv)), targetLits)
    {
      lastInclusion, lastInclusionMap, offending, ps, pv :=
        lastInclusion0, lastInclusionMap0, offending0, ps0, pv0;
      if lastInclusion[i].1 >= |resLinks| - 1 {
        return true, lastInclusion, lastInclusionMap, offending, ps, pv;
      }
      var offLit := lastInclusion[i].0;
      var j := FindEliminator(offLit, lastInclusion[i].1 + 1);
      if j == |resLinks| {
        return false, lastInclusion, lastInclusionMap, offending, ps, pv;
      }
      var link := resLinks[j];
      var posFirstNode := if link.posFirst then True else False;
      // the last premise that is the clause to repeat
      var k := |ps| - 1;
      while k > 0 && ps[k] != link.clause
        invariant 0 <= k <= |ps| - 1
      {
        k := k - 1;
      }
      if k == 0 || pv[2 * (k - 1)] != posFirstNode || pv[2 * k - 1] != link.pivot {
        return true, lastInclusion, lastInclusionMap, offending, ps, pv;
      }
      var occurrences := offending[offLit];
      // the literal the repeated clause loses; the others it brings in
      var elim := if link.posFirst then Not(link.pivot) else link.pivot;
      if link.clause != elim {
        failed, lastInclusion, lastInclusionMap, offending :=
          AddIntroducedLits(Children(link.clause), elim, targetLits, offLit, i, occurrences,
                            lastInclusion, lastInclusionMap, offending);
        if failed {
          return true, lastInclusion, lastInclusionMap, offending, ps, pv;
        }
      }
      assert offLit !in targetLits by {
        assert lastInclusion0[i].0 in lastInclusionMap0;
      }
      assert (posFirstNode == True) == link.posFirst;
      ps, pv := RepeatEliminator(ps, pv, k, occurrences, offLit, targetLits);
      return false, lastInclusion, lastInclusionMap, offending, ps, pv;
    }

    // ------------------------------------------------------------------
    // Redundant literals

    /** The literals the reason of `x` brings in besides the propagated one. */
    function Brings(x: SatLit): seq<SatLit>
    {
      if reason(x.v).Some? && |reason(x.v).value| >= 1 then reason(x.v).value[1..] else []
    }

    /**
     * The link that removes a redundant literal `x`: resolution with the
     * reason of its variable, or with the unit clause of its negation when
     * there is no reason.
     */
    function RedundantLink(x: SatLit): (r: Link)
      ensures r.pivot == atom(x.v) && r.posFirst == !x.negated
      ensures Eliminates(LitNode(atom, x), r.pivot, r.posFirst)
      ensures reason(x.v).None? ==> r.clause == LitNode(atom, Neg(x))
      ensures reason(x.v).Some? ==> r.clause == ClauseNodeOf(atom, nodeId, reason(x.v).value)
    {
      Link(if reason(x.v).Some? then ClauseNodeOf(atom, nodeId, reason(x.v).value) else LitNode(atom, Neg(x)),
           atom(x.v), !x.negated)
    }

    function RedundantLinks(order: seq<SatLit>): (r: seq<Link>)
      ensures |r| == |order| && forall a :: 0 <= a < |order| ==> r[a] == RedundantLink(order[a])
    {
      seq(|order|, a requires 0 <= a < |order| => RedundantLink(order[a]))
    }

    lemma RedundantLinksAppend(o1: seq<SatLit>, o2: seq<SatLit>)
      ensures RedundantLinks(o1 + o2) == RedundantLinks(o1) + RedundantLinks(o2)
    {
    }

    /**
     * Every literal that the reason of a link brings in, and that is not in
     * the learned clause, is removed by a later link or was handled before.
     */
    ghost predicate EliminatedLater(order: seq<SatLit>, visited0: set<SatLit>,
                                    conclusionLits: multiset<SatLit>)
    {
      forall a :: 0 <= a < |order| ==> EliminatedAfter(order, a, visited0, conclusionLits)
    }

    /** The literals the link of `order[a]` brings in are removed after it, or were handled before. */
    ghost predicate EliminatedAfter(order: seq<SatLit>, a: nat, visited0: set<SatLit>,
                                    conclusionLits: multiset<SatLit>)
      requires a < |order|
    {
      forall y :: y in Brings(order[a]) && y !in conclusionLits ==> y in visited0 || y in order[a + 1..]
    }

    lemma EliminatedLaterPrepend(o: seq<SatLit>, acc: seq<SatLit>, visited0: set<SatLit>,
                                 conclusionLits: multiset<SatLit>)
      requires EliminatedLater(o, visited0 + (set x | x in acc), conclusionLits)
      requires EliminatedLater(acc, visited0, conclusionLits)
      ensures EliminatedLater(o + acc, visited0, conclusionLits)
    {
      var s := o + acc;
      forall a | 0 <= a < |s|
        ensures EliminatedAfter(s, a, visited0, conclusionLits)
      {
        if a < |o| {
          assert EliminatedAfter(o, a, visited0 + (set x | x in acc), conclusionLits);
          assert s[a] == o[a];
          assert s[a + 1..] == o[a + 1..] + acc;
        } else {
          assert EliminatedAfter(acc, a - |o|, visited0, conclusionLits);
          assert s[a] == acc[a - |o|];
          assert s[a + 1..] == acc[a - |o| + 1..];
        }
      }
    }

    /**
     * Justifies the removal of a redundant literal: the literals its reason
     * brings in that are not in the learned clause are processed first, then
     * a link resolving with the reason is inserted at `pos`, so that it
     * precedes their links. A literal without a reason is removed by its
     * negated unit. Returns the visited literals and, as `order`, the
     * literals whose links were inserted, in chain order.
     */
    method ProcessRedundantLit(lit: SatLit, conclusionLits: multiset<SatLit>,
                               visited0: set<SatLit>, pos: nat)
      returns (visited: set<SatLit>, ghost order: seq<SatLit>)
      requires ReasonsFollowTrail()
      requires pos <= |resLinks|
      modifies this`resLinks
      ensures visited == visited0 + (set x | x in order)
      ensures DistinctSeq(order) && forall x :: x in order ==> x !in visited0
      ensures lit in visited
      ensures forall x :: x in order ==> trail(x.v) <= trail(lit.v)
      ensures EliminatedLater(order, visited0, conclusionLits)
      ensures resLinks == old(resLinks)[..pos] + RedundantLinks(order) + old(resLinks)[pos..]
      decreases trail(lit.v), 1
    {
      if lit in visited0 {
        assert resLinks == resLinks[..pos] + resLinks[pos..];
        return visited0, [];
      }
      if reason(lit.v).None? {
        visited := visited0 + {lit};
        order := [lit];
        resLinks := resLinks[..pos] + [RedundantLink(lit)] + resLinks[pos..];
        return;
      }
      var c := reason(lit.v).value;
      ghost var links0 := resLinks;
      visited, order := ProcessReasonLits(lit, conclusionLits, visited0, pos);
      // the literal is not among those its reason led to
      assert lit !in visited;
      PrependReasonLink(lit, order, visited, visited0, conclusionLits);
      InsertAtTwice(links0, RedundantLinks(order), [RedundantLink(lit)], pos);
      visited := visited + {lit};
      order := [lit] + order;
      resLinks := resLinks[..pos] + [RedundantLink(lit)] + resLinks[pos..];
      assert resLinks == links0[..pos] + RedundantLinks(order) + links0[pos..];
    }

    /** The facts about the order once the link of `lit` is put in front. */
    lemma PrependReasonLink(lit: SatLit, order: seq<SatLit>, visited: set<SatLit>,
                            visited0: set<SatLit>, conclusionLits: multiset<SatLit>)
      requires reason(lit.v).Some? && lit !in visited && lit !in visited0
      requires visited == visited0 + (set x | x in order)
      requires DistinctSeq(order) && forall x :: x in order ==> x !in visited0
      requires EliminatedLater(order, visited0, conclusionLits)
      requires forall i' :: 1 <= i' < |reason(lit.v).value| && reason(lit.v).value[i'] !in conclusionLits ==>
        reason(lit.v).value[i'] in visited
      ensures visited + {lit} == visited0 + (set x | x in [lit] + order)
      ensures DistinctSeq([lit] + order) && forall x :: x in [lit] + order ==> x !in visited0
      ensures EliminatedLater([lit] + order, visited0, conclusionLits)
      ensures RedundantLinks([lit] + order) == [RedundantLink(lit)] + RedundantLinks(order)
    {
      assert EliminatedLater([lit] + order, visited0, conclusionLits) by {
        ReasonLinkFirst(lit, visited, conclusionLits);
        EliminatedLaterPrepend([lit], order, visited0, conclusionLits);
      }
      assert visited + {lit} == visited0 + (set x | x in [lit] + order)
        && DistinctSeq([lit] + order) && (forall x :: x in [lit] + order ==> x !in visited0) by {
        PrependVisited([lit], order, visited0);
      }
      assert RedundantLinks([lit]) == [RedundantLink(lit)];
      RedundantLinksAppend([lit], order);
    }

    /** The link of `lit` alone leaves only literals already visited. */
    lemma ReasonLinkFirst(lit: SatLit, visited: set<SatLit>, conclusionLits: multiset<SatLit>)
      requires reason(lit.v).Some?
      requires forall i' :: 1 <= i' < |reason(lit.v).value| && reason(lit.v).value[i'] !in conclusionLits ==>
        reason(lit.v).value[i'] in visited
      ensures EliminatedLater([lit], visited, conclusionLits)
    {
      var c := reason(lit.v).value;
      forall y | y in Brings(lit) && y !in conclusionLits
        ensures y in visited
      {
        var i' :| 1 <= i' < |c| && c[i'] == y;
      }
      assert EliminatedAfter([lit], 0, visited, conclusionLits);
    }

    /**
     * The loop of `ProcessRedundantLit` over the reason of `lit`: every
     * literal after the first that is not in the learned clause is
     * processed in turn, each time inserting at `pos`.
     */
    method ProcessReasonLits(lit: SatLit, conclusionLits: multiset<SatLit>,
                             visited0: set<SatLit>, pos: nat)
      returns (visited: set<SatLit>, ghost order: seq<SatLit>)
      requires ReasonsFollowTrail() && reason(lit.v).Some?
      requires pos <= |resLinks|
      modifies this`resLinks
      ensures visited == visited0 + (set x | x in order)
      ensures DistinctSeq(order) && forall x :: x in order ==> x !in visited0
      ensures forall x :: x in order ==> trail(x.v) < trail(lit.v)
      ensures EliminatedLater(order, visited0, conclusionLits)
      ensures forall i' :: 1 <= i' < |reason(lit.v).value| && reason(lit.v).value[i'] !in conclusionLits ==>
        reason(lit.v).value[i'] in visited
      ensures |resLinks| >= pos
      ensures resLinks == old(resLinks)[..pos] + RedundantLinks(order) + old(resLinks)[pos..]
      decreases trail(lit.v), 0
    {
      var c := reason(lit.v).value;
      ghost var links0 := resLinks;
      visited := visited0;
      order := [];
      var i := 1;
      while i < |c|
        invariant 1 <= i <= |c|
        invariant visited == visited0 + (set x | x in order)
        invariant DistinctSeq(order) && forall x :: x in order ==> x !in visited0
        invariant forall x :: x in order ==> trail(x.v) < trail(lit.v)
        invariant EliminatedLater(order, visited0, conclusionLits)
        invariant forall i' :: 1 <= i' < i && c[i'] !in conclusionLits ==> c[i'] in visited
        invariant |resLinks| >= pos
        invariant resLinks == links0[..pos] + RedundantLinks(order) + links0[pos..]
      {
        if c[i] !in conclusionLits {
          ghost var links1 := resLinks;
          var visited', o := ProcessRedundantLit(c[i], conclusionLits, visited, pos);
          EliminatedLaterPrepend(o, order, visited0, conclusionLits);
          RedundantLinksAppend(o, order);
          InsertAtTwice(links0, RedundantLinks(order), RedundantLinks(o), pos);
          PrependVisited(o, order, visited0);
          order := o + order;
          visited := visited';
        }
        i := i + 1;
      }
    }

    // ------------------------------------------------------------------
    // Ending a chain

    /** Every step recorded concludes the fact it is recorded for. */
    ghost predicate StepsConclude()
      reads this`steps
    {
      StoreConcludes(steps)
    }

    /**
     * Justifies every stored redundant literal; their links are appended to
     * the chain, each before the links of the literals its reason brings in.
     */
    method ProcessRedundantLits(conclusionLits: multiset<SatLit>) returns (ghost order: seq<SatLit>)
      requires ReasonsFollowTrail()
      modifies this`resLinks, this`redundantLits
      ensures resLinks == old(resLinks) + RedundantLinks(order)
      ensures DistinctSeq(order) && EliminatedLater(order, {}, conclusionLits)
      ensures forall l :: l in old(redundantLits) ==> l in order
      ensures redundantLits == []
    {
      var visited: set<SatLit> := {};
      var pos := |resLinks|;
      order := [];
      var r := 0;
      while r < |redundantLits|
        invariant 0 <= r <= |redundantLits| && pos == |old(resLinks)|
        invariant RedundantDone(r, old(resLinks), visited, order, conclusionLits)
        modifies this`resLinks
      {
        visited, order := ProcessRedundantNext(r, conclusionLits, visited, order, pos, old(resLinks));
        r := r + 1;
      }
      redundantLits := [];
    }

    /**
     * The state after the first `r` redundant literals are justified: the
     * links of `order` follow the original ones, and `visited` holds the
     * literals of `order`, among them the first `r` redundant ones.
     */
    ghost predicate RedundantDone(r: nat, links0: seq<Link>, visited: set<SatLit>, order: seq<SatLit>,
                                  conclusionLits: multiset<SatLit>)
      reads this`resLinks, this`redundantLits
      requires r <= |redundantLits|
    {
      resLinks == links0 + RedundantLinks(order)
      && visited == {} + (set x | x in order)
      && DistinctSeq(order) && EliminatedLater(order, {}, conclusionLits)
      && forall r' :: 0 <= r' < r ==> redundantLits[r'] in visited
    }

    /** Justifies redundant literal `r`, putting the links it needs in front of the ones so far. */
    method ProcessRedundantNext(r: nat, conclusionLits: multiset<SatLit>, visited0: set<SatLit>,
                                ghost order0: seq<SatLit>, pos: nat, ghost links0: seq<Link>)
      returns (visited: set<SatLit>, ghost order: seq<SatLit>)
      requires ReasonsFollowTrail()
      requires r < |redundantLits| && pos == |links0|
      requires RedundantDone(r, links0, visited0, order0, conclusionLits)
      modifies this`resLinks
      ensures RedundantDone(r + 1, links0, visited, order, conclusionLits)
    {
      ghost var o;
      visited, o := ProcessRedundantLit(redundantLits[r], conclusionLits, visited0, pos);
      assert forall r' :: 0 <= r' < r + 1 ==> redundantLits[r'] in visited by {
        forall r' | 0 <= r' < r + 1
          ensures redundantLits[r'] in visited
        {
          if r' < r {
            assert redundantLits[r'] in visited0;
          }
        }
      }
      PrependOrder(o, order0, visited0, conclusionLits);
      InsertAtEnd(links0, RedundantLinks(order0), RedundantLinks(o));
      order := o + order0;
    }

    /** The facts about the order once the links of `o` are put in front of those of `order`. */
    lemma PrependOrder(o: seq<SatLit>, order: seq<SatLit>, visited0: set<SatLit>,
                       conclusionLits: multiset<SatLit>)
      requires DistinctSeq(o) && DistinctSeq(order)
      requires visited0 == {} + (set x | x in order) && forall x :: x in o ==> x !in visited0
      requires EliminatedLater(o, visited0, conclusionLits) && EliminatedLater(order, {}, conclusionLits)
      ensures DistinctSeq(o + order) && EliminatedLater(o + order, {}, conclusionLits)
      ensures visited0 + (set x | x in o) == {} + (set x | x in o + order)
      ensures RedundantLinks(o + order) == RedundantLinks(o) + RedundantLinks(order)
    {
      EliminatedLaterPrepend(o, order, {}, conclusionLits);
      PrependVisited(o, order, {});
      RedundantLinksAppend(o, order);
    }

    /**
     * Reads the links as the premises and arguments of a chain. CVC4
     * asserts that a link whose clause is taken as a single literal has a
     * SAT literal; that assertion is the failure outcome.
     */
    method BuildChain() returns (ok: bool, children: seq<Term>, args: seq<Term>)
      requires |resLinks| >= 1
      ensures ok <==> forall i :: 0 <= i < |resLinks| ==>
                        TreatedAsClause(resLinks[i]) || resLinks[i].clause in translation
      ensures ok ==> children == ChainChildren(resLinks) && args == ChainArgs(resLinks)
    {
      children, args := [], [];
      var i := 0;
      while i < |resLinks|
        invariant 0 <= i <= |resLinks|
        invariant forall i' :: 0 <= i' < i ==> TreatedAsClause(resLinks[i']) || resLinks[i'].clause in translation
        invariant |children| == i && forall k :: 0 <= k < i ==> children[k] == resLinks[k].clause
        invariant |args| == if i == 0 then 0 else 2 * (i - 1)
        invariant forall j :: 1 <= j < i ==>
          PolArg(args, j) == BoolConst(resLinks[j].posFirst) && PivotArg(args, j) == resLinks[j].pivot
      {
        var link := resLinks[i];
        children := children + [link.clause];
        if !TreatedAsClause(link) && link.clause !in translation {
          return false, children, args;
        }
        if i > 0 {
          args := args + [BoolConst(link.posFirst), link.pivot];
        }
        i := i + 1;
      }
      SameChainArgs(resLinks, args);
      return true, children, args;
    }

    /**
     * The steps buffered for a chain: its CHAIN_RESOLUTION step for the
     * computed conclusion, followed, when the first computed conclusion
     * was not the expected one, by the steps reducing it.
     */
    function ChainBuffer(factored: bool, premises: seq<Term>, args: seq<Term>): seq<(Term, ProofStep)>
      requires WellFormedChain(premises, args)
    {
      var chainConclusion := ChainConclusion(premises, args);
      [(chainConclusion, ProofStep(CHAIN_RESOLUTION, premises, args))]
      + (if factored then factor(chainConclusion).0 else [])
    }

    lemma ChainBufferConcludes(factored: bool, premises: seq<Term>, args: seq<Term>)
      requires WellFormedChain(premises, args) && FactoringConcludes()
      ensures BufferConcludes(ChainBuffer(factored, premises, args))
    {
      var chainConclusion := ChainConclusion(premises, args);
      assert ReducedBy(chainConclusion, factor(chainConclusion));
    }

    /** Adds the buffered steps in order, each unless its fact already has one. */
    method AddSteps(buffer: seq<(Term, ProofStep)>)
      modifies this`steps
      ensures steps == AddedAll(old(steps), buffer)
    {
      var i := 0;
      while i < |buffer|
        invariant i <= |buffer| && steps == AddedAll(old(steps), buffer[..i])
      {
        assert buffer[..i + 1][..i] == buffer[..i];
        AddStep(buffer[i].0, buffer[i].1);
        i := i + 1;
      }
      assert buffer[..i] == buffer;
    }

    /**
     * Ends the chain whose learned clause is `conclusion` (with SAT literals
     * `conclusionLits`): justifies the redundant literals, builds the chain,
     * and, when the computed conclusion differs from the expected one,
     * repairs the crowding literals and reduces the repaired resolvent,
     * which must then be the expected conclusion. The CHAIN_RESOLUTION step
     * and the reduction steps are recorded, each unless its fact already has
     * one. A single link records nothing. The links are cleared in every
     * case.
     */
    method EndResChain(conclusion: Term, conclusionLits: multiset<SatLit>)
      returns (ok: bool, ghost order: seq<SatLit>, ghost premises: seq<Term>, ghost args: seq<Term>)
      requires ReasonsFollowTrail() && StepsConclude() && FactoringConcludes()
      requires |resLinks| >= 1
      modifies this`resLinks, this`redundantLits, this`steps
      ensures resLinks == [] && redundantLits == []
      ensures StepsConclude()
      ensures DistinctSeq(order) && EliminatedLater(order, {}, conclusionLits)
      ensures forall l :: l in old(redundantLits) ==> l in order
      ensures var chain := old(resLinks) + RedundantLinks(order);
        if ok && |chain| >= 2 then
          var built := LinksOf(ChainChildren(chain), ChainArgs(chain));
          var factored := ChainConclusion(ChainChildren(chain), ChainArgs(chain)) != conclusion;
          WellFormedChain(premises, args) && premises[0] == chain[0].clause
          && (forall x :: x in LinksOf(premises, args) ==> x in built)
          && multiset(built) <= multiset(LinksOf(premises, args))
          && AddedLinksEliminate(multiset(built), multiset(LinksOf(premises, args)),
                                 TargetLits(conclusion, conclusionLits))
          && (factored ==> factor(ChainConclusion(premises, args)).1 == conclusion)
          && steps == AddedAll(old(steps), ChainBuffer(factored, premises, args))
          && conclusion in steps
        else steps == old(steps)
    {
      order := ProcessRedundantLits(conclusionLits);
      var built, children, cargs := BuildChain();
      premises, args := children, cargs;
      if !built || |children| == 1 {
        resLinks := [];
        return built, order, premises, args;
      }
      var buffer;
      ok, premises, args, buffer := ChainSteps(conclusion, conclusionLits, children, cargs);
      if ok {
        ChainBufferConcludes(ChainConclusion(children, cargs) != conclusion, premises, args);
        AddedAllConcludes(steps, buffer);
        AddSteps(buffer);
        var m :| 0 <= m < |buffer| && buffer[m].0 == conclusion;
        assert conclusion in steps;
      }
      resLinks := [];
    }

    /**
     * The chain to record and the steps to buffer: the built chain and its
     * step when its conclusion is the expected `conclusion`; otherwise the
     * chain with the crowding literals eliminated again, its step and the
     * steps reducing its resolvent, which must reduce to `conclusion`. A
     * failed repair and a reduced clause other than `conclusion` are the
     * failure outcomes.
     */
    method ChainSteps(conclusion: Term, conclusionLits: multiset<SatLit>,
                      children: seq<Term>, cargs: seq<Term>)
      returns (ok: bool, premises: seq<Term>, args: seq<Term>, buffer: seq<(Term, ProofStep)>)
      requires WellFormedChain(children, cargs) && FactoringConcludes()
      ensures !ok ==> ChainConclusion(children, cargs) != conclusion
      ensures ok ==>
        WellFormedChain(premises, args) && premises[0] == children[0]
        && (forall x :: x in LinksOf(premises, args) ==> x in LinksOf(children, cargs))
        && multiset(LinksOf(children, cargs)) <= multiset(LinksOf(premises, args))
        && AddedLinksEliminate(multiset(LinksOf(children, cargs)), multiset(LinksOf(premises, args)),
                               TargetLits(conclusion, conclusionLits))
      ensures ok && ChainConclusion(children, cargs) == conclusion ==> premises == children && args == cargs
      ensures ok && ChainConclusion(children, cargs) != conclusion ==>
        factor(ChainConclusion(premises, args)).1 == conclusion
      ensures ok ==> buffer == ChainBuffer(ChainConclusion(children, cargs) != conclusion, premises, args)
      ensures ok ==> exists m :: 0 <= m < |buffer| && buffer[m].0 == conclusion
    {
      buffer := [];
      if ChainConclusion(children, cargs) == conclusion {
        buffer := ChainBuffer(false, children, cargs);
        assert buffer[0].0 == conclusion;
        return true, children, cargs, buffer;
      }
      ok, premises, args := RepairCrowding(conclusion, conclusionLits, children, cargs);
      if ok {
        assert ReducedBy(ChainConclusion(premises, args), factor(ChainConclusion(premises, args)));
        ok, buffer := ReduceChain(conclusion, ChainConclusion(premises, args),
                                  ProofStep(CHAIN_RESOLUTION, premises, args));
      }
    }

    /**
     * Eliminates the crowding literals of a chain whose conclusion is not
     * the expected one: the literals of the resolvent missing from the
     * expected clause. A failed repair is the failure outcome.
     */
    method RepairCrowding(conclusion: Term, conclusionLits: multiset<SatLit>,
                          children: seq<Term>, cargs: seq<Term>)
      returns (ok: bool, premises: seq<Term>, args: seq<Term>)
      requires WellFormedChain(children, cargs)
      ensures ok ==>
        WellFormedChain(premises, args) && premises[0] == children[0]
        && (forall x :: x in LinksOf(premises, args) ==> x in LinksOf(children, cargs))
        && multiset(LinksOf(children, cargs)) <= multiset(LinksOf(premises, args))
        && AddedLinksEliminate(multiset(LinksOf(children, cargs)), multiset(LinksOf(premises, args)),
                               TargetLits(conclusion, conclusionLits))
    {
      premises, args := children, cargs;
      var crowding := ProcessCrowdingLits(Children(ChainConclusion(children, cargs)),
                                          TargetLits(conclusion, conclusionLits), children, cargs);
      if crowding.AssertionFailed? {
        return false, premises, args;
      }
      if crowding.Duplicated? {
        premises, args := crowding.premises, crowding.pivots;
      }
      return true, premises, args;
    }

    /**
     * Reduces the resolvent `chainConclusion` of a repaired chain; CVC4
     * asserts that the reduced clause is the expected `conclusion`, and
     * that assertion is the failure outcome. The steps to buffer are the
     * chain's `step` and the reduction's, and one of them is for
     * `conclusion`.
     */
    method ReduceChain(conclusion: Term, chainConclusion: Term, step: ProofStep)
      returns (ok: bool, buffer: seq<(Term, ProofStep)>)
      requires ReducedBy(chainConclusion, factor(chainConclusion))
      ensures ok <==> factor(chainConclusion).1 == conclusion
      ensures buffer == [(chainConclusion, step)] + factor(chainConclusion).0
      ensures ok ==> exists m :: 0 <= m < |buffer| && buffer[m].0 == conclusion
    {
      buffer := [(chainConclusion, step)] + factor(chainConclusion).0;
      var reduced := factor(chainConclusion);
      if reduced.1 != conclusion {
        return false, buffer;
      }
      if reduced.1 == chainConclusion {
        assert buffer[0].0 == conclusion;
      } else {
        var m :| 0 <= m < |reduced.0| && reduced.0[m].0 == reduced.1;
        assert buffer[m + 1] == reduced.0[m];
      }
      return true, buffer;
    }

    /** Ends a chain whose learned clause is the unit of `lit`. */
    method EndResChainLit(lit: SatLit) returns (ok: bool)
      requires ReasonsFollowTrail() && StepsConclude() && FactoringConcludes()
      requires |resLinks| >= 1
      modifies this`resLinks, this`redundantLits, this`steps
      ensures resLinks == [] && redundantLits == [] && StepsConclude()
      ensures forall f :: f in old(steps) ==> f in steps && steps[f] == old(steps)[f]
    {
      ghost var order, premises, args;
      ok, order, premises, args := EndResChain(LitNode(atom, lit), multiset{lit});
    }

    /** Ends a chain whose learned clause is `clause`. */
    method EndResChainClause(clause: seq<SatLit>) returns (ok: bool)
      requires ReasonsFollowTrail() && StepsConclude() && FactoringConcludes()
      requires |resLinks| >= 1
      modifies this`resLinks, this`redundantLits, this`steps
      ensures resLinks == [] && redundantLits == [] && StepsConclude()
      ensures forall f :: f in old(steps) ==> f in steps && steps[f] == old(steps)[f]
    {
      ghost var order, premises, args;
      ok, order, premises, args := EndResChain(ClauseNodeOf(atom, nodeId, clause), multiset(clause));
    }

    // ------------------------------------------------------------------
    // Explaining literals

    /**
     * The check against a cyclic justification: a literal's reason must not
     * contain the literal's negation.
     */
    method NoNegationIn(c: seq<SatLit>, lit: SatLit) returns (ok: bool)
      ensures ok <==> Neg(lit) !in c
    {
      var i := 0;
      while i < |c|
        invariant 0 <= i <= |c|
        invariant Neg(lit) !in c[..i]
      {
        if Neg(c[i]) == lit {
          assert c[i] == Neg(lit);
          return false;
        }
        assert c[..i + 1] == c[..i] + [c[i]];
        i := i + 1;
      }
      assert c[..i] == c;
      return true;
    }

    /**
     * Explains a propagated literal by a CHAIN_RESOLUTION of its reason with
     * the explanations of the negations of the reason's other literals,
     * recorded for the literal's node unless that node is among the
     * premises used (a cyclic proof, then nothing is recorded). A reason
     * containing the literal's negation violates an assertion of CVC4:
     * the failure outcome. Returns the premises used.
     */
    method ExplainLit(lit: SatLit) returns (ok: bool, premises: set<Term>)
      requires ReasonsFollowTrail() && StepsConclude()
      modifies this`steps
      ensures StepsConclude()
      ensures forall f :: f in old(steps) ==> f in steps && steps[f] == old(steps)[f]
      ensures reason(lit.v).None? ==> ok && premises == {} && steps == old(steps)
      ensures reason(lit.v).Some? && Neg(lit) in reason(lit.v).value ==> !ok
      ensures ok && reason(lit.v).Some? ==>
        ClauseNodeOf(atom, nodeId, reason(lit.v).value) in premises
        && (LitNode(atom, lit) in premises || LitNode(atom, lit) in steps)
      decreases trail(lit.v), 2
    {
      if reason(lit.v).None? {
        return true, {};
      }
      var c := reason(lit.v).value;
      ok := NoNegationIn(c, lit);
      if !ok {
        return false, {};
      }
      assert c[0] == lit;
      var children, args;
      ok, children, args, premises := ExplainReason(lit, c);
      if !ok {
        return;
      }
      // a proof of the literal using the literal itself is abandoned
      if LitNode(atom, lit) in premises {
        return;
      }
      AddLitStep(lit, c, children, args);
    }

    /** Records the chain resolving the reason `c` of `lit` against the units as the step for `lit`. */
    method AddLitStep(lit: SatLit, c: seq<SatLit>, children: seq<Term>, args: seq<Term>)
      requires ReasonsFollowTrail() && StepsConclude()
      requires reason(lit.v) == Some(c) && c[0] == lit
      requires children == [ClauseNodeOf(atom, nodeId, c)] + UnitPremises(atom, Others(c, lit))
      requires args == UnitArgs(atom, Others(c, lit))
      modifies this`steps
      ensures steps == AddedFirst(old(steps), LitNode(atom, lit), ProofStep(CHAIN_RESOLUTION, children, args))
      ensures StepsConclude()
    {
      var step := ProofStep(CHAIN_RESOLUTION, children, args);
      assert StepConcludes(LitNode(atom, lit), step) by {
        if |c| >= 2 {
          ReasonChainConcludes(atom, nodeId, c, lit);
        }
      }
      AddedFirstConcludes(steps, LitNode(atom, lit), step);
      AddStep(LitNode(atom, lit), step);
    }

    /**
     * The chain for a literal whose reason is `c`: the reason's clause node,
     * then for each other literal of `c` (explained first) the node of its
     * negation, with polarity and pivot arguments.
     */
    method ExplainReason(lit: SatLit, c: seq<SatLit>)
      returns (ok: bool, children: seq<Term>, args: seq<Term>, premises: set<Term>)
      requires ReasonsFollowTrail() && StepsConclude()
      requires reason(lit.v) == Some(c) && c[0] == lit
      modifies this`steps
      ensures StepsConclude()
      ensures forall f :: f in old(steps) ==> f in steps && steps[f] == old(steps)[f]
      ensures ok ==> children == [ClauseNodeOf(atom, nodeId, c)] + UnitPremises(atom, Others(c, lit))
      ensures ok ==> args == UnitArgs(atom, Others(c, lit))
      ensures ClauseNodeOf(atom, nodeId, c) in premises
      decreases trail(lit.v), 1
    {
      children, args := [ClauseNodeOf(atom, nodeId, c)], [];
      premises := {ClauseNodeOf(atom, nodeId, c)};
      var i := 0;
      ghost var done: seq<SatLit> := [];
      while i < |c|
        invariant 0 <= i <= |c|
        invariant ReasonExplained(lit, c, i, done, children, args, premises, old(steps))
      {
        ok, done, children, args, premises := ExplainReasonNext(lit, c, i, done, children, args, premises, old(steps));
        if !ok {
          return false, children, args, premises;
        }
        i := i + 1;
      }
      assert c[..i] == c;
      ok := true;
    }

    /** Every step recorded concludes its fact, and the steps of `steps0` are kept. */
    ghost predicate StepsKept(steps0: map<Term, ProofStep>)
      reads this`steps
    {
      StepsConclude() && forall f :: f in steps0 ==> f in steps && steps[f] == steps0[f]
    }

    /**
     * The chain after the first `i` literals of the reason `c` of `lit`:
     * the reason clause followed by the units explaining the other literals
     * among them.
     */
    ghost predicate ReasonExplained(lit: SatLit, c: seq<SatLit>, i: nat, done: seq<SatLit>, children: seq<Term>,
                                    args: seq<Term>, premises: set<Term>, steps0: map<Term, ProofStep>)
      reads this`steps
      requires i <= |c|
    {
      done == Others(c[..i], lit)
      && children == [ClauseNodeOf(atom, nodeId, c)] + UnitPremises(atom, done)
      && args == UnitArgs(atom, done)
      && ClauseNodeOf(atom, nodeId, c) in premises
      && StepsKept(steps0)
    }

    /** Explains the negation of literal `i` of the reason of `lit` and adds its unit to the chain. */
    method ExplainReasonNext(lit: SatLit, c: seq<SatLit>, i: nat, ghost done0: seq<SatLit>, children0: seq<Term>,
                             args0: seq<Term>, premises0: set<Term>, ghost steps0: map<Term, ProofStep>)
      returns (ok: bool, ghost done: seq<SatLit>, children: seq<Term>, args: seq<Term>, premises: set<Term>)
      requires ReasonsFollowTrail()
      requires reason(lit.v) == Some(c) && c[0] == lit && i < |c|
      requires ReasonExplained(lit, c, i, done0, children0, args0, premises0, steps0)
      modifies this`steps
      ensures ClauseNodeOf(atom, nodeId, c) in premises && StepsKept(steps0)
      ensures ok ==> ReasonExplained(lit, c, i + 1, done, children, args, premises, steps0)
      decreases trail(lit.v), 0
    {
      done, children, args, premises := done0, children0, args0, premises0;
      OthersPrefixSnoc(c, i, lit);
      var l := c[i];
      if l != lit {
        assert i >= 1;
        var childOk, childPremises := ExplainLit(Neg(l));
        if !childOk {
          return false, done, children, args, premises;
        }
        UnitSnoc(atom, ClauseNodeOf(atom, nodeId, c), done, l);
        children := children + [LitNode(atom, Neg(l))];
        args := args + [BoolConst(!l.negated), atom(l.v)];
        premises := premises + childPremises + {LitNode(atom, Neg(l))};
        done := done + [l];
      }
      return true, done, children, args, premises;
    }

    // ------------------------------------------------------------------
    // Closing the proof of false

    /**
     * Explains the negation of every literal of the conflict, collecting
     * the chain that resolves the conflicting clause against those units.
     */
    method ExplainConflictLits(conflictNode: Term, conflict: seq<SatLit>)
      returns (ok: bool, children: seq<Term>, args: seq<Term>, premises: set<Term>)
      requires ReasonsFollowTrail() && StepsConclude()
      modifies this`steps
      ensures StepsConclude()
      ensures forall f :: f in old(steps) ==> f in steps && steps[f] == old(steps)[f]
      ensures ok ==> children == [conflictNode] + UnitPremises(atom, conflict)
      ensures ok ==> args == UnitArgs(atom, conflict)
      ensures ok ==> forall j :: 0 <= j < |conflict| ==> LitNode(atom, Neg(conflict[j])) in premises
    {
      children, args, premises := [conflictNode], [], {};
      var i := 0;
      while i < |conflict|
        invariant 0 <= i <= |conflict|
        invariant children == [conflictNode] + UnitPremises(atom, conflict[..i])
        invariant args == UnitArgs(atom, conflict[..i])
        invariant forall j :: 0 <= j < i ==> LitNode(atom, Neg(conflict[j])) in premises
        invariant StepsConclude()
        invariant forall f :: f in old(steps) ==> f in steps && steps[f] == old(steps)[f]
      {
        var l := conflict[i];
        var childOk, childPremises := ExplainLit(Neg(l));
        if !childOk {
          return false, children, args, premises;
        }
        assert conflict[..i + 1] == conflict[..i] + [l];
        UnitSnoc(atom, conflictNode, conflict[..i], l);
        children := children + [LitNode(atom, Neg(l))];
        args := args + [BoolConst(!l.negated), atom(l.v)];
        ghost var before := premises;
        premises := premises + childPremises + {LitNode(atom, Neg(l))};
        assert before <= premises && LitNode(atom, Neg(conflict[i])) in premises;
        i := i + 1;
      }
      assert conflict[..i] == conflict;
      ok := true;
    }

    /**
     * One pass over the free assumptions of the proof of false: each one
     * that is neither processed already nor an input assumption is marked
     * processed, and when it is the node of a SAT literal that literal is
     * explained (and another pass is asked for).
     */
    method ExpandAssumptions(fassumps: set<Term>, premises0: set<Term>)
      returns (ok: bool, expanded: bool, premises: set<Term>)
      requires ReasonsFollowTrail() && StepsConclude()
      modifies this`steps
      ensures StepsConclude()
      ensures forall f :: f in old(steps) ==> f in steps && steps[f] == old(steps)[f]
      ensures premises0 <= premises
      ensures ok ==> forall fa :: fa in fassumps ==> fa in premises || fa in assumptions
      ensures !expanded ==> steps == old(steps)
      ensures !expanded ==> forall fa :: fa in premises && fa !in premises0 ==> fa !in translation
      ensures expanded ==> exists fa :: fa in translation && fa !in premises0 && fa in premises
    {
      ok, expanded, premises := true, false, premises0;
      var rest := fassumps;
      while rest != {}
        invariant rest <= fassumps && premises0 <= premises
        invariant forall fa :: fa in fassumps && fa !in rest ==> fa in premises || fa in assumptions
        invariant !expanded ==> steps == old(steps)
        invariant !expanded ==> forall fa :: fa in premises && fa !in premises0 ==> fa !in translation
        invariant expanded ==> exists fa :: fa in translation && fa !in premises0 && fa in premises
        invariant StepsConclude()
        invariant forall f :: f in old(steps) ==> f in steps && steps[f] == old(steps)[f]
        decreases |rest|
      {
        var fa :| fa in rest;
        rest := rest - {fa};
        if fa in premises || fa in assumptions {
          // already processed, or an input
        } else if fa !in translation {
          premises := premises + {fa};
        } else {
          expanded := true;
          var childOk, childPremises := ExplainLit(translation[fa]);
          if !childOk {
            return false, expanded, premises + {fa};
          }
          premises := premises + childPremises + {fa};
        }
      }
    }

    /**
     * Closes the proof of false for the conflict `conflict` with node
     * `conflictNode`: every negated literal of the conflict is explained, a
     * chain resolving the conflict against those units is recorded for
     * false, and then, until nothing changes, every free assumption of the
     * proof of false that is a SAT literal is explained in turn. Nothing is
     * done when the conflict node is false itself.
     */
    method FinalizeProof(conflictNode: Term, conflict: seq<SatLit>) returns (ok: bool, premises: set<Term>)
      requires ReasonsFollowTrail() && StepsConclude()
      requires conflictNode == ClauseNodeOf(atom, nodeId, conflict)
               || (|conflict| == 1 && conflictNode == LitNode(atom, conflict[0]))
      modifies this`steps
      ensures StepsConclude()
      ensures forall f :: f in old(steps) ==> f in steps && steps[f] == old(steps)[f]
      ensures conflictNode == False ==> ok && steps == old(steps)
      ensures ok && conflictNode != False ==> False in steps
      ensures ok && conflictNode != False ==>
        forall fa :: fa in FreeAssumptions(steps, False) ==> fa in premises || fa in assumptions
    {
      premises := {};
      if conflictNode == False {
        return true, premises;
      }
      var children, args, conflictPremises;
      ok, children, args, conflictPremises := ExplainConflictLits(conflictNode, conflict);
      if !ok {
        return;
      }
      var step := ProofStep(CHAIN_RESOLUTION, children, args);
      assert StepConcludes(False, step) by {
        if |conflict| >= 1 {
          ConflictChainConcludesFalse(atom, nodeId, conflictNode, conflict);
        }
      }
      AddedFirstConcludes(steps, False, step);
      AddStep(False, step);
      premises := conflictPremises;
      var expanded := true;
      while expanded
        invariant False in steps && StepsConclude()
        invariant forall f :: f in old(steps) ==> f in steps && steps[f] == old(steps)[f]
        invariant !expanded ==> forall fa :: fa in FreeAssumptions(steps, False) ==> fa in premises || fa in assumptions
        decreases |translation.Keys - premises|, if expanded then 1 else 0
      {
        var fassumps := FreeAssumptions(steps, False);
        ghost var before := premises;
        var passOk, nextPremises;
        passOk, expanded, nextPremises := ExpandAssumptions(fassumps, premises);
        if !passOk {
          return false, nextPremises;
        }
        PendingShrinks(translation.Keys, before, nextPremises, expanded);
        premises := nextPremises;
      }
      ok := true;
    }

    /** Stores a unit conflict for a later `FinalizeProofStored`; one may be pending at most. */
    method StoreUnitConflict(lit: SatLit) returns (ok: bool)
      modifies this`conflictLit
      ensures ok <==> old(conflictLit).None?
      ensures conflictLit == (if ok then Some(lit) else old(conflictLit))
    {
      if conflictLit.Some? {
        return false;
      }
      conflictLit := Some(lit);
      return true;
    }

    /** Closes the proof of false for the stored unit conflict. */
    method FinalizeProofStored() returns (ok: bool)
      requires ReasonsFollowTrail() && StepsConclude()
      modifies this`steps
      ensures conflictLit.None? ==> !ok
      ensures StepsConclude()
      ensures forall f :: f in old(steps) ==> f in steps && steps[f] == old(steps)[f]
      ensures ok && LitNode(atom, conflictLit.value) != False ==> False in steps
    {
      if conflictLit.None? {
        return false;
      }
      var lit := conflictLit.value;
      ghost var premises;
      ok, premises := FinalizeProof(LitNode(atom, lit), [lit]);
    }

    /** Closes the proof of false for a conflicting literal, registering it as an input first when `adding`. */
    method FinalizeProofLit(lit: SatLit, adding: bool) returns (ok: bool)
      requires ReasonsFollowTrail() && StepsConclude()
      modifies this`steps, this`assumptions
      ensures assumptions == old(assumptions) + (if adding then {LitNode(atom, lit)} else {})
      ensures StepsConclude()
      ensures forall f :: f in old(steps) ==> f in steps && steps[f] == old(steps)[f]
      ensures ok && LitNode(atom, lit) != False ==> False in steps
    {
      if adding {
        RegisterSatAssumptions([LitNode(atom, lit)]);
      }
      ghost var premises;
      ok, premises := FinalizeProof(LitNode(atom, lit), [lit]);
    }

    /** Closes the proof of false for a conflicting clause, registering it as an input first when `adding`. */
    method FinalizeProofClause(clause: seq<SatLit>, adding: bool) returns (ok: bool)
      requires ReasonsFollowTrail() && StepsConclude()
      modifies this`steps, this`assumptions
      ensures assumptions == old(assumptions) + (if adding then {ClauseNodeOf(atom, nodeId, clause)} else {})
      ensures StepsConclude()
      ensures forall f :: f in old(steps) ==> f in steps && steps[f] == old(steps)[f]
      ensures ok ==> False in steps
    {
      var node := ClauseNodeOf(atom, nodeId, clause);
      if adding {
        RegisterSatAssumptions([node]);
      }
      ghost var premises;
      ok, premises := FinalizeProof(node, clause);
    }

    /** The proof of false: its recorded step, or false assumed when none was recorded. */
    function GetProof(): (r: ProofStep)
      reads this`steps
      ensures False in steps && StepsConclude() ==> StepConcludes(False, r)
      ensures False !in steps ==> r.rule == ASSUME && r.children == [] && r.args == [False]
    {
      if False in steps then steps[False] else ProofStep(ASSUME, [], [False])
    }

    /** Registers the node of a literal as an input assumption. */
    method RegisterSatLitAssumption(lit: SatLit)
      modifies this`assumptions
      ensures assumptions == old(assumptions) + {LitNode(atom, lit)}
    {
      assumptions := assumptions + {LitNode(atom, lit)};
    }

    /** Registers clause nodes as input assumptions. */
    method RegisterSatAssumptions(assumps: seq<Term>)
      modifies this`assumptions
      ensures assumptions == old(assumptions) + set a | a in assumps
    {
      var i := 0;
      while i < |assumps|
        invariant 0 <= i <= |assumps|
        invariant assumptions == old(assumptions) + set a | a in assumps[..i]
      {
        assert assumps[..i + 1] == assumps[..i] + [assumps[i]];
        assumptions := assumptions + {assumps[i]};
        i := i + 1;
      }
      assert assumps[..i] == assumps;
    }
  }

  /** Inserting `y` at `pos` into a sequence where `x` was inserted at `pos` before. */
  lemma InsertAtTwice<T>(l: seq<T>, x: seq<T>, y: seq<T>, pos: nat)
    requires pos <= |l|
    ensures var r := l[..pos] + x + l[pos..];
            r[..pos] + y + r[pos..] == l[..pos] + (y + x) + l[pos..]
  {
    var r := l[..pos] + x + l[pos..];
    assert r[..pos] == l[..pos];
    assert r[pos..] == x + l[pos..];
  }

  /** Inserting `y` at the end of `l`, before an `x` appended earlier. */
  lemma InsertAtEnd<T>(l: seq<T>, x: seq<T>, y: seq<T>)
    ensures var r := l + x;
            r[..|l|] + y + r[|l|..] == l + (y + x)
  {
    var r := l + x;
    assert r[..|l|] == l;
    assert r[|l|..] == x;
  }

  lemma PrependVisited(o: seq<SatLit>, order: seq<SatLit>, visited0: set<SatLit>)
    requires DistinctSeq(o) && DistinctSeq(order)
    requires forall x :: x in o ==> x !in visited0 + (set x | x in order)
    requires forall x :: x in order ==> x !in visited0
    ensures DistinctSeq(o + order) && forall x :: x in o + order ==> x !in visited0
    ensures (visited0 + (set x | x in order)) + (set x | x in o) == visited0 + (set x | x in o + order)
  {
    var s := o + order;
    forall a, b | 0 <= a < b < |s|
      ensures s[a] != s[b]
    {
      if a < |o| && b >= |o| {
        assert s[b] in order;
      }
    }
  }

  lemma MultisetAddGrows<T>(a: multiset<T>, b: multiset<T>)
    ensures a <= a + b
  {
  }

  lemma MultisetSubsetTrans<T>(a: multiset<T>, b: multiset<T>, c: multiset<T>)
    requires a <= b && b <= c
    ensures a <= c
  {
  }

  lemma {:induction false} SubsetCard<T>(a: set<T>, b: set<T>)
    requires a <= b
    ensures |a| <= |b|
    decreases |b|
  {
    if a != {} {
      var x :| x in a;
      SubsetCard(a - {x}, b - {x});
    }
  }

  /**
   * The fixpoint's measure: the translated facts not yet processed never
   * grow, and shrink on a pass that explained a new one.
   */
  lemma PendingShrinks<T>(k: set<T>, before: set<T>, after: set<T>, expanded: bool)
    requires before <= after
    requires expanded ==> exists x :: x in k && x !in before && x in after
    ensures |k - after| <= |k - before|
    ensures expanded ==> |k - after| < |k - before|
  {
    SubsetCard(k - after, k - before);
    if expanded {
      var x :| x in k && x !in before && x in after;
      SubsetCard(k - after, (k - before) - {x});
    }
  }
}
