# CVC4 proof production and quantifier helpers, modelled in Dafny

This project models part of the CVC4 SMT solver in Dafny and proves properties of the model.
It covers the proof-production pipeline and two helpers used by quantifier instantiation.

The proof-production pipeline has four parts:

- **SAT proof manager** (`SatProof`, `SatClauses`). The SAT solver performs resolution chains while it learns clauses. The manager buffers each chain as a list of links and turns it into a CHAIN_RESOLUTION step.
  - A literal whose prefix the learned clause no longer contains ("crowding") has its link repeated.
  - Literals that the solver dropped as redundant are explained from their reason clauses.
  - The proof of `false` is closed by a fixpoint. Every literal still free is explained from its reason, or else recorded as an assumption.
- **New proof manager** (`NewProof`). It keeps the clause-id bookkeeping of the veriT-style proof object:
  - ids of input assertions, SAT literals and SAT clauses;
  - clause definitions;
  - buffered resolution chains;
  - memoised justification of propagated literals;
  - the final resolution that derives the empty clause.
- **veriT post-processor** (`VeritRules`, `VeritSteps`, `Verit`, `VeritDriver`). A callback rewrites each internal proof step into veriT steps stored under VERIT_RULE. A driver translates the proof bottom-up and, outside extended mode, looks through SYMM and REORDERING premises. A final callback makes a proof of `(cl false)` end in the empty clause `(cl)`.
- **Lean post-processor** (`Lean`). It translates the same internal steps into Lean-format steps stored under LEAN_RULE.

Shared modules:

- `Terms`: the node language;
- `Resolution`: the meaning of (chain) resolution over nodes read as clauses;
- `ProofRules`: the internal proof rules;
- `ProofStore`: the proof-node and step-store objects the post-processors write to.

The two quantifier helpers:

- **Term-tuple enumerator** (`TupleEnum`, `TupleArith`). It enumerates one term index per quantified variable, in one of three orders:
  - stages of equal digit sum;
  - stages of equal digit maximum;
  - sorted scores and their permutations ("social").

  It skips combinations that a recorded failure excludes. Every combination it moves to has a strictly smaller rank in a well-founded order, so the enumeration ends.
- **Extended rewriter** (`ExtRewrite`). It rewrites children first, then applies the ordinary rewriter, then a local rule, and caches the result. The local rules are:
  - bit-vector subsumption for AND/OR/ULT/LSHR;
  - two ITE rules;
  - totalisation of division;
  - sorting of commutative children.

Code that works by changing state is modelled by classes whose methods are proved against specification functions. These include the managers, the callbacks with their step store, the enumerator and the rewriter with its cache. The translations themselves are pure functions, and lemmas state what they conclude.

## Model

| member | source | states |
|---|---|---|
| SatClauses.LitNode | src/prop/sat_proof_manager.cpp:51-58 | the node of a SAT literal is its atom, under NOT when the literal is negated |
| SatClauses.ClauseNodeOf | src/prop/sat_proof_manager.cpp:60-75 | the node of a clause is the OR of its literals' nodes, ordered by node id; it holds exactly those nodes |
| SatClauses.UnitPremises | src/prop/sat_proof_manager.cpp:643-672 | the unit premises resolving away literals are the nodes of their negations, one per literal, in order |
| SatClauses.UnitArgs | src/prop/sat_proof_manager.cpp:643-672 | their chain arguments: polarity true exactly for a positive literal, the literal's atom as pivot |
| SatClauses.UnitSnoc | src/prop/sat_proof_manager.cpp:643-672 | adding one literal to an explanation adds its unit premise and its two arguments at the end |
| SatClauses.UnitChainLinks | src/prop/sat_proof_manager.cpp:643-672 | every link of a unit chain resolves against a unit, link j removing the node of literal j - 1 |
| SatClauses.UnitChainResolvent | src/prop/sat_proof_manager.cpp:643-672 | resolving a first premise against the units of some literals removes one occurrence of each literal's node and nothing else |
| SatClauses.AtomNotClause | src/prop/sat_proof_manager.cpp:60-75 | a clause node of two or more literals is neither an atom nor a literal node |
| SatClauses.ReasonChainConcludes | src/prop/sat_proof_manager.cpp:643-690 | the chain explaining a propagated literal (its reason resolved against the negated units of the other literals) concludes exactly the literal |
| SatClauses.ConflictChainConcludesFalse | src/prop/sat_proof_manager.cpp:814-855 | the closing chain (the conflict resolved against the negated units of all its literals) concludes false |
| SatProof.LinksOf | src/prop/sat_proof_manager.cpp:175-221 | link m of a chain is premise m + 1 with the polarity and pivot at argument positions 2m and 2m + 1 |
| SatProof.DuplicateLink | src/prop/sat_proof_manager.cpp:530-534 | inserting a copy of premise k and of its argument pair repeats link k and changes no other link |
| SatProof.InsertPos | src/prop/sat_proof_manager.cpp:391-406 | the insertion point that realises the `std::sort` by index of the initial last-inclusion queue, one literal at a time: every entry before it has an index not above the new one, every entry after it a larger one; the order it leaves among equal indices is one `std::sort` may produce |
| SatProof.StrictPos | src/prop/sat_proof_manager.cpp:498-517 | the position the backward scan stops at: after exactly the entries whose index is below the new literal's |
| SatProof.InsertEntry | src/prop/sat_proof_manager.cpp:498-517 | inserting at such a point keeps the queue sorted by index, its literals distinct and in agreement with the literal-to-index map |
| SatProof.ChainChildren | src/prop/sat_proof_manager.cpp:175-221 | the premises of the chain the links denote are the links' clauses, in order |
| SatProof.ChainArgs | src/prop/sat_proof_manager.cpp:175-221 | the chain's arguments hold, for each link after the first, its polarity as a Boolean constant and its pivot |
| SatProof.ChainOfLinks | src/prop/sat_proof_manager.cpp:175-221 | the chain read from the links is well formed and link j eliminates a literal exactly when the link says it does |
| SatProof.AddedFirst | src/prop/sat_proof_manager.cpp:327 | adding a step to the lazy store keeps every fact's earlier step and stores the new one only for a fact without one |
| SatProof.AddedFirstConcludes | src/prop/sat_proof_manager.cpp:327 | adding a CHAIN_RESOLUTION step that concludes its fact keeps every stored chain step concluding its fact |
| SatProof.AddedAll | src/prop/sat_proof_manager.cpp:322-330 | adding buffered steps in order adds a key for each buffered fact and keeps every earlier step |
| SatProof.AddedAllFirst | src/prop/sat_proof_manager.cpp:322-330 | the step stored for a new fact is the first buffered step for it |
| SatProof.AddedAllConcludes | src/prop/sat_proof_manager.cpp:322-330 | adding buffered steps that conclude their facts keeps the store's chain steps concluding theirs |
| SatProof.LinksAfterEndAsWritten | src/prop/sat_proof_manager.cpp:222-229 | as written, ending a chain of one link leaves that link in the buffer, while every longer chain empties it |
| SatProof.StaleLinkAfterSinglePremiseChain | src/prop/sat_proof_manager.cpp:77-87 | the leftover link makes the next chain resolve the stale clause against the new one on the null pivot instead of starting at the new clause |
| SatProof.Reach | src/prop/sat_proof_manager.cpp:860-936 | the facts reached from a root through stored steps include every root and stay closed under the steps' premises |
| SatProof.VisitKeepsClosed | src/prop/sat_proof_manager.cpp:860-936 | expanding one fact keeps the reached set closed under premises |
| SatProof.FreeAssumptions | src/prop/sat_proof_manager.cpp:865-870 | the free assumptions of a proof are reached facts without a step; a root without a step is one |
| SatProof.FreeAssumptionsClosed | src/prop/sat_proof_manager.cpp:865-870 | every premise of a reached step is reached, and a reached premise without a step is a free assumption |
| SatProof.PendingShrinks | src/prop/sat_proof_manager.cpp:860-936 | the fixpoint's measure (translated facts not yet processed) never grows and shrinks on a pass that explained a new fact |
| SatProof.SatProofManager.constructor | src/prop/sat_proof_manager.cpp:26-40 | a fresh manager has no links, no redundant literals, no steps and no pending unit conflict |
| SatProof.SatProofManager.AddStep | src/prop/sat_proof_manager.cpp:327 | the store becomes the first-writer-wins addition of the step |
| SatProof.SatProofManager.StartResChain | src/prop/sat_proof_manager.cpp:77-87 | appends a link for the starting clause with a null pivot |
| SatProof.SatProofManager.AddResolutionStepLit | src/prop/sat_proof_manager.cpp:89-113 | a redundant literal is only queued; otherwise a link to the unit of its negation, pivoting on its atom with the literal's polarity, is appended |
| SatProof.SatProofManager.AddResolutionStepClause | src/prop/sat_proof_manager.cpp:115-137 | appends a link to the clause's node pivoting on the literal's atom, with polarity true for a negated literal |
| SatProof.SatProofManager.UnitLinkResolvesLiteral | src/prop/sat_proof_manager.cpp:89-113 | the link added for a literal removes exactly that literal: resolving it against the unit of its negation leaves nothing |
| SatProof.SatProofManager.ClauseLinkResolvesLiteral | src/prop/sat_proof_manager.cpp:115-137 | the link added for a clause containing a literal removes that literal from the clause and its negation from the accumulated clause |
| SatProof.SatProofManager.FindLastInclusion | src/prop/sat_proof_manager.cpp:336-356 | the index of the last link whose clause contains the literal, or the number of links exactly when none does |
| SatProof.SatProofManager.CountOffending | src/prop/sat_proof_manager.cpp:364-376 | the offending literals are exactly the resolvent's literals missing from the target clause, each counted with its number of occurrences in the resolvent |
| SatProof.SatProofManager.InitialLastInclusion | src/prop/sat_proof_manager.cpp:391-406 | on success the queue holds every offending literal with its last inclusion, sorted by index, agreeing with the map |
| SatProof.QueueLit | src/prop/sat_proof_manager.cpp:498-517 | maps the new literal to its index; the new queue is the old one with the literal inserted right after the entries with smaller indices, and unchanged when there are none; the queue stays sorted and distinct |
| SatProof.SatProofManager.IntroduceLit | src/prop/sat_proof_manager.cpp:481-527 | a literal brought in by a repeated clause gets a last inclusion strictly after the offending literal's, leaving earlier entries and map values alone, and its count grows by the number of repeats (from 0 for a new literal) |
| SatProof.SatProofManager.AddIntroducedLits | src/prop/sat_proof_manager.cpp:481-527 | registers every literal of the repeated clause except the eliminated one and the target's; each newly offending literal is missing from the target |
| SatProof.SatProofManager.IntroduceNext | src/prop/sat_proof_manager.cpp:481-527 | one step of that loop keeps the queue invariant and the bound on inclusions |
| SatProof.SatProofManager.RepeatLink | src/prop/sat_proof_manager.cpp:530-534 | inserting count copies of link k adds exactly count copies of it to the multiset of links and no other link |
| SatProof.SatProofManager.RepeatEliminator | src/prop/sat_proof_manager.cpp:530-534 | the repeated link eliminates an offending literal missing from the target, so every link added eliminates one |
| SatProof.SatProofManager.FindEliminator | src/prop/sat_proof_manager.cpp:457-469 | the first link from the given index on that eliminates the literal, or the number of links when none does |
| SatProof.SatProofManager.ProcessCrowdingLits | src/prop/sat_proof_manager.cpp:358-545 | no crowding exactly when every resolvent literal is in the target; otherwise the repaired chain keeps the first premise, only repeats existing links, loses none, and every added link eliminates a literal missing from the target |
| SatProof.SatProofManager.EliminateOffending | src/prop/sat_proof_manager.cpp:419-541 | one offending literal: the link repeated is after its last inclusion and eliminates it; the queue invariant holds and added links eliminate literals missing from the target |
| SatProof.SatProofManager.RedundantLink | src/prop/sat_proof_manager.cpp:547-616 | the link removing a redundant literal pivots on its atom with its polarity, eliminates it, and resolves with its reason or, lacking one, with the unit of its negation |
| SatProof.SatProofManager.ProcessRedundantLit | src/prop/sat_proof_manager.cpp:547-616 | inserts at the given position the links justifying the literal, each literal once, every literal its reason brings in eliminated by a later link, all on earlier trail positions |
| SatProof.SatProofManager.ProcessReasonLits | src/prop/sat_proof_manager.cpp:590-599 | every literal of the reason after the first that is not in the learned clause is justified, on a strictly earlier trail position |
| SatProof.SatProofManager.ProcessRedundantLits | src/prop/sat_proof_manager.cpp:166-173 | appends the links justifying every stored redundant literal, each literal once, and empties the redundant list |
| SatProof.SatProofManager.BuildChain | src/prop/sat_proof_manager.cpp:175-221 | succeeds exactly when every link's clause is taken as a clause or has a SAT literal, and then yields the chain the links denote |
| SatProof.SatProofManager.AddSteps | src/prop/sat_proof_manager.cpp:322-330 | the store becomes the in-order, first-writer-wins addition of the buffered steps |
| SatProof.SatProofManager.EndResChain | src/prop/sat_proof_manager.cpp:162-334 | on success with two or more links, the recorded chain is well formed, starts at the first link's clause, only repeats links, and every repeated link eliminates a literal missing from the learned clause; the store gains the chain step and the factoring steps, and the learned clause has a step; the link buffer is emptied |
| SatProof.SatProofManager.ChainSteps | src/prop/sat_proof_manager.cpp:240-320 | the built chain is kept when it concludes the learned clause; otherwise the repaired chain, whose factored resolvent is the learned clause; in both cases some buffered step is for the learned clause |
| SatProof.SatProofManager.RepairCrowding | src/prop/sat_proof_manager.cpp:258-271 | fails only when the crowding repair fails; otherwise the repaired chain with the same guarantees as ProcessCrowdingLits against the target literals |
| SatProof.SatProofManager.ReduceChain | src/prop/sat_proof_manager.cpp:299-312 | succeeds exactly when factoring the resolvent yields the learned clause; the buffer is the chain step followed by the factoring steps |
| SatProof.SatProofManager.EndResChainLit | src/prop/sat_proof_manager.cpp:139-145 | ends the chain for a unit learned clause; the buffers are emptied and earlier steps kept |
| SatProof.SatProofManager.EndResChainClause | src/prop/sat_proof_manager.cpp:147-160 | ends the chain for a learned clause; the buffers are emptied and earlier steps kept |
| SatProof.SatProofManager.NoNegationIn | src/prop/sat_proof_manager.cpp:632-637 | succeeds exactly when the reason does not contain the literal's negation |
| SatProof.SatProofManager.ExplainLit | src/prop/sat_proof_manager.cpp:618-713 | a literal without a reason needs nothing; a reason holding its negation fails; otherwise the reason's clause is a premise and the literal is a premise or has a step; earlier steps are kept |
| SatProof.SatProofManager.AddLitStep | src/prop/sat_proof_manager.cpp:689-707 | the literal's node gets the chain resolving its reason against the units, unless it already has a step, and every chain step still concludes its fact |
| SatProof.SatProofManager.ExplainReason | src/prop/sat_proof_manager.cpp:643-672 | the chain is the reason's clause node followed by the units of the other literals' negations with their arguments |
| SatProof.SatProofManager.ExplainReasonNext | src/prop/sat_proof_manager.cpp:643-672 | one iteration explains the negation of one more reason literal and extends the chain by its unit |
| SatProof.SatProofManager.ExplainConflictLits | src/prop/sat_proof_manager.cpp:814-838 | the closing chain is the conflict followed by the units of its literals' negations, each of which becomes a premise |
| SatProof.SatProofManager.ExpandAssumptions | src/prop/sat_proof_manager.cpp:860-936 | every free assumption ends up processed or an input; a pass that explained nothing new added no step and processed no translated fact |
| SatProof.SatProofManager.FinalizeProof | src/prop/sat_proof_manager.cpp:715-947 | a conflict that is false itself changes nothing; otherwise false gets a step and every free assumption of its proof is processed or an input assumption |
| SatProof.SatProofManager.StoreUnitConflict | src/prop/sat_proof_manager.cpp:949-953 | stores the literal exactly when no unit conflict is pending, and fails otherwise |
| SatProof.SatProofManager.FinalizeProofStored | src/prop/sat_proof_manager.cpp:955-962 | fails without a stored unit conflict; otherwise closes the proof of false for it |
| SatProof.SatProofManager.FinalizeProofLit | src/prop/sat_proof_manager.cpp:964-975 | registers the literal as an input when asked and closes the proof of false for it |
| SatProof.SatProofManager.FinalizeProofClause | src/prop/sat_proof_manager.cpp:977-998 | registers the clause as an input when asked and closes the proof of false for it |
| SatProof.SatProofManager.GetProof | src/prop/sat_proof_manager.cpp:1000-1008 | the step for false, which concludes false when it is a well-formed chain; false assumed when nothing was recorded |
| SatProof.SatProofManager.RegisterSatLitAssumption | src/prop/sat_proof_manager.cpp:1010-1016 | adds the literal's node to the input assumptions |
| SatProof.SatProofManager.RegisterSatAssumptions | src/prop/sat_proof_manager.cpp:1018-1026 | adds every given node to the input assumptions |
| SatClauses.ReasonHeadLits | src/prop/sat_proof_manager.cpp:643-690 | the reason clause followed by the units of its other literals forms a well-formed chain whose premises hold the propagated literal plus each other literal |
| SatClauses.ConflictHeadLits | src/prop/sat_proof_manager.cpp:814-855 | the conflict clause followed by the units of its literals forms a well-formed chain whose premises hold exactly the conflict's literals |
| SatProof.SatProofManager.ChainBufferConcludes | src/prop/sat_proof_manager.cpp:299-320 | a chain step buffered for the proof, with or without factoring, concludes what it claims |
| NewProof.SatClauseObj.constructor | src/proof/new_proof_manager.cpp:514-550 | a new solver clause has its literals and no proof id (0) |
| NewProof.KeepFirst | src/proof/new_proof_manager.cpp:92-110 | a key that has a value keeps it; otherwise it gets the new one; no other key changes |
| NewProof.KeepFirstStable | src/proof/new_proof_manager.cpp:366-379 | once a key is written, later writers of it change nothing |
| NewProof.PairedRecord | src/proof/new_proof_manager.cpp:381-417 | recording a literal and its id together keeps the literal-to-id and id-to-literal tables paired |
| NewProof.RegisterLitIds | src/proof/new_proof_manager.cpp:381-417 | a registered literal keeps its id and the tables; an unregistered one gets the next id, recorded both ways |
| NewProof.RegisterLitIdempotent | src/proof/new_proof_manager.cpp:381-417 | registering a literal a second time returns the same id and changes nothing |
| NewProof.JustIds | src/proof/new_proof_manager.cpp:758-762 | the ids justifying the negations of the literals, in order |
| NewProof.JustIdsGrow | src/proof/new_proof_manager.cpp:703-775 | those ids do not change while the id table only grows |
| NewProof.JustIdsSnoc | src/proof/new_proof_manager.cpp:745-762 | justifying one more literal appends its negation's id |
| NewProof.NewProofManager.constructor | src/proof/new_proof_manager.cpp:45-57 | a fresh manager has empty tables, no steps, no chains and hands out ids from 1 |
| NewProof.NewProofManager.AddProofStep | src/proof/new_proof_manager.cpp:400-405 | a new step gets the next id, which was not in use, and the id counter advances |
| NewProof.NewProofManager.AddInputAssertion | src/proof/new_proof_manager.cpp:73-91 | a new INPUT step concluding the formula, whose id the formula now has |
| NewProof.NewProofManager.AddInputSubAssertion | src/proof/new_proof_manager.cpp:92-110 | a formula reached from several assertions keeps the first id recorded for it |
| NewProof.NewProofManager.AddAssertionProofStep | src/proof/new_proof_manager.cpp:112-134 | a new step from the id of `src` concluding `dest`, which gets the new id |
| NewProof.NewProofManager.AddIteRemovalProofStep | src/proof/new_proof_manager.cpp:135-151 | no step; the destination takes the source's id |
| NewProof.NewProofManager.AddIteDefProofStep | src/proof/new_proof_manager.cpp:153-171 | a new ITE_INTRO step concluding the definition, which gets the new id |
| NewProof.NewProofManager.AddCnfProofStepLit | src/proof/new_proof_manager.cpp:258-280 | a literal whose node is not an input returns the given id and changes nothing; otherwise it takes the input's id, recorded both ways |
| NewProof.NewProofManager.AddLitDef | src/proof/new_proof_manager.cpp:329-334 | records the literal's node |
| NewProof.NewProofManager.AddClauseDefWithNode | src/proof/new_proof_manager.cpp:336-364 | a clause without a definition gets its node and its definition; otherwise nothing changes |
| NewProof.NewProofManager.AddClauseDef | src/proof/new_proof_manager.cpp:366-379 | the first definition of a clause is kept |
| NewProof.NewProofManager.RegisterLit | src/proof/new_proof_manager.cpp:381-417 | a registered literal returns its id and changes nothing; otherwise a placeholder step under the next id, recorded both ways |
| NewProof.NewProofManager.RegisterLitWithReason | src/proof/new_proof_manager.cpp:419-512 | a registered literal returns its id and changes nothing; otherwise its definition is recorded and it gets the input's id (INPUT), a THEORY_LEMMA or undefined step (theory lemma, with or without a queued proof) or a placeholder, recorded both ways |
| NewProof.NewProofManager.RegisterClauseObj | src/proof/new_proof_manager.cpp:514-550 | a clause with a proof id returns it and changes nothing; otherwise a placeholder step under the next id, stored on the clause and in the id table |
| NewProof.NewProofManager.AddResolutionStep | src/proof/new_proof_manager.cpp:656-669 | the clause is registered and a link of its id, the literal's node and the sign is appended to the chain |
| NewProof.NewProofManager.EndResChainLit | src/proof/new_proof_manager.cpp:671-677 | ends the chain concluding the literal's clause: saved and cleared |
| NewProof.NewProofManager.EndResChain | src/proof/new_proof_manager.cpp:679-701 | the chain built so far is appended to the saved chains and the buffer cleared |
| NewProof.NewProofManager.QueueTheoryProof | src/proof/new_proof_manager.cpp:875-883 | the literal is marked as having a queued theory proof |
| NewProof.NewProofManager.JustifyLit | src/proof/new_proof_manager.cpp:703-775 | a literal with an id returns it and changes nothing; otherwise on success its new step derives it from its reason and the justifications of the reason's other literals; ids and steps only grow, and only literals no later on the trail get ids |
| NewProof.NewProofManager.DeriveLit | src/proof/new_proof_manager.cpp:720-774 | on success the literal gets an id whose step resolves its reason with the justifications of the other literals |
| NewProof.NewProofManager.JustifyNext | src/proof/new_proof_manager.cpp:745-750 | justifies the negation of one more literal and appends its id |
| NewProof.NewProofManager.JustifyReason | src/proof/new_proof_manager.cpp:730-751 | the reason's id followed by the justification of the negation of each other reason literal, all on earlier trail positions |
| NewProof.NewProofManager.JustifyConflict | src/proof/new_proof_manager.cpp:807-815 | the justification of the negation of each conflict literal, in order |
| NewProof.NewProofManager.FinalizeProofId | src/proof/new_proof_manager.cpp:776-833 | on success the last step is a RESOLUTION from the conflict's id and the justifications of its literals' negations, with a null conclusion |
| NewProof.NewProofManager.FinalizeProofLit | src/proof/new_proof_manager.cpp:834-856 | a literal with an id is finalized under it; otherwise it takes its input's id, recorded both ways; on success the last step resolves the conflict away |
| NewProof.NewProofManager.FinalizeProofLast | src/proof/new_proof_manager.cpp:858-873 | the conflict is the last step added; on success it is resolved away as in finalizeProof(id) |
| VeritRules.TheoryRewriteRule | src/proof/verit/verit_post_processor.cpp:2741-2935 | a (theory, kind) pair gets a rule other than UNDEFINED exactly when the table knows it; arithmetic comparisons get COMP_SIMPLIFY, the Boolean theory BOOL_SIMPLIFY, quantifiers QUANTIFIER_SIMPLIFY |
| VeritSteps.VeritStep | src/proof/verit/verit_post_processor.cpp:4827-4846 | the VERIT_RULE step for a fact carries the veriT rule number, the fact and its conclusion, then the given arguments |
| VeritSteps.ClauseOfOr | src/proof/verit/verit_post_processor.cpp:4847-4860 | the conclusion of an OR read as a clause is the cl node of the OR's children |
| VeritSteps.AddedVeritSteps | src/proof/verit/verit_post_processor.cpp:4827-4846 | adding well-formed veriT steps to a store of veriT steps gives a store of veriT steps |
| VeritSteps.SameModEqualLeaves | src/proof/verit/verit_post_processor.cpp:4861-4889 | as written, two different variables are the same modulo equality |
| VeritSteps.SameModEqualIsEquality | src/proof/verit/verit_post_processor.cpp:4861-4889 | without equalities inside, being the same modulo equality is plain equality, in both directions |
| VeritSteps.SameModEqualSymmetric | src/proof/verit/verit_post_processor.cpp:4861-4889 | being the same modulo equality is symmetric |
| VeritSteps.SameModEqualSwapped | src/proof/verit/verit_post_processor.cpp:4861-4889 | an equality is the same as its mirror image |
| VeritSteps.OrNeverSameAsNegation | src/proof/verit/verit_post_processor.cpp:3024-3090 | an OR premise is never the same as a negation, as written or as intended, so both versions agree in RESOLUTION |
| VeritSteps.Conjunction | src/proof/verit/verit_post_processor.cpp:2639-2648 | the conjunction of the assumptions, or the single assumption itself |
| VeritSteps.AndPosSteps | src/proof/verit/verit_post_processor.cpp:2650-2657 | one and_pos step per assumption, in order, each concluding its own clause |
| VeritSteps.ScopeCollapse | src/proof/verit/verit_post_processor.cpp:2658-2676 | the resolution, reordering and duplicate-removal steps leading to (cl (not A) F) |
| VeritSteps.ScopeImplies | src/proof/verit/verit_post_processor.cpp:2677-2690 | the implies_neg1, resolution, implies_neg2 and resolution steps leading to (cl (=> A F) (=> A F)) |
| VeritSteps.ScopeTail | src/proof/verit/verit_post_processor.cpp:2691-2719 | one duplicated_literals step for the result when the body is not false; otherwise four steps ending in one for the result |
| VeritSteps.ScopeSteps | src/proof/verit/verit_post_processor.cpp:2621-2720 | SCOPE adds the anchor, the and_pos steps, the collapse, the implication steps and the tail, all well formed and ending with the result |
| VeritSteps.ScopeStepCount | src/proof/verit/verit_post_processor.cpp:2621-2720 | SCOPE adds n + 9 steps (n + 12 when the body is false), the first the anchor and the last for the SCOPE result |
| VeritSteps.ResolutionPremiseLits | src/proof/verit/verit_post_processor.cpp:3024-3090 | a premise contributes its children when read as a clause and itself otherwise |
| VeritSteps.ConclusionClause | src/proof/verit/verit_post_processor.cpp:3099-3120 | a resolution concludes the children of an OR result read as a clause, (cl) for false, and (cl res) for a single literal |
| VeritSteps.ConclusionClauseIsResolvent | src/proof/verit/verit_post_processor.cpp:3232-3299 | when the singleton test agrees with the resolvent's length, the concluded clause is the resolvent ((cl) for a resolvent that is just false) |
| VeritSteps.OrStep | src/proof/verit/verit_post_processor.cpp:3031-3036 | the extra or step for a premise read as a clause cites the premise and concludes its children as a clause |
| VeritSteps.ResolutionOrSteps | src/proof/verit/verit_post_processor.cpp:3024-3090 | both premises' or steps are decided on the store as it was before either is added |
| VeritSteps.ResolutionSteps | src/proof/verit/verit_post_processor.cpp:3005-3121 | RESOLUTION adds the premises' or steps and then one resolution step for the result, all well formed |
| VeritSteps.ResolutionStep | src/proof/verit/verit_post_processor.cpp:3092-3120 | the resolution step cites the premises as read and concludes what is left once the pivot and its negation are erased |
| VeritSteps.ResolutionLeftIsResolve | src/proof/verit/verit_post_processor.cpp:3092-3098 | erasing the pivot and its negation from the joined literals leaves the binary resolvent, up to order, when they occur on the sides the polarity names |
| VeritSteps.ResolutionConcludesResolvent | src/proof/verit/verit_post_processor.cpp:3005-3121 | when the pivots occur as the polarity says and the result is the resolvent's node, the resolution step concludes the resolvent as a clause |
| VeritSteps.ChainOrOnlyForMissing | src/proof/verit/verit_post_processor.cpp:3174-3217 | in a store of translated steps, a chain premise needs an or step exactly when it is read as a clause and has no step |
| VeritSteps.ChainOrStep | src/proof/verit/verit_post_processor.cpp:3193-3217 | the or step for premise k is stored for the clause of its literals and cites premise k, whose children are those literals |
| VeritSteps.ChainOrStepAsWritten | src/proof/verit/verit_post_processor.cpp:3216 | as written, the or step for any premise cites the first premise |
| VeritSteps.ChainOrStepWrongPremise | src/proof/verit/verit_post_processor.cpp:3216 | as written, the or step splitting premise 1 of (or a b), (or c d) into (cl c d) cites (or a b) |
| VeritSteps.ChainOrSteps | src/proof/verit/verit_post_processor.cpp:3174-3217 | one cited premise per chain premise and at most one or step each, well formed, each decided on the store with the earlier or steps added |
| VeritSteps.ChainCitedPremises | src/proof/verit/verit_post_processor.cpp:3174-3217 | the resolution cites each premise itself or, after its or step, the clause of its literals |
| VeritSteps.ChainSteps | src/proof/verit/verit_post_processor.cpp:3152-3300 | CHAIN_RESOLUTION adds the or steps and then one resolution over the cited premises for the result |
| VeritSteps.ChainStep | src/proof/verit/verit_post_processor.cpp:3285-3300 | the chain's resolution step concludes the result's literals unless it is a singleton, (cl) for false, (cl res) otherwise |
| VeritSteps.ChainConcludesResolvent | src/proof/verit/verit_post_processor.cpp:3152-3300 | the chain's final step concludes the chain's resolvent whenever the singleton test agrees with the resolvent's length |
| VeritSteps.IntroducerAsWrittenBelow | src/proof/verit/verit_post_processor.cpp:3235-3257 | as written, a successful backward scan stops before the last premise |
| VeritSteps.EliminatedAsWrittenNeverFalse | src/proof/verit/verit_post_processor.cpp:3259-3283 | as written, the forward scan never runs off the last premise with the answer "not eliminated" |
| VeritSteps.AsWrittenNeverSingleton | src/proof/verit/verit_post_processor.cpp:3232-3283 | as written, an OR conclusion is never found to be a singleton without an out-of-range read |
| VeritSteps.SingletonScanExample | src/proof/verit/verit_post_processor.cpp:3232-3283 | (or (or p q) x) resolved with (not x) leaves the singleton (or p q); the intended test says so, the scan as written reads past the arguments |
| VeritSteps.Final | src/proof/verit/verit_post_processor.cpp:4827-4846 | the last step of a case is stored for the result, concludes the given clause and cites the given premises |
| VeritSteps.UnitRule | src/proof/verit/verit_post_processor.cpp:3523-3640 | exactly AND_ELIM, NOT_OR_ELIM, NOT_IMPLIES_ELIM1/2, REFL, TRANS, CONG and SYMM become one step concluding (cl res) |
| VeritSteps.ClauseRule | src/proof/verit/verit_post_processor.cpp:3603-4224 | exactly the clausifying elimination rules, the CNF rules other than CNF_ITE_POS3/NEG3 and REORDERING become one step concluding the OR's literals |
| VeritSteps.TheoryRewriteStep | src/proof/verit/verit_post_processor.cpp:2741-2935 | a cast to real becomes la_generic with coefficient 1; every other rewrite gets the table's rule for the theory and the rewritten kind |
| VeritSteps.SplitSteps | src/proof/verit/verit_post_processor.cpp:3357-3419 | SPLIT: two not_not clauses resolved into (cl F (not F)) |
| VeritSteps.EqResolveSteps | src/proof/verit/verit_post_processor.cpp:3420-3450 | EQ_RESOLVE: an equiv_pos2 clause resolved with both premises |
| VeritSteps.ImplicationSteps | src/proof/verit/verit_post_processor.cpp:3451-3502 | MODUS_PONENS and NOT_NOT_ELIM: the clause (cl (not F1) res) resolved with F1 |
| VeritSteps.AndIntroSteps | src/proof/verit/verit_post_processor.cpp:3549-3582 | AND_INTRO: the and_neg clause resolved with every premise |
| VeritSteps.IteThirdSteps | src/proof/verit/verit_post_processor.cpp:4133-4156 | CNF_ITE_POS3 and CNF_ITE_NEG3: the clauses for either value of the condition, resolved, then the duplicate literal removed |
| VeritSteps.TrueIntroSteps | src/proof/verit/verit_post_processor.cpp:4300-4337 | TRUE_INTRO: equiv_simplify, equiv2, then a resolution with the premise |
| VeritSteps.ConstElimSteps | src/proof/verit/verit_post_processor.cpp:4338-4388 | TRUE_ELIM and FALSE_ELIM: equiv_simplify, equiv1, then a resolution with the premise |
| VeritSteps.FalseIntroSteps | src/proof/verit/verit_post_processor.cpp:4389-4431 | FALSE_INTRO: as TRUE_INTRO, with a not_not step to reach F |
| VeritSteps.InstantiationArgs | src/proof/verit/verit_post_processor.cpp:4506-4530 | the forall_inst arguments equate each bound variable with its instance, in order |
| VeritSteps.InstantiateSteps | src/proof/verit/verit_post_processor.cpp:4506-4546 | INSTANTIATE: forall_inst, an or step, and a resolution with the quantified premise |
| VeritSteps.InstantiateCarriesEquations | src/proof/verit/verit_post_processor.cpp:4506-4546 | the forall_inst step has no premises and carries the equations (= xi ti) as its arguments |
| VeritSteps.Translation | src/proof/verit/verit_post_processor.cpp:2484-4815 | every rule gets a translation: well-formed veriT steps ending with one for the result, all concluding clauses except for ASSUME |
| VeritSteps.SingleStep | src/proof/verit/verit_post_processor.cpp:4796-4815 | the rules translated to one step get one veriT step for the result; the rules without a translation of their own get UNDEFINED concluding `(cl res)` with their premises and arguments |
| VeritSteps.UndefinedIffUntranslated | src/proof/verit/verit_post_processor.cpp:4800-4809 | outside THEORY_REWRITE, a one-step translation carries UNDEFINED exactly when the rule has no translation of its own |
| VeritSteps.TranslationReadsResult | src/proof/verit/verit_post_processor.cpp:2484-4815 | the last translated step concludes a clause that reads as the internal step's conclusion |
| VeritSteps.SingleStepReadsResult | src/proof/verit/verit_post_processor.cpp:3523-4815 | the one-step translations conclude a clause that reads as the result |
| VeritSteps.MultiStepsReadResult | src/proof/verit/verit_post_processor.cpp:2621-4546 | the several-step translations end in a step concluding a clause that reads as the result |
| VeritSteps.BinaryReadsResult | src/proof/verit/verit_post_processor.cpp:3099-3120 | a binary resolution concludes a clause that reads as its result |
| VeritSteps.ChainReadsResult | src/proof/verit/verit_post_processor.cpp:3285-3300 | a chain resolution concludes a clause that reads as its result |
| VeritSteps.SplitReadsResult | src/proof/verit/verit_post_processor.cpp:3357-3419 | SPLIT concludes the literals of its OR |
| VeritSteps.FinalSteps | src/proof/verit/verit_post_processor.cpp:2323-2392 | the final callback's three steps: the root's step again under (res), (cl (not false)), and a resolution of the two for the root |
| VeritSteps.Overwritten | src/proof/verit/verit_post_processor.cpp:2354-2390 | storing steps with overwriting: each fact gets its last step, other facts keep theirs |
| VeritSteps.FinalConcludesEmpty | src/proof/verit/verit_post_processor.cpp:2323-2392 | after the final callback the root is proved by a resolution concluding the empty clause from (cl (not false)) and the root's old step under (res) |
| Verit.AddVeritStep | src/proof/verit/verit_post_processor.cpp:4827-4846 | the store grows by the next step of the translation being built |
| Verit.StoreVeritStep | src/proof/verit/verit_post_processor.cpp:4827-4846 | the store after adding the veriT step for the result |
| Verit.Scope | src/proof/verit/verit_post_processor.cpp:2621-2720 | the store becomes the old store with the SCOPE steps added |
| Verit.ScopeStoredGroups | src/proof/verit/verit_post_processor.cpp:2621-2720 | adding SCOPE's steps is adding the anchor and then each group in turn |
| Verit.AndPos | src/proof/verit/verit_post_processor.cpp:2650-2657 | the store gains the and_pos steps, one per assumption |
| Verit.AndPosStep | src/proof/verit/verit_post_processor.cpp:2650-2657 | one round of the loop adds the step for one more assumption |
| Verit.ScopeCollapseSteps | src/proof/verit/verit_post_processor.cpp:2658-2676 | the store gains the three collapse steps |
| Verit.ScopeImpliesSteps | src/proof/verit/verit_post_processor.cpp:2677-2690 | the store gains the four implication steps |
| Verit.ScopeTailSteps | src/proof/verit/verit_post_processor.cpp:2691-2719 | the store gains SCOPE's tail for the body |
| Verit.ScopeFalseTail | src/proof/verit/verit_post_processor.cpp:2696-2716 | the store gains the four steps ending in (cl (not A)) |
| Verit.Negations | src/proof/verit/verit_post_processor.cpp:3549-3560 | the negations of the premises, in order |
| Verit.AndIntro | src/proof/verit/verit_post_processor.cpp:3549-3582 | the store gains the AND_INTRO steps |
| Verit.Equations | src/proof/verit/verit_post_processor.cpp:4506-4530 | the forall_inst equations, in order |
| Verit.Instantiate | src/proof/verit/verit_post_processor.cpp:4506-4546 | the store gains the INSTANTIATE steps |
| Verit.BinaryResolution | src/proof/verit/verit_post_processor.cpp:3005-3121 | the store gains the RESOLUTION steps decided on the old store |
| Verit.ResolutionPremises | src/proof/verit/verit_post_processor.cpp:3007-3090 | the store gains both premises' or steps; the cited premises are returned |
| Verit.OrPremise | src/proof/verit/verit_post_processor.cpp:3024-3090 | adds the or step for a premise that needs one and returns the premise as then cited |
| Verit.IsSingletonClause | src/proof/verit/verit_post_processor.cpp:3221-3284 | the result is a singleton exactly when it is not an OR, or some premise introduces it and no later link eliminates it |
| Verit.ChainResolution | src/proof/verit/verit_post_processor.cpp:3152-3300 | the store gains the CHAIN_RESOLUTION steps decided on the old store |
| Verit.ChainPremises | src/proof/verit/verit_post_processor.cpp:3174-3217 | the store gains the chain's or steps; the cited premises are returned |
| Verit.ChainPremiseNext | src/proof/verit/verit_post_processor.cpp:3193-3217 | one more premise's or step follows those of the earlier premises |
| Verit.ChainOrStepsNext | src/proof/verit/verit_post_processor.cpp:3193-3217 | the or steps of one more premise follow those of the earlier ones, decided on the store they leave |
| Verit.ChainPremise | src/proof/verit/verit_post_processor.cpp:3200-3217 | adds the or step for a premise read as a clause whose stored proof is an assumption or EQ_RESOLVE, and returns the premise as cited |
| Verit.Split | src/proof/verit/verit_post_processor.cpp:3357-3419 | the store gains the SPLIT steps |
| Verit.EqResolve | src/proof/verit/verit_post_processor.cpp:3420-3450 | the store gains the EQ_RESOLVE steps |
| Verit.Implication | src/proof/verit/verit_post_processor.cpp:3451-3502 | the store gains the MODUS_PONENS or NOT_NOT_ELIM steps |
| Verit.IteThird | src/proof/verit/verit_post_processor.cpp:4133-4224 | the store gains the CNF_ITE_POS3 or CNF_ITE_NEG3 steps |
| Verit.TrueIntro | src/proof/verit/verit_post_processor.cpp:4300-4337 | the store gains the TRUE_INTRO steps |
| Verit.ConstElim | src/proof/verit/verit_post_processor.cpp:4338-4453 | the store gains the TRUE_ELIM or FALSE_ELIM steps |
| Verit.FalseIntro | src/proof/verit/verit_post_processor.cpp:4389-4431 | the store gains the FALSE_INTRO steps |
| Verit.Update | src/proof/verit/verit_post_processor.cpp:2484-4815 | the store gains exactly the translation of the step, read against the old store |
| Verit.UpdateMulti | src/proof/verit/verit_post_processor.cpp:2621-4546 | the store gains the translation of a rule translated to several steps |
| Verit.UpdateResolution | src/proof/verit/verit_post_processor.cpp:3005-3300 | the store gains the RESOLUTION or CHAIN_RESOLUTION translation |
| Verit.UpdatePropositional | src/proof/verit/verit_post_processor.cpp:3357-3582 | the store gains the SPLIT, EQ_RESOLVE, MODUS_PONENS, NOT_NOT_ELIM or AND_INTRO translation |
| Verit.UpdateIteTrue | src/proof/verit/verit_post_processor.cpp:4133-4337 | the store gains the CNF_ITE_POS3, CNF_ITE_NEG3 or TRUE_INTRO translation |
| Verit.UpdateElimInst | src/proof/verit/verit_post_processor.cpp:4338-4546 | the store gains the TRUE_ELIM, FALSE_ELIM, FALSE_INTRO or INSTANTIATE translation |
| Verit.UpdateSingle | src/proof/verit/verit_post_processor.cpp:2513-4815 | the store gains the one step of a rule translated to a single step |
| Verit.FinalUpdate | src/proof/verit/verit_post_processor.cpp:2323-2392 | the store is overwritten with the final callback's three steps |
| Verit.VeritProofPostprocess.constructor | src/proof/verit/verit_post_processor.cpp:4891-4902 | the post-processor keeps the extended flag |
| Verit.VeritProofPostprocess.ProcessInternal | src/proof/verit/verit_post_processor.cpp:4944-4980 | the store becomes the translation of the proof: premises first, each in place of what the skip finds, then the node unless in veriT form |
| Verit.VeritProofPostprocess.ProcessPremises | src/proof/verit/verit_post_processor.cpp:4947-4958 | returns the facts of the premises as the node's step cites them, having translated each |
| Verit.VeritProofPostprocess.ProcessPremise | src/proof/verit/verit_post_processor.cpp:4949-4957 | translates one premise proof after looking through the skipped steps |
| Verit.VeritProofPostprocess.Skip | src/proof/verit/verit_post_processor.cpp:4950-4955 | outside extended mode, SYMM and REORDERING steps are looked through to their first premise |
| Verit.VeritProofPostprocess.Process | src/proof/verit/verit_post_processor.cpp:4916-4942 | a fresh store holding the processed proof, with the final callback's steps when the root's step concludes (cl false) |
| VeritDriver.Next | src/proof/verit/verit_post_processor.cpp:4950-4955 | the proof translated in place of a premise is the premise or below it; outside extended mode it is not a SYMM or REORDERING step with premises; otherwise it is the premise |
| VeritDriver.NextResults | src/proof/verit/verit_post_processor.cpp:4947-4958 | the facts the step cites are those of what the skip finds for each premise |
| VeritDriver.UpdatedFacts | src/proof/verit/verit_post_processor.cpp:4960-4977 | handling a node keeps every stored fact, stores one for a translated conclusion, keeps a veriT store one, and leaves the store alone for a node in veriT form |
| VeritDriver.ProcessedKeeps | src/proof/verit/verit_post_processor.cpp:4944-4980 | translating never removes a stored fact, stores one for a translated root, and keeps a veriT store one |
| VeritDriver.ProcessedVeritFormUnchanged | src/proof/verit/verit_post_processor.cpp:2474-2483 | a proof already in veriT form adds nothing to the store |
| VeritDriver.ProcessedEndsInEmptyClause | src/proof/verit/verit_post_processor.cpp:4916-4942 | the root gets a veriT step; when it concludes (cl false), the processed root is a resolution concluding the empty clause and the store holds only veriT steps |
| VeritDriver.FinalKeepsVeritStore | src/proof/verit/verit_post_processor.cpp:2323-2392 | overwriting a store of veriT steps with veriT steps leaves one |
| VeritSteps.MultiSteps | src/proof/verit/verit_post_processor.cpp:2621-4546 | for every rule translated to several steps, the steps are well formed, clausal and end with a step for the result |
| VeritSteps.ResolutionTranslation | src/proof/verit/verit_post_processor.cpp:3005-3300 | the RESOLUTION and CHAIN_RESOLUTION translations are well formed, clausal and end with a step for the result |
| VeritSteps.PropositionalTranslation | src/proof/verit/verit_post_processor.cpp:3357-3582 | the SPLIT, EQ_RESOLVE, MODUS_PONENS, NOT_NOT_ELIM and AND_INTRO translations are well formed, clausal and end with a step for the result |
| VeritSteps.IteTrueTranslation | src/proof/verit/verit_post_processor.cpp:4133-4337 | the CNF_ITE_POS3, CNF_ITE_NEG3 and TRUE_INTRO translations are well formed, clausal and end with a step for the result |
| VeritSteps.ElimInstTranslation | src/proof/verit/verit_post_processor.cpp:4338-4546 | the TRUE_ELIM, FALSE_ELIM, FALSE_INTRO and INSTANTIATE translations are well formed, clausal and end with a step for the result |
| VeritSteps.ScopeReadsResult | src/proof/verit/verit_post_processor.cpp:2621-2720 | the last SCOPE step concludes a clause that reads as the SCOPE result |
| VeritSteps.ResolutionReadsResult | src/proof/verit/verit_post_processor.cpp:3005-3300 | the last resolution step concludes a clause that reads as the resolution result |
| VeritSteps.PropositionalReadsResult | src/proof/verit/verit_post_processor.cpp:3357-3582 | the last SPLIT, EQ_RESOLVE, MODUS_PONENS, NOT_NOT_ELIM or AND_INTRO step concludes a clause that reads as the result |
| VeritSteps.IteTrueReadsResult | src/proof/verit/verit_post_processor.cpp:4133-4337 | the last CNF_ITE_POS3, CNF_ITE_NEG3 or TRUE_INTRO step concludes a clause that reads as the result |
| VeritSteps.ElimInstReadsResult | src/proof/verit/verit_post_processor.cpp:4338-4546 | the last TRUE_ELIM, FALSE_ELIM, FALSE_INTRO or INSTANTIATE step concludes a clause that reads as the result |
| VeritSteps.InstantiatePremises | src/proof/verit/verit_post_processor.cpp:4506-4520 | INSTANTIATE first concludes `(cl (or (not F) res))` by forall_inst with the instantiation equalities as arguments |
| VeritSteps.ChainPremiseOr | src/proof/verit/verit_post_processor.cpp:3193-3219 | a chain premise read as a clause gets at most one `or` step, and the premise used is the original or its `or` clause |
| VeritSteps.AndPosClauses | src/proof/verit/verit_post_processor.cpp:2650-2657 | one and_pos clause per assumption, in order |
| VeritSteps.ScopeAnchor | src/proof/verit/verit_post_processor.cpp:2621-2636 | SCOPE starts with one anchor step over the first child |
| Lean.RuleOfCode | src/proof/lean/lean_post_processor.cpp:56-72 | the rule written as a step's first argument is read back; a number that is no rule's code gives none |
| Lean.RuleOfCodeRoundTrip | src/proof/lean/lean_post_processor.cpp:56-72 | the rule of every Lean step is read back from its code |
| Lean.LeanStep | src/proof/lean/lean_post_processor.cpp:56-72 | the LEAN_RULE step for a fact carries the rule's code, the fact and its clause, then the given arguments |
| Lean.TranslatedNotUpdated | src/proof/lean/lean_post_processor.cpp:74-79 | a stored Lean step is never translated again, an assumption is never translated, a chain is |
| Lean.TableRule | src/proof/lean/lean_post_processor.cpp:28-33 | exactly EQ_RESOLVE, AND_ELIM, REFL and THEORY_REWRITE are translated by renaming, THEORY_REWRITE to TH_TRUST_VALID |
| Lean.SymmRule | src/proof/lean/lean_post_processor.cpp:172-183 | SYMM stays SYMM exactly for an equality and becomes NEG_SYMM otherwise |
| Lean.ScopeClause | src/proof/lean/lean_post_processor.cpp:137-160 | the SCOPE clause holds the negated assumptions in order, then false for a negated conclusion or the second side otherwise |
| Lean.SecondFlag | src/proof/lean/lean_post_processor.cpp:276-310 | the second-premise flag of step i is true exactly when premise i is an assumption marked a singleton |
| Lean.SecondFlagStale | src/proof/lean/lean_post_processor.cpp:308 | as written, the flag set for one premise stays set: a second premise that is an assumed OR read as a clause is still flagged singleton |
| Lean.PartialSteps | src/proof/lean/lean_post_processor.cpp:312-333 | the first m partial steps of a chain, each resolving the previous placeholder with the next premise |
| Lean.FinalStepIs | src/proof/lean/lean_post_processor.cpp:426-454 | the final step of a chain is R0 or R1 by the last polarity, concludes the fact with its clausal form and cites the last placeholder and premise |
| Lean.ChainStepsShape | src/proof/lean/lean_post_processor.cpp:225-455 | a chain of n premises gives n - 2 partial steps and a final one; each is R0 or R0_PARTIAL under polarity true and R1 or R1_PARTIAL otherwise, and each resolves the previous step's conclusion with the next premise |
| Lean.LeanSingletonAt | src/proof/lean/lean_post_processor.cpp:346-425 | with premise k the last one introducing the conclusion, it is a singleton exactly when neither k's own link nor a later link eliminates it |
| Lean.IsSingletonClause | src/proof/lean/lean_post_processor.cpp:340-425 | the conclusion is a singleton exactly as the singleton specification says |
| Lean.ChainClauseOfOr | src/proof/lean/lean_post_processor.cpp:430-446 | an OR conclusion is read as a clause of its children exactly when it is not a singleton |
| Lean.FirstIndex | src/proof/lean/lean_post_processor.cpp:465-471 | the first position of a literal, or none when it does not occur |
| Lean.Positions | src/proof/lean/lean_post_processor.cpp:462-474 | the positions of the literals in the premise, as constants |
| Lean.PositionsFirstMatch | src/proof/lean/lean_post_processor.cpp:462-474 | when every literal occurs, there is one position per literal and it is the first one holding that literal |
| Lean.CongStepsChain | src/proof/lean/lean_post_processor.cpp:200-216 | as intended, the step using premise i builds on the partial application before it, and each partial application is new |
| Lean.CongFinalSkipsPartial | src/proof/lean/lean_post_processor.cpp:200-216 | as written, with two premises the final step cites (= op op) instead of the partial step's conclusion |
| Lean.CongSteps | src/proof/lean/lean_post_processor.cpp:184-217 | CONG adds the reflexivity step, one partial step per premise but the last, and the final step |
| Lean.TopSteps | src/proof/lean/lean_post_processor.cpp:108-114 | the top steps of the given proofs keyed by what they prove |
| Lean.PremiseFlag | src/proof/lean/lean_post_processor.cpp:233-260 | the flag of premise i is true exactly when it is an assumption marked a singleton |
| Lean.LiteralPositions | src/proof/lean/lean_post_processor.cpp:456-480 | the position list is the first position of each conclusion literal among the premise's first literals |
| Lean.FindLiteral | src/proof/lean/lean_post_processor.cpp:465-471 | the first of the first size premise literals equal to the literal |
| Lean.AddPremiseProofs | src/proof/lean/lean_post_processor.cpp:105-114 | stores the top step of each proof and returns what they prove |
| Lean.LeanCallback.constructor | src/proof/lean/lean_post_processor.cpp:42-54 | the callback keeps its empty-clause node and starts with no steps |
| Lean.LeanCallback.AddLeanStep | src/proof/lean/lean_post_processor.cpp:56-72 | the store gains the Lean step for the fact |
| Lean.LeanCallback.PartialResolution | src/proof/lean/lean_post_processor.cpp:312-330 | the store gains partial step i, concluding its unique placeholder |
| Lean.LeanCallback.ChainResolution | src/proof/lean/lean_post_processor.cpp:225-455 | the store gains the chain's partial steps and its final step, with the singleton test as specified |
| Lean.LeanCallback.PartialResolutions | src/proof/lean/lean_post_processor.cpp:276-333 | the store gains the partial steps; the last placeholder and the last link's flags are returned |
| Lean.LeanCallback.PartialLink | src/proof/lean/lean_post_processor.cpp:276-333 | one round adds partial step i after the earlier ones and returns the next step's first premise |
| Lean.LeanCallback.FinalResolution | src/proof/lean/lean_post_processor.cpp:426-454 | the store gains the final step for the fact with its clausal form |
| Lean.LeanCallback.Reordering | src/proof/lean/lean_post_processor.cpp:456-482 | the store gains a REORDER step whose clause is the conclusion's literals and whose argument is their positions in the premise |
| Lean.LeanCallback.Cong | src/proof/lean/lean_post_processor.cpp:184-217 | the store gains the CONG steps |
| Lean.LeanCallback.CongPartials | src/proof/lean/lean_post_processor.cpp:200-214 | the store gains one partial step per premise but the last, each building on the one before |
| Lean.LeanCallback.CongPartial | src/proof/lean/lean_post_processor.cpp:202-213 | the store gains the partial step for premise i; the new partial application is returned |
| Lean.LeanCallback.Scope | src/proof/lean/lean_post_processor.cpp:137-160 | the store gains the SCOPE step with the clause of negated assumptions and false or the second side |
| Lean.LeanCallback.ImpliesElim | src/proof/lean/lean_post_processor.cpp:96-135 | right after a SCOPE the SCOPE's premises are stored and the SCOPE translated for this fact; otherwise one IMPLIES_ELIM step whose clause is the two disjuncts of the conclusion `(or (not a) b)` (the corrected clause, see Findings) |
| Lean.ImpliesElimClauseAsWritten | src/proof/lean/lean_post_processor.cpp:126-131 | the clause as written: the negation of the conclusion's first child, then its second child |
| Lean.ImpliesElimClause | src/proof/lean/lean_post_processor.cpp:126-131 | the corrected clause: the conclusion's first two children, unchanged, as CNF_AND_POS builds its clause |
| Lean.ImpliesElimDoubleNegation | src/proof/lean/lean_post_processor.cpp:126-131 | for the conclusion `(or (not a) b)` the clause as written is `((not (not a)) b)`, which differs from the corrected clause |
| Lean.ImpliesElimClauseReadsResult | src/proof/lean/lean_post_processor.cpp:126-131 | for a binary OR the corrected clause is exactly its disjuncts |
| Lean.LeanCallback.Update | src/proof/lean/lean_post_processor.cpp:81-500 | always succeeds; the store gains exactly the steps of the rule's translation |
| Lean.LeanCallback.UpdateOne | src/proof/lean/lean_post_processor.cpp:137-497 | the store gains the one step of a rule translated to a single step |
| Lean.UpdateStepsConclude | src/proof/lean/lean_post_processor.cpp:81-500 | whatever the rule, the last step stored is a Lean step for the fact, carrying it as conclusion argument, and is never translated again |
| Lean.UpdateStepsRule | src/proof/lean/lean_post_processor.cpp:81-500 | the last step stored is written with the code of the rule the translation picks |
| Lean.UnknownIffUntranslated | src/proof/lean/lean_post_processor.cpp:494-497 | the last step is written with UNKNOWN exactly when the rule has no translation |
| TupleEnum.Tick | src/theory/quantifiers/term_tuple_enumerator.cpp:196 | the step counter is a 32-bit unsigned value: after 2^32 - 1 it wraps to 0 |
| TupleEnum.RankInStage | src/theory/quantifiers/term_tuple_enumerator.cpp:478-486 | within one stage, a lexicographically later tuple has a strictly smaller rank, so moving within a stage makes progress |
| TupleEnum.RankNextStage | src/theory/quantifiers/term_tuple_enumerator.cpp:447-451 | any tuple of a stage with less room left ranks below every tuple of the earlier stage, so moving to the next stage makes progress |
| TupleEnum.RankInScore | src/theory/quantifiers/term_tuple_enumerator.cpp:233-236 | a later permutation of the same score has a strictly smaller rank |
| TupleEnum.RankNextScore | src/theory/quantifiers/term_tuple_enumerator.cpp:394-417 | any permutation of a later score ranks below every permutation of the earlier score |
| TupleEnum.NextCombinationSum | src/theory/quantifiers/term_tuple_enumerator.cpp:541-576 | succeeds exactly when some digit inside the change prefix can grow while a later digit is non-zero; then the tuple keeps its digit sum, the least significant such digit grows by one with the digits before it kept, the result is lexicographically larger and within the term counts; otherwise every digit is 0 |
| TupleEnum.ScanForRaise | src/theory/quantifiers/term_tuple_enumerator.cpp:543-563 | the downward scan stops at the first digit that can take a unit of the cleared suffix sum, raising it by one; every digit it passed is cleared and could not grow; with none found the tuple is all zeros |
| TupleEnum.CarryResult | src/theory/quantifiers/term_tuple_enumerator.cpp:564-575 | raising digit d and refilling the cleared suffix with one unit less keeps the digit sum and keeps every digit within its cap |
| TupleEnum.Refill | src/theory/quantifiers/term_tuple_enumerator.cpp:567-574 | distributing an amount at most the caps' sum over the suffix, least significant digit first, leaves the prefix untouched, puts exactly that amount in the suffix and no digit above its cap |
| TupleEnum.RefillStep | src/theory/quantifiers/term_tuple_enumerator.cpp:568-573 | each refill step takes at most what its cap allows and what remains still fits the caps of the digits left |
| TupleEnum.NextCombinationMax | src/theory/quantifiers/term_tuple_enumerator.cpp:490-536 | a successful step yields a lexicographically larger tuple whose digits stay within the stage and the term counts and at least one digit reaches the stage; when no digit in the change prefix can grow, nothing changes and the result is false |
| TupleEnum.ReachStage | src/theory/quantifiers/term_tuple_enumerator.cpp:513-534 | for a tuple below the stage, succeeds exactly when some variable has more terms than the stage; then the least significant such digit becomes the stage and the result is lexicographically larger |
| TupleEnum.IncreaseStageSum | src/theory/quantifiers/term_tuple_enumerator.cpp:431-445 | succeeds exactly when the next stage is at most the sum of the caps; the new stage is the old one plus one; on failure every digit is at its cap; from all zeros, the digits written sum to the new stage |
| TupleEnum.SetDigitSum | src/theory/quantifiers/term_tuple_enumerator.cpp:441-442 | writing a digit adds exactly its value to the sum from that digit on |
| TupleEnum.IncreaseStageMax | src/theory/quantifiers/term_tuple_enumerator.cpp:453-476 | finds a digit exactly when some term count exceeds the stage; the tuple is then all zeros except the least significant such digit, set to the stage |
| TupleEnum.NextScore | src/theory/quantifiers/term_tuple_enumerator.cpp:394-413 | finds a digit exactly when not every score digit is at the maximum; the new score is the old one with the first raisable digit raised and the digits before it cleared, stays sorted and within the maximum, and is larger in the score order |
| TupleEnum.ValidatePermutation | src/theory/quantifiers/term_tuple_enumerator.cpp:238-253 | on success the indices are a permutation of the score within every term count, at or after the start, with no valid permutation skipped; on failure no permutation from the start on is within the term counts and the indices are left sorted |
| TupleEnum.IndicesWithin | src/theory/quantifiers/term_tuple_enumerator.cpp:242-246 | true exactly when every index is below its variable's term count |
| TupleEnum.SkipPermutation | src/theory/quantifiers/term_tuple_enumerator.cpp:251 | moving past an invalid permutation lands on its successor without passing a valid one, or reports that none follows |
| TupleEnum.NoneValidBeforeStart | src/theory/quantifiers/term_tuple_enumerator.cpp:240 | before the first permutation tried no valid permutation was skipped |
| TupleEnum.SkipInvalid | src/theory/quantifiers/term_tuple_enumerator.cpp:251 | stepping from an invalid permutation to its immediate successor skips no valid permutation |
| TupleEnum.ExhaustedNoneValid | src/theory/quantifiers/term_tuple_enumerator.cpp:251-252 | when the last permutation is invalid and none was skipped, no permutation of the score from the start on is valid |
| TupleEnum.TupleEnumerator.constructor | src/theory/quantifiers/term_tuple_enumerator.cpp:158-171 | sets the variable count, the strategy and the term producer; the change prefix is the variable count, the step counter 0 and no failure is recorded |
| TupleEnum.TupleEnumerator.Init | src/theory/quantifiers/term_tuple_enumerator.cpp:299-327 | there is a next tuple exactly when there are variables and, outside full effort, every variable has terms; then every index is 0, the term counts are recorded and the first stage (stage count = largest term count, at least 1) or the zero score (maximum = largest term count, at least 1) is set up |
| TupleEnum.TupleEnumerator.HasNext | src/theory/quantifiers/term_tuple_enumerator.cpp:329-343 | false for good once exhausted; the first call (counter 0) offers the initial tuple unchanged; later calls move to a tuple of strictly smaller rank not excluded by a recorded failure; the counter advances modulo 2^32 |
| TupleEnum.TupleEnumerator.Advance | src/theory/quantifiers/term_tuple_enumerator.cpp:342 | the enumerator keeps a next tuple exactly when a combination of smaller rank not excluded by a failure was found |
| TupleEnum.TupleEnumerator.FailureReason | src/theory/quantifiers/term_tuple_enumerator.cpp:345-357 | appends the failed combination with its mask; the change prefix ends at the last variable the mask marks, and no variable after it is marked |
| TupleEnum.TupleEnumerator.Next | src/theory/quantifiers/term_tuple_enumerator.cpp:359-376 | one term per variable: null for a variable without terms, otherwise the producer's term at that variable's index, which is below its term count |
| TupleEnum.TupleEnumerator.NextCombination | src/theory/quantifiers/term_tuple_enumerator.cpp:378-392 | a success yields a combination of strictly smaller rank, in range, that no recorded failure excludes |
| TupleEnum.TupleEnumerator.NextCombinationAttempt | src/theory/quantifiers/term_tuple_enumerator.cpp:233-236 | a success yields a valid state, in range, of strictly smaller rank |
| TupleEnum.TupleEnumerator.StagedAttempt | src/theory/quantifiers/term_tuple_enumerator.cpp:478-481 | a success either stays in the stage with a lexicographically larger tuple or moves to the next stage, in both cases lowering the rank |
| TupleEnum.TupleEnumerator.NextCombinationInternal | src/theory/quantifiers/term_tuple_enumerator.cpp:483-486 | a success yields a lexicographically larger tuple within the stage; a failed sum step leaves all zeros |
| TupleEnum.TupleEnumerator.IncreaseStage | src/theory/quantifiers/term_tuple_enumerator.cpp:447-451 | resets the change prefix to the variable count; a success moves to the next stage, which has less room left |
| TupleEnum.TupleEnumerator.SocialAttempt | src/theory/quantifiers/term_tuple_enumerator.cpp:233-236 | a success either keeps the score with a lexicographically larger permutation or moves to a larger score |
| TupleEnum.TupleEnumerator.NextValidPermutation | src/theory/quantifiers/term_tuple_enumerator.cpp:255-262 | a success yields a lexicographically larger permutation within every term count |
| TupleEnum.TupleEnumerator.IncreaseScore | src/theory/quantifiers/term_tuple_enumerator.cpp:394-417 | the score changes exactly when some digit is below the maximum, and then grows in the score order; when it does not change the result is false and the indices are untouched; a success leaves indices within every term count |
| TupleArith.Zeros | src/theory/quantifiers/term_tuple_enumerator.cpp:325 | a tuple of n zeros, the initial index tuple |
| TupleArith.Caps | src/theory/quantifiers/term_tuple_enumerator.cpp:440 | each variable's cap is its term count minus one, or 0 without terms |
| TupleArith.MaxOf | src/theory/quantifiers/term_tuple_enumerator.cpp:423-424 | the largest term count: at least every element, and one of them when there is any |
| TupleArith.Max1 | src/theory/quantifiers/term_tuple_enumerator.cpp:423-425 | the maximum with 1: at least 1 and at least n, and n itself when n is positive |
| TupleArith.Min | src/theory/quantifiers/term_tuple_enumerator.cpp:441 | the smaller of the missing amount and the cap |
| TupleArith.SumSplit | src/theory/quantifiers/term_tuple_enumerator.cpp:541-576 | the digit sum splits at any position into prefix and suffix sums |
| TupleArith.SumBelowCaps | src/theory/quantifiers/term_tuple_enumerator.cpp:431-445 | a tuple below its caps sums to at most the sum of the caps, the largest stage of the sum strategy |
| TupleArith.LexLessTrans | src/theory/quantifiers/term_tuple_enumerator.cpp:478-481 | the lexicographic order on index tuples is transitive |
| TupleArith.LexLessNum | src/theory/quantifiers/term_tuple_enumerator.cpp:490-536 | reading tuples as mixed-radix numbers, a lexicographically smaller tuple is a smaller number |
| TupleArith.LexLessPosition | src/theory/quantifiers/term_tuple_enumerator.cpp:478-486 | a lexicographically later tuple has a smaller position within the same room |
| TupleArith.PositionOuterStep | src/theory/quantifiers/term_tuple_enumerator.cpp:447-451 | less room at the outer level gives a smaller position whatever the inner positions |
| TupleArith.PositionInnerStep | src/theory/quantifiers/term_tuple_enumerator.cpp:478-486 | within the same room, a later inner position gives a smaller position |
| TupleArith.ReversedMultiset | src/theory/quantifiers/term_tuple_enumerator.cpp:259-262 | reversing a sequence keeps its elements with their multiplicities |
| TupleArith.PermutationFits | src/theory/quantifiers/term_tuple_enumerator.cpp:238-253 | a permutation of a score bounded by m has every digit below m + 1 |
| TupleArith.RaiseDigit | src/theory/quantifiers/term_tuple_enumerator.cpp:412-413 | raising digit d adds one to it |
| TupleArith.RaiseDigitShape | src/theory/quantifiers/term_tuple_enumerator.cpp:412-413 | raising digit d clears the digits before it and keeps the digits after it |
| TupleArith.RaiseDigitScoreLess | src/theory/quantifiers/term_tuple_enumerator.cpp:394-417 | a raised score is larger in the score order |
| TupleArith.RaiseDigitSorted | src/theory/quantifiers/term_tuple_enumerator.cpp:398-413 | raising the first raisable digit of a sorted score bounded by m gives a sorted score bounded by m |
| TupleArith.NoRaiseAllMax | src/theory/quantifiers/term_tuple_enumerator.cpp:408-411 | a sorted score with no raisable digit has every digit at the maximum |
| TupleArith.NextPermutation | src/theory/quantifiers/term_tuple_enumerator.cpp:259-262 | the next permutation in lexicographic order: the same multiset, and on success the least permutation strictly above the input; on failure the result is sorted and no permutation is above the input |
| TupleArith.NextPermutationLeast | src/theory/quantifiers/term_tuple_enumerator.cpp:259-262 | no permutation lies strictly between a sequence and its successor |
| TupleArith.Successor | src/theory/quantifiers/term_tuple_enumerator.cpp:259-262 | the successor keeps the prefix before the pivot, puts the swapped element at the pivot and reverses the suffix |
| TupleArith.PivotTie | src/theory/quantifiers/term_tuple_enumerator.cpp:259-262 | a permutation sharing the successor's prefix and pivot is at or after the successor |
| TupleArith.SwappedSuffix | src/theory/quantifiers/term_tuple_enumerator.cpp:259-262 | after the swap the suffix past the pivot is still non-increasing |
| TupleArith.SortedSuffixLeast | src/theory/quantifiers/term_tuple_enumerator.cpp:259-262 | among permutations with a given prefix, the one with sorted suffix is least |
| TupleArith.SortedLexMin | src/theory/quantifiers/term_tuple_enumerator.cpp:259-262 | a sorted sequence is at or before every permutation of itself |
| TupleArith.NonIncreasingLexMax | src/theory/quantifiers/term_tuple_enumerator.cpp:259-262 | no permutation is above a non-increasing sequence |
| TupleArith.LexLessIrrefl | src/theory/quantifiers/term_tuple_enumerator.cpp:259-262 | no tuple is lexicographically below itself |
| TupleArith.LexLessAsym | src/theory/quantifiers/term_tuple_enumerator.cpp:259-262 | the lexicographic order is asymmetric |
| TupleArith.LexTotal | src/theory/quantifiers/term_tuple_enumerator.cpp:259-262 | two tuples of the same length are equal or ordered one way or the other |
| TupleArith.SortedReversal | src/theory/quantifiers/term_tuple_enumerator.cpp:259-262 | reversing a non-increasing sequence sorts it |
| TupleArith.SwapReverse | src/theory/quantifiers/term_tuple_enumerator.cpp:259-262 | swapping the pivot and reversing the suffix gives a permutation that is lexicographically larger |
| ExtRewrite.SubsumeSound | src/theory/quantifiers/extended_rewrite.cpp:319-348 | when `a` subsumes `b`, every bit set in `b` is set in `a`, under every valuation of the leaves |
| ExtRewrite.StrictNotReflexive | src/theory/quantifiers/extended_rewrite.cpp:322-325 | strict subsumption never holds between a node and itself |
| ExtRewrite.ArithComp | src/theory/quantifiers/extended_rewrite.cpp:350-358 | `a` is judged at least `b` exactly when `a` subsumes `b`, and then `b`'s bits are among `a`'s under every valuation |
| ExtRewrite.SubsumeSoundAll | src/theory/quantifiers/extended_rewrite.cpp:319-348 | subsumption implies bit inclusion under every valuation |
| ExtRewrite.SubstituteEliminates | src/theory/quantifiers/extended_rewrite.cpp:163 | substituting a term that does not contain the leaf `x` for `x` leaves no occurrence of `x` |
| ExtRewrite.TotalKind | src/theory/quantifiers/extended_rewrite.cpp:193-197 | DIVISION maps to DIVISION_TOTAL, INTS_DIVISION to INTS_DIVISION_TOTAL and INTS_MODULUS to INTS_MODULUS_TOTAL, each exactly |
| ExtRewrite.DivisionRule | src/theory/quantifiers/extended_rewrite.cpp:174-201 | fires exactly when every child is a constant, and then gives the total operator over the same children |
| ExtRewrite.SwapNegatedIte | src/theory/quantifiers/extended_rewrite.cpp:137-140 | a negated ITE condition is read as the positive one with the branches swapped, still a three-child ITE |
| ExtRewrite.SwapNegatedIteSound | src/theory/quantifiers/extended_rewrite.cpp:137-140 | the swapped ITE selects the same branch as the original under every valuation |
| ExtRewrite.IteEqualityRule | src/theory/quantifiers/extended_rewrite.cpp:141-172 | `ite (= x y) x y`, in either side order, gives `y`; any other result is the ITE with a variable side replaced by the other side (a later variable or a constant) in the then branch |
| ExtRewrite.IteInvariantSound | src/theory/quantifiers/extended_rewrite.cpp:144-152 | `ite (= x y) x y` and `y` denote the same value whenever the condition forces the sides equal |
| ExtRewrite.BvAndOrRuleAsWritten | src/theory/quantifiers/extended_rewrite.cpp:202-213 | the rule as written compares only the first two children and returns one of them |
| ExtRewrite.BvAndRuleDropsChild | src/theory/quantifiers/extended_rewrite.cpp:202-213 | on `x & (x \| y) & z` the rule as written returns `x`, whose bits differ from the node's |
| ExtRewrite.BvAndOrRule | src/theory/quantifiers/extended_rewrite.cpp:202-213 | the corrected rule fires only on two children and returns one of them; it fires whenever the first subsumes the second |
| ExtRewrite.BvAndOrRuleSound | src/theory/quantifiers/extended_rewrite.cpp:202-213 | the corrected rule keeps the bits of the node under every valuation |
| ExtRewrite.TwoChildBits | src/theory/quantifiers/extended_rewrite.cpp:202-213 | the bits of a two-child AND are the intersection of the children's, of an OR the union |
| ExtRewrite.UltRule | src/theory/quantifiers/extended_rewrite.cpp:214-221 | `a <u b` becomes false exactly when `a` is judged at least `b` |
| ExtRewrite.UltRuleSound | src/theory/quantifiers/extended_rewrite.cpp:214-221 | when the rule fires, `a` is not below `b` as an unsigned number of any width |
| ExtRewrite.LshrRule | src/theory/quantifiers/extended_rewrite.cpp:226-234 | `a >> b` becomes zero of `a`'s width exactly when `b` is judged at least `a` |
| ExtRewrite.LshrRuleSound | src/theory/quantifiers/extended_rewrite.cpp:226-234 | when the rule fires, shifting `a` right by `b` gives 0 at every width |
| ExtRewrite.LocalRule | src/theory/quantifiers/extended_rewrite.cpp:127-236 | only an ITE is ever swapped; a rule fires only for ITE, the division kinds, bit-vector AND, OR, ULT and LSHR |
| ExtRewrite.Rebuild | src/theory/quantifiers/extended_rewrite.cpp:97-122 | under a commutative operator the rewritten children are sorted by node order and are a permutation of the rewritten ones; otherwise the node is rebuilt from them, and is itself when none changed |
| ExtRewrite.ExtendedRewriter.constructor | src/theory/quantifiers/extended_rewrite.cpp:89-94 | the cache starts empty |
| ExtRewrite.ExtendedRewriter.ExtendedRewrite | src/theory/quantifiers/extended_rewrite.cpp:89-316 | returns the extended rewrite of the node (children first, rewriter, local rule, rewriter again) and caches it; a cached node returns its cached result and leaves the cache unchanged; the cache only grows and every entry stays the rewrite of its key |
| Terms.Not | src/proof/verit/verit_post_processor.cpp:4861-4889 | NOT wraps a node once, without simplifying |
| Terms.NegateAll | src/proof/verit/verit_post_processor.cpp:3005-3121 | the negations of the given nodes, one for each, in order |
| Terms.Cl | src/proof/verit/verit_post_processor.cpp:4827-4846 | a clause conclusion is an SEXPR headed by `cl` over the literals, in order |
| Terms.InsertBehindHead | src/prop/sat_proof_manager.cpp:72-74 | inserting into the tail behind the head keeps the order and the contents |
| Terms.SortByKey | src/prop/sat_proof_manager.cpp:72-74 | the result is sorted by node order and is a permutation of its input |
| Resolution.RemoveFirst | src/proof/verit/verit_post_processor.cpp:3005-3121 | resolving away a pivot removes its first occurrence, and leaves the clause as it is when the pivot is absent |
| Resolution.RemoveFirstMultiset | src/proof/verit/verit_post_processor.cpp:3005-3121 | exactly one occurrence of the pivot is removed, when there is one |
| Resolution.RemoveFirstKeeps | src/proof/verit/verit_post_processor.cpp:3005-3121 | every other literal survives |
| Resolution.SameArgs | src/prop/sat_proof_manager.cpp:303 | two argument lists agreeing on every polarity and pivot slot are equal |
| Resolution.ClauseToNode | src/proof/verit/verit_post_processor.cpp:3152-3300 | a literal sequence denotes false when empty, its literal when single, and their OR otherwise |
| Resolution.IsSingletonAt | src/proof/verit/verit_post_processor.cpp:3221-3283 | the conclusion of a chain is read as a single literal exactly when no link after its last introducing premise eliminates it |
| Resolution.LastIntroducer | src/proof/verit/verit_post_processor.cpp:3234-3257 | one plus the index of the last premise that introduces the conclusion, zero when none does |
| Resolution.EliminatedFrom | src/proof/verit/verit_post_processor.cpp:3258-3283 | true exactly when some link from the given premise on eliminates the conclusion |
| Resolution.ResolventStepSound | src/prop/sat_proof_manager.cpp:303 | one chain link keeps the resolvent satisfied when the premise is true |
| Resolution.ResolventUnitStep | src/prop/sat_proof_manager.cpp:319 | a premise read as the single literal a link removes only takes that literal out of the accumulated resolvent |
| Resolution.ResolventOfUnits | src/prop/sat_proof_manager.cpp:319 | a chain whose links all resolve against units removes one occurrence of each link's literal from the first premise |
| Resolution.ResolventOfAllUnits | src/prop/sat_proof_manager.cpp:319 | the whole all-unit chain's conclusion is the first premise minus one occurrence of each link's literal |
| Resolution.ChainConclusionSound | src/prop/sat_proof_manager.cpp:303-319 | CHAIN_RESOLUTION is sound: under any valuation making every premise true, the conclusion is true |
| ProofStore.Results | src/proof/lean/lean_post_processor.cpp:113 | the facts the given proofs prove, one for each, in order |
| ProofStore.AddedStepFacts | src/proof/verit/verit_post_processor.cpp:4843 | adding a step for a fact keeps every other fact's step, keeps a stored non-assumption step for that fact, and otherwise stores the new step |
| ProofStore.AddedStepKeeps | src/proof/lean/lean_post_processor.cpp:70 | a stored step that is not an assumption is never replaced by a later addition |
| ProofStore.AddedStepsKeys | src/proof/verit/verit_post_processor.cpp:4843 | adding steps stores a step for each of their facts and removes none |
| ProofStore.AddedStepsAppend | src/proof/verit/verit_post_processor.cpp:3005-3121 | adding two step lists one after the other is adding their concatenation |
| ProofStore.AddedStepsOther | src/proof/verit/verit_post_processor.cpp:4843 | a fact no added step is for keeps its step, or its absence |
| ProofStore.ProofRuleFor | src/prop/sat_proof_manager.cpp:767 | the rule of the step stored for a fact; a fact without a step is proved by assuming it |
| ProofStore.CdProof.AddStep | src/proof/lean/lean_post_processor.cpp:70 | the store becomes the old one with the step added under the no-overwrite-of-non-assumptions policy |
| ProofStore.CdProof.OverwriteStep | src/proof/verit/verit_post_processor.cpp:2354-2392 | with the ALWAYS policy the step replaces whatever was stored for the fact, and nothing else changes |
| ProofStore.CdProof.AddProof | src/proof/lean/lean_post_processor.cpp:113 | stores the proof's top step under its result, with its children's results as premises, under the same policy |

## Left out

- I/O and tracing are not modelled. This covers `Trace`/`Debug` output, `printLit`, `printClause`, `debugExtendedRewrite` and the options read at run time. Options the code branches on are parameters or fields instead: extended mode, full effort, the strategy, and eager checking.
- The SAT solver, the CNF stream and the term producers are external, so they are parameters:
  - each SAT variable's atom node and the node order (`atom`, `nodeId`);
  - the reason lookup and the trail;
  - the number of candidate terms of each variable and the term at an index (`termOf`);
  - the ordinary rewriter, the commutativity table and a node's bit width.
- SatProof.SatProofManager.ExplainLit, SatProof.SatProofManager.ProcessRedundantLit, NewProof.NewProofManager.JustifyLit: these require that every reason clause only mentions variables assigned earlier on the trail (`ReasonsFollowTrail`, `SolverConsistent`). CVC4 relies on this property of the solver without checking it, and the requirement is what makes the recursive explanations terminate.
- SatProof.SatProofManager.EndResChain: the reduction `factorReorderElimDoubleNeg` (sat_proof_manager.cpp:307-308) is the parameter `factor`, a function returning the steps it adds and the reduced clause. Its code (the theory proof step buffer) is not part of this model. The model requires only that every step it adds concludes what it claims (`FactoringConcludes`).
- SatProof.SatProofManager.GetProof: states that the stored proof of `false` concludes `false` only for a CHAIN_RESOLUTION step over a well-formed chain (`StepConcludes`). Steps added by `factor` are opaque, so the contract does not say the top rule is CHAIN_RESOLUTION.
- SatProof.SatProofManager.EndResChain, SatProof.SatProofManager.ExplainLit, SatProof.SatProofManager.FinalizeProof, SatProof.SatProofManager.StoreUnitConflict, SatProof.SatProofManager.FinalizeProofStored: `Assert`/`AlwaysAssert` failures on reachable states are modelled as an `ok == false` (or `AssertionFailed`) outcome, and the state is then left as described. CVC4 aborts in a debug build and continues unchecked in a release build: there `storeUnitConflict` overwrites a pending conflict literal, and `finalizeProof` goes on with an undefined one.
- SatProof.AddedFirst, SatProof.AddedAll: the lazy proof generator `d_resChainPg` is modelled as a step store in which the first step recorded for a fact wins. Lazy expansion by `d_resChains.addLazyStep` is not modelled (sat_proof_manager.cpp:330, 712, 858). The eager closedness check (sat_proof_manager.cpp:938-946) is not modelled either.
- NewProof.NewProofManager: only the veriT proof format is modelled. The Lean-format branches of every operation are not modelled (new_proof_manager.cpp:49, 84, 126, 163, 180, 215, 301, 402, 474, 498, 538, 609, 629), including `addResSteps` (new_proof_manager.cpp:769, 829).
- NewProof.NewProofManager.RegisterLitWithReason: for a theory lemma with a queued theory proof, `addTheoryProof` (new_proof_manager.cpp:467) is reduced to one THEORY_LEMMA step concluding the definition. The theory proof object is not part of this model, so NewProof.NewProofManager.QueueTheoryProof records only the literal.
- NewProof.NewProofManager.AddProofStep: fresh ids start at 1 and increase by one. The veriT proof object that hands out ids is not part of this model.
- The following new-proof-manager operations are not modelled, because they only forward to the proof object's `addToProofStep` or only assert:
  - `notifyIte` (new_proof_manager.cpp:172-185, Lean format only);
  - the two rule-taking `addCnfProofStep` overloads (187-256);
  - `addDefCnfProofStep` (282-306);
  - `startResChain` (648-655, assertions only).
- `registerClause(clause, reason, def)` (new_proof_manager.cpp:552-646) is not modelled. For a clause whose id was never registered it returns an uninitialised id.
- Verit.VeritProofPostprocess.ProcessInternal: translates each step with the rewriting callback `MyVeritProofPostprocessCallback` (verit_post_processor.cpp:2484-4815), which `myProcess` installs as `d_cb0`. `process`/`processInternal` (4916-4980) call `d_cb`, an instance of the older `VeritProofPostprocessCallback` (38-2300), and that older callback is not part of this model.
- `d_pnm->updateNode` is not modelled. It replaces a proof node by the stored proof, and the model's result is the step store.
- Verit.VeritProofPostprocess.Skip: stops at a SYMM or REORDERING node without premises. CVC4 reads `getChildren()[0]` of such a node (verit_post_processor.cpp:4952-4954), which is undefined.
- Verit.Update, Verit.UpdateMulti, Verit.UpdateSingle, VeritSteps.Translation, VeritSteps.MultiSteps: these require `TranslationDefined`, which says each rule's premises and arguments have the arity its translation indexes into. CVC4 indexes without checking, which is undefined on a malformed step. VeritDriver lifts the requirement to a whole proof as `Translatable`.
- VeritSteps.ResolutionLeftIsResolve: binary RESOLUTION erases the first pivot and the first negated pivot. When one is absent the model leaves the literals as they are, while CVC4 calls `erase(find(...))` on the end iterator (verit_post_processor.cpp:3092-3098), which is undefined.
- VeritRules.TheoryRewriteRule: the guessed veriT rule of a THEORY_REWRITE step is a table lookup. The rewrite itself is not checked.
- ExtRewrite.LocalRule: returns no rule for EQUAL. The pull-ITE rewrite `extendedRewritePullIte` (extended_rewrite.cpp:36-87, 129-133) and the monomial-sum solving of arithmetic atoms (237-303) are not modelled, because they depend on the arithmetic normaliser, which is not part of this model.
- ExtRewrite.Rebuild: the operator child that a parameterized node puts first among its children (extended_rewrite.cpp:100-103) is not modelled.
- TupleEnum.TupleEnumerator: the `IndexTrie` of disabled combinations is abstracted as the list of recorded failures (`failures`) and the lookup `blocked`. The model records every failure. CVC4 constructs the trie with `d_disabledCombinations(true)` (term_tuple_enumerator.cpp:166-167), which ignores combinations that have no blank.
- TupleEnum.TupleEnumerator.IncreaseScore: like `increaseScore` (term_tuple_enumerator.cpp:416), it returns whether the new score has a valid permutation, so social enumeration stops at the first score without one. For term counts `[1, 3]`, the score after `[0, 1]` is `[1, 1]`, which has no valid permutation, and `[0, 2]` is never offered. The model promises no completeness of the social order.
- Lean: `LeanProofPostprocess::process` and the proof-node updater traversal are not modelled (lean_post_processor.cpp:574-580). Only the callback's `update` is modelled. The `cl` connecting callback (557-572) is never run, because its `process` call is commented out.

## Findings

| source | as written | input that shows it | evidently intended | confidence | as-written member | corrected member |
|---|---|---|---|---|---|---|
| src/prop/sat_proof_manager.cpp:223-229 | `endResChain` returns early for a chain of a single premise, before `d_resLinks.clear()` at line 333 | a chain started on clause `C` and ended with no resolution: the next chain, started on `D`, resolves `C` against `D` on the null pivot | the link buffer is empty after every `endResChain` | not executed | SatProof.StaleLinkAfterSinglePremiseChain, SatProof.LinksAfterEndAsWritten | SatProof.SatProofManager.EndResChain |
| src/proof/lean/lean_post_processor.cpp:200-216 | CONG never assigns `cur = newCur`, so every partial step and the final step use `(= op op)` | CONG with two premises: the final step cites `(= op op)` instead of the partial step before it | each step builds on the previous partial application | not executed | Lean.CongFinalSkipsPartial, Lean.CongCurAsWritten | Lean.CongStepsChain, Lean.CongSteps, Lean.LeanCallback.Cong |
| src/proof/lean/lean_post_processor.cpp:308 | `arePremisesSingletons[1]` is set for a marked premise and never reset | a chain whose first resolved premise is a marked assumption and whose second is an assumed OR read as a clause: the second keeps the flag | the flag is recomputed for each premise | not executed | Lean.SecondFlagStale, Lean.SecondFlagAsWritten | Lean.SecondFlag |
| src/theory/quantifiers/extended_rewrite.cpp:202-213 | the AND/OR subsumption rule compares `ret[0]` and `ret[1]` of an n-ary node and drops the other children | `x & (x \| y) & z` is rewritten to `x`, whose bits differ whenever `z` lacks a bit of `x` | the rule applies to two children only, or keeps the other children | not executed | ExtRewrite.BvAndRuleDropsChild, ExtRewrite.BvAndOrRuleAsWritten | ExtRewrite.BvAndOrRule, ExtRewrite.BvAndOrRuleSound |
| src/proof/verit/verit_post_processor.cpp:3216 | the `or` step that splits chain premise `i` cites `children[0]` | premises `(or a b)`, `(or c d)`: the step concluding `(cl c d)` cites the proof of `(or a b)` | the step cites premise `i` | not executed | VeritSteps.ChainOrStepWrongPremise, VeritSteps.ChainOrStepAsWritten | VeritSteps.ChainOrStep |
| src/proof/verit/verit_post_processor.cpp:3245, 3261 | the singleton scan reads the pivot of premise `i` at `args[2*(i-1)]` and of link `i` at `args[2*i]`, one position past the pivot | `(or (or p q) x)` resolved with `(not x)` on pivot `x`: the conclusion `(or p q)` is a singleton, but the scan reads outside `args` or never answers singleton | the pivot of link `i` is `args[2*i-1]` and its polarity `args[2*i-2]` | not executed | VeritSteps.AsWrittenNeverSingleton, VeritSteps.SingletonScanExample, VeritSteps.IsSingletonAsWritten | Verit.IsSingletonClause, Resolution.IsSingletonAt, Resolution.LastIntroducer, Resolution.EliminatedFrom |
| src/proof/verit/verit_post_processor.cpp:4861-4889 | `isSameModEqual` compares childless nodes of the same kind by their (empty) children, so two different variables count as the same | `isSameModEqual(x, y)` for distinct variables `x` and `y` is true | structural equality up to swapping the sides of `=`; different leaves differ. At both call sites (3028, 3065) one side is an OR and the other a negation, where the two versions agree | not executed | VeritSteps.SameModEqualLeaves, VeritSteps.IsSameModEqualAsWritten | VeritSteps.SameModEqualIsEquality, VeritSteps.IsSameModEqual, VeritSteps.OrNeverSameAsNegation |
| src/proof/lean/lean_post_processor.cpp:126-131 | the IMPLIES_ELIM clause is `(res[0].notNode() res[1])`, but IMPLIES_ELIM concludes `(or (not F1) F2)` | IMPLIES_ELIM concluding `(or (not a) b)` after a premise other than SCOPE: the stored clause is `((not (not a)) b)` | the clause is the two disjuncts `(res[0] res[1])`, as CNF_AND_POS builds it | not executed | Lean.ImpliesElimDoubleNegation, Lean.ImpliesElimClauseAsWritten | Lean.ImpliesElimClause, Lean.ImpliesElimClauseReadsResult, Lean.LeanCallback.ImpliesElim |
