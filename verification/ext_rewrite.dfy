/**
 * The extended rewriter's local rules: bit-vector subsumption and the
 * AND/OR/ULT/LSHR simplifications it enables, the ITE rules, division
 * totalisation, the sorting of commutative children, and the memoisation
 * of results in a cache.
 *
 * The ordinary rewriter, the commutativity table, the node order and the
 * bit width of a node are external: they are fields of the rewriter.
 */
module ExtRewrite {
  import opened Terms

  // ------------------------------------------------------------------
  // Bit-vector subsumption

  predicate IsBvOr(t: Term)
  {
    t.App? && t.op == BITVECTOR_OR
  }

  predicate IsBvAnd(t: Term)
  {
    t.App? && t.op == BITVECTOR_AND
  }

  /**
   * `bitVectorSubsume(a, b, strict)`: whether every bit set in `b` is set in
   * `a`, judged structurally: equal nodes (unless strict), a child of an OR
   * `a` subsuming `b`, or `a` subsuming a child of an AND `b`.
   */
  function Subsume(a: Term, b: Term, strict: bool): bool
    decreases a, b
  {
    if a == b then !strict
    else if IsBvOr(a) then exists i :: 0 <= i < |a.args| && Subsume(a.args[i], b, strict)
    else if IsBvAnd(b) then exists i :: 0 <= i < |b.args| && Subsume(a, b.args[i], strict)
    else false
  }

  /**
   * The bits set in a bit-vector node: a union for OR, an intersection for
   * a non-empty AND, and what `val` gives for any other node.
   */
  function Bits(t: Term, val: Term -> set<nat>): set<nat>
    decreases t
  {
    if IsBvOr(t) then
      set i, x | 0 <= i < |t.args| && x in Bits(t.args[i], val) :: x
    else if IsBvAnd(t) && |t.args| >= 1 then
      set x | x in Bits(t.args[0], val) && forall i :: 0 <= i < |t.args| ==> x in Bits(t.args[i], val)
    else val(t)
  }

  lemma InOrBits(t: Term, val: Term -> set<nat>, x: nat)
    requires IsBvOr(t)
    ensures x in Bits(t, val) <==> exists i :: 0 <= i < |t.args| && x in Bits(t.args[i], val)
  {
  }

  lemma InAndBits(t: Term, val: Term -> set<nat>, x: nat)
    requires IsBvAnd(t) && |t.args| >= 1
    ensures x in Bits(t, val) <==> forall i :: 0 <= i < |t.args| ==> x in Bits(t.args[i], val)
  {
  }

  /** Subsumption is sound: the bits of the subsumed node are among the bits of the subsuming one. */
  lemma {:induction false} SubsumeSound(a: Term, b: Term, strict: bool, val: Term -> set<nat>)
    requires Subsume(a, b, strict)
    ensures Bits(b, val) <= Bits(a, val)
    decreases a, b
  {
    if a == b {
    } else if IsBvOr(a) {
      var i :| 0 <= i < |a.args| && Subsume(a.args[i], b, strict);
      SubsumeSound(a.args[i], b, strict, val);
      forall x | x in Bits(a.args[i], val)
        ensures x in Bits(a, val)
      {
        InOrBits(a, val, x);
      }
    } else {
      var i :| 0 <= i < |b.args| && Subsume(a, b.args[i], strict);
      SubsumeSound(a, b.args[i], strict, val);
    }
  }

  /** A strict subsumption never holds between a node and itself. */
  lemma {:induction false} StrictNotReflexive(a: Term)
    ensures !Subsume(a, a, true)
  {
  }

  /**
   * `bitVectorArithComp(a, b, strict)`: whether `a` is at least `b` as an
   * unsigned number, by subsumption only.
   */
  function ArithComp(a: Term, b: Term, strict: bool): (r: bool)
    ensures r <==> Subsume(a, b, strict)
    ensures r ==> forall val: Term -> set<nat> :: Bits(b, val) <= Bits(a, val)
  {
    SubsumeSoundAll(a, b, strict);
    Subsume(a, b, strict)
  }

  lemma SubsumeSoundAll(a: Term, b: Term, strict: bool)
    ensures Subsume(a, b, strict) ==> forall val: Term -> set<nat> :: Bits(b, val) <= Bits(a, val)
  {
    if Subsume(a, b, strict) {
      forall val: Term -> set<nat>
        ensures Bits(b, val) <= Bits(a, val)
      {
        SubsumeSound(a, b, strict, val);
      }
    }
  }

  // ------------------------------------------------------------------
  // Unsigned values of bit sets

  function Pow2(n: nat): (r: nat)
    ensures r >= 1
  {
    if n == 0 then 1 else 2 * Pow2(n - 1)
  }

  /** The unsigned value of the low `w` bits of a bit set. */
  function Value(s: set<nat>, w: nat): (r: nat)
    ensures r < Pow2(w)
  {
    if w == 0 then 0 else Value(s, w - 1) + (if w - 1 in s then Pow2(w - 1) else 0)
  }

  lemma {:induction false} ValueMonotone(s: set<nat>, t: set<nat>, w: nat)
    requires s <= t
    ensures Value(s, w) <= Value(t, w)
  {
    if w > 0 {
      ValueMonotone(s, t, w - 1);
    }
  }

  lemma {:induction false} BelowPow2(n: nat)
    ensures n < Pow2(n)
  {
    if n > 0 {
      BelowPow2(n - 1);
    }
  }

  // ------------------------------------------------------------------
  // The local rules

  predicate IsConst(t: Term)
  {
    t.BoolConst? || t.RatConst? || t.BvConst?
  }

  predicate IsVar(t: Term)
  {
    t.Var? || t.ClSymbol?
  }

  /** Whether `x` occurs in `t`. */
  predicate Occurs(x: Term, t: Term)
    decreases t
  {
    t == x || (t.App? && exists i :: 0 <= i < |t.args| && Occurs(x, t.args[i]))
  }

  /** `t.substitute(x, y)`: every occurrence of `x` in `t` replaced by `y`. */
  function Substitute(t: Term, x: Term, y: Term): (r: Term)
    decreases t
  {
    if t == x then y
    else if t.App? then App(t.op, seq(|t.args|, i requires 0 <= i < |t.args| => Substitute(t.args[i], x, y)))
    else t
  }

  /** After substituting `y` for a leaf `x`, `x` is gone, unless `y` brings it back. */
  lemma {:induction false} SubstituteEliminates(t: Term, x: Term, y: Term)
    requires !x.App? && !Occurs(x, y)
    ensures !Occurs(x, Substitute(t, x, y))
    decreases t
  {
    if t != x && t.App? {
      var r := Substitute(t, x, y);
      forall i | 0 <= i < |r.args|
        ensures !Occurs(x, r.args[i])
      {
        SubstituteEliminates(t.args[i], x, y);
      }
    }
  }

  /** The total counterpart of a division kind. */
  function TotalKind(k: Kind): (r: Kind)
    requires k == DIVISION || k == INTS_DIVISION || k == INTS_MODULUS
    ensures k == DIVISION <==> r == DIVISION_TOTAL
    ensures k == INTS_DIVISION <==> r == INTS_DIVISION_TOTAL
    ensures k == INTS_MODULUS <==> r == INTS_MODULUS_TOTAL
  {
    if k == DIVISION then DIVISION_TOTAL
    else if k == INTS_DIVISION then INTS_DIVISION_TOTAL
    else INTS_MODULUS_TOTAL
  }

  /** Division, integer division and modulus on constants only are read as their total versions. */
  function DivisionRule(ret: Term): (r: Option<Term>)
    requires ret.App? && (ret.op == DIVISION || ret.op == INTS_DIVISION || ret.op == INTS_MODULUS)
    ensures r.Some? <==> forall i :: 0 <= i < |ret.args| ==> IsConst(ret.args[i])
    ensures r.Some? ==> r.value == App(TotalKind(ret.op), ret.args)
  {
    if forall i :: 0 <= i < |ret.args| ==> IsConst(ret.args[i]) then Some(App(TotalKind(ret.op), ret.args))
    else None
  }

  /**
   * The first selection of the ITE rule: `ite (not c) a b` is read as
   * `ite c b a`.
   */
  function SwapNegatedIte(ret: Term): (r: Term)
    requires ret.App? && ret.op == ITE && |ret.args| == 3
    ensures r.App? && r.op == ITE && |r.args| == 3
  {
    var c := ret.args[0];
    if KindOf(c) == NOT && |Children(c)| == 1 then App(ITE, [Children(c)[0], ret.args[2], ret.args[1]])
    else ret
  }

  /** The branch an ITE selects under a valuation. */
  function Selected(ite: Term, val: iset<Term>): Term
    requires ite.App? && |ite.args| == 3
  {
    if Eval(ite.args[0], val) then ite.args[1] else ite.args[2]
  }

  /** The swap selects the same branch as the original ITE. */
  lemma SwapNegatedIteSound(ret: Term, val: iset<Term>)
    requires ret.App? && ret.op == ITE && |ret.args| == 3
    ensures Selected(SwapNegatedIte(ret), val) == Selected(ret, val)
  {
    var c := ret.args[0];
    if KindOf(c) == NOT && |Children(c)| == 1 {
      assert c == App(NOT, [c.args[0]]);
      EvalNot(c.args[0], val);
    }
  }

  /** Whether the substitution of `ite (= x y) t e` fires on side `i` of the equality. */
  predicate SubstFires(ret: Term, nodeId: Term -> nat, i: nat)
    requires ret.App? && |ret.args| == 3 && ret.args[0].App? && |ret.args[0].args| == 2 && i < 2
  {
    var r1, r2 := ret.args[0].args[i], ret.args[0].args[1 - i];
    IsVar(r1) && ((IsVar(r2) && nodeId(r1) < nodeId(r2)) || IsConst(r2))
    && Substitute(ret.args[1], r1, r2) != ret.args[1]
  }

  /**
   * The rules for an ITE whose condition (after the swap) is an equality:
   * `ite (= x y) x y` (either side order) gives `y`; otherwise, when one side
   * is a variable and the other a later variable or a constant, the then
   * branch has the variable replaced; the second side wins when both
   * apply.
   */
  function IteEqualityRule(ret: Term, nodeId: Term -> nat): (r: Option<Term>)
    requires ret.App? && ret.op == ITE && |ret.args| == 3
    requires ret.args[0].App? && ret.args[0].op == EQUAL && |ret.args[0].args| == 2
    ensures (ret.args[1] == ret.args[0].args[0] && ret.args[2] == ret.args[0].args[1])
            || (ret.args[1] == ret.args[0].args[1] && ret.args[2] == ret.args[0].args[0])
            ==> r == Some(ret.args[2])
    ensures r.Some? && r.value != ret.args[2] ==>
              (exists i :: 0 <= i < 2 && SubstFires(ret, nodeId, i)
                 && r.value == App(ITE, [ret.args[0], Substitute(ret.args[1], ret.args[0].args[i], ret.args[0].args[1 - i]), ret.args[2]]))
  {
    var eq := ret.args[0];
    if (ret.args[1] == eq.args[0] && ret.args[2] == eq.args[1])
       || (ret.args[1] == eq.args[1] && ret.args[2] == eq.args[0]) then
      Some(ret.args[2])
    else if SubstFires(ret, nodeId, 1) then
      Some(App(ITE, [eq, Substitute(ret.args[1], eq.args[1], eq.args[0]), ret.args[2]]))
    else if SubstFires(ret, nodeId, 0) then
      Some(App(ITE, [eq, Substitute(ret.args[1], eq.args[0], eq.args[1]), ret.args[2]]))
    else None
  }

  /**
   * `ite (= x y) x y` and `y` denote the same value: when the condition
   * holds both sides are equal.
   */
  lemma IteInvariantSound<D>(ret: Term, val: iset<Term>, den: Term -> D)
    requires ret.App? && ret.op == ITE && |ret.args| == 3
    requires ret.args[0].App? && ret.args[0].op == EQUAL && |ret.args[0].args| == 2
    requires (ret.args[1] == ret.args[0].args[0] && ret.args[2] == ret.args[0].args[1])
             || (ret.args[1] == ret.args[0].args[1] && ret.args[2] == ret.args[0].args[0])
    requires Eval(ret.args[0], val) ==> den(ret.args[0].args[0]) == den(ret.args[0].args[1])
    ensures den(Selected(ret, val)) == den(ret.args[2])
  {
  }

  /**
   * The AND/OR subsumption rule as written: the first two children are
   * compared, and AND gives the subsumed one, OR the subsuming one; any
   * further children are dropped.
   */
  function BvAndOrRuleAsWritten(ret: Term): (r: Option<Term>)
    requires (IsBvAnd(ret) || IsBvOr(ret)) && |ret.args| >= 2
    ensures r.Some? ==> r.value == ret.args[0] || r.value == ret.args[1]
  {
    if Subsume(ret.args[0], ret.args[1], false) then
      Some(if ret.op == BITVECTOR_AND then ret.args[1] else ret.args[0])
    else if Subsume(ret.args[1], ret.args[0], false) then
      Some(if ret.op == BITVECTOR_AND then ret.args[0] else ret.args[1])
    else None
  }

  /**
   * On a three-child AND the rule as written changes the value:
   * `x & (x | y) & z` becomes `x`, which differs from it whenever `z` lacks
   * a bit of `x`.
   */
  lemma BvAndRuleDropsChild(x: Term, y: Term, z: Term)
    requires x != z && !IsBvOr(x) && !IsBvAnd(x) && !IsBvOr(z) && !IsBvAnd(z)
    ensures var ret := App(BITVECTOR_AND, [x, App(BITVECTOR_OR, [x, y]), z]);
            var val := (t: Term) => if t == x then {0} else {};
            BvAndOrRuleAsWritten(ret) == Some(x) && Bits(ret, val) != Bits(x, val)
  {
    var ret := App(BITVECTOR_AND, [x, App(BITVECTOR_OR, [x, y]), z]);
    var val := (t: Term) => if t == x then {0} else {};
    assert !Subsume(x, ret.args[1], false);
    assert Subsume(ret.args[1], x, false) by {
      assert ret.args[1].args[0] == x;
    }
    assert Bits(x, val) == {0};
    assert 0 !in Bits(ret.args[2], val);
    InAndBits(ret, val, 0);
  }

  /**
   * The AND/OR subsumption rule, applied only to two children: AND gives
   * the subsumed child, OR the subsuming one.
   */
  function BvAndOrRule(ret: Term): (r: Option<Term>)
    requires IsBvAnd(ret) || IsBvOr(ret)
    ensures r.Some? ==> |ret.args| == 2 && (r.value == ret.args[0] || r.value == ret.args[1])
    ensures |ret.args| == 2 && Subsume(ret.args[0], ret.args[1], false) ==> r.Some?
  {
    if |ret.args| == 2 then BvAndOrRuleAsWritten(ret) else None
  }

  /** The two-child rule keeps the value of the node. */
  lemma BvAndOrRuleSound(ret: Term, val: Term -> set<nat>)
    requires IsBvAnd(ret) || IsBvOr(ret)
    requires BvAndOrRule(ret).Some?
    ensures Bits(BvAndOrRule(ret).value, val) == Bits(ret, val)
  {
    var a, b := ret.args[0], ret.args[1];
    if Subsume(a, b, false) {
      SubsumeSound(a, b, false, val);
    } else {
      SubsumeSound(b, a, false, val);
    }
    TwoChildBits(ret, val);
  }

  /** The bits of a two-child AND are those of both children, of an OR those of either. */
  lemma TwoChildBits(ret: Term, val: Term -> set<nat>)
    requires (IsBvAnd(ret) || IsBvOr(ret)) && |ret.args| == 2
    ensures IsBvAnd(ret) ==> Bits(ret, val) == Bits(ret.args[0], val) * Bits(ret.args[1], val)
    ensures IsBvOr(ret) ==> Bits(ret, val) == Bits(ret.args[0], val) + Bits(ret.args[1], val)
  {
    var a, b := ret.args[0], ret.args[1];
    if IsBvAnd(ret) {
      forall x
        ensures x in Bits(ret, val) <==> x in Bits(a, val) && x in Bits(b, val)
      {
        InAndBits(ret, val, x);
      }
    } else {
      forall x
        ensures x in Bits(ret, val) <==> x in Bits(a, val) || x in Bits(b, val)
      {
        InOrBits(ret, val, x);
      }
    }
  }

  /** `a <u b` is false when `a` subsumes `b`. */
  function UltRule(ret: Term): (r: Option<Term>)
    requires ret.App? && ret.op == BITVECTOR_ULT && |ret.args| == 2
    ensures r.Some? <==> ArithComp(ret.args[0], ret.args[1], false)
    ensures r.Some? ==> r.value == False
  {
    if ArithComp(ret.args[0], ret.args[1], false) then Some(False) else None
  }

  /** The ULT rule is sound at every width: `a` is then at least `b`. */
  lemma UltRuleSound(ret: Term, val: Term -> set<nat>, w: nat)
    requires ret.App? && ret.op == BITVECTOR_ULT && |ret.args| == 2
    requires UltRule(ret).Some?
    ensures !(Value(Bits(ret.args[0], val), w) < Value(Bits(ret.args[1], val), w))
  {
    SubsumeSound(ret.args[0], ret.args[1], false, val);
    ValueMonotone(Bits(ret.args[1], val), Bits(ret.args[0], val), w);
  }

  /** `a >> b` is zero (of `a`'s width) when `b` subsumes `a`. */
  function LshrRule(ret: Term, width: Term -> nat): (r: Option<Term>)
    requires ret.App? && ret.op == BITVECTOR_LSHR && |ret.args| == 2
    ensures r.Some? <==> ArithComp(ret.args[1], ret.args[0], false)
    ensures r.Some? ==> r.value == BvConst(width(ret.args[0]), 0)
  {
    if ArithComp(ret.args[1], ret.args[0], false) then Some(BvConst(width(ret.args[0]), 0)) else None
  }

  /** The LSHR rule is sound at every width: the shift is at least the shifted value. */
  lemma LshrRuleSound(ret: Term, width: Term -> nat, val: Term -> set<nat>, w: nat)
    requires ret.App? && ret.op == BITVECTOR_LSHR && |ret.args| == 2
    requires LshrRule(ret, width).Some?
    ensures Value(Bits(ret.args[0], val), w) / Pow2(Value(Bits(ret.args[1], val), w)) == 0
  {
    var a, s := Value(Bits(ret.args[0], val), w), Value(Bits(ret.args[1], val), w);
    SubsumeSound(ret.args[1], ret.args[0], false, val);
    ValueMonotone(Bits(ret.args[0], val), Bits(ret.args[1], val), w);
    BelowPow2(s);
    DivBelow(a, Pow2(s));
  }

  lemma DivBelow(a: nat, b: nat)
    requires a < b
    ensures a / b == 0
  {
  }

  /**
   * The local step after the ordinary rewriter: the (possibly swapped)
   * node and the new node a rule produced, if any.
   */
  function LocalRule(ret: Term, nodeId: Term -> nat, width: Term -> nat): (r: (Term, Option<Term>))
    ensures KindOf(ret) != ITE ==> r.0 == ret
    ensures r.1.Some? ==> KindOf(ret) in {ITE, DIVISION, INTS_DIVISION, INTS_MODULUS,
                                          BITVECTOR_AND, BITVECTOR_OR, BITVECTOR_ULT, BITVECTOR_LSHR}
  {
    match ret
    case App(op, args) =>
      if op == ITE && |args| == 3 then
        var s := SwapNegatedIte(ret);
        if s.args[0].App? && s.args[0].op == EQUAL && |s.args[0].args| == 2 then (s, IteEqualityRule(s, nodeId))
        else (s, None)
      else if op == DIVISION || op == INTS_DIVISION || op == INTS_MODULUS then (ret, DivisionRule(ret))
      else if op == BITVECTOR_AND || op == BITVECTOR_OR then (ret, BvAndOrRule(ret))
      else if op == BITVECTOR_ULT && |args| == 2 then (ret, UltRule(ret))
      else if op == BITVECTOR_LSHR && |args| == 2 then (ret, LshrRule(ret, width))
      else (ret, None)
    case _ => (ret, None)
  }

  /**
   * The children of `n` rebuilt from their extended rewrites `cs`: sorted by
   * node order under a commutative operator, and `n` itself when nothing
   * changed.
   */
  function Rebuild(n: Term, cs: seq<Term>, isComm: Kind -> bool, nodeId: Term -> nat): (r: Term)
    requires n.App?
    ensures isComm(n.op) ==> r.App? && r.op == n.op && SortedByKey(r.args, nodeId) && multiset(r.args) == multiset(cs)
    ensures !isComm(n.op) && cs == n.args ==> r == n
    ensures !isComm(n.op) ==> r == App(n.op, cs)
  {
    if isComm(n.op) then App(n.op, SortByKey(cs, nodeId))
    else if cs != n.args then App(n.op, cs)
    else n
  }

  /**
   * The extended rewrite of a node: its children rewritten first, the
   * ordinary rewriter applied, then a local rule whose result is rewritten
   * again.
   */
  function ExtRw(n: Term, rewrite: Term -> Term, isComm: Kind -> bool, nodeId: Term -> nat, width: Term -> nat): Term
    decreases n
  {
    var base :=
      if n.App? && |n.args| > 0 then
        Rebuild(n, seq(|n.args|, i requires 0 <= i < |n.args| => ExtRw(n.args[i], rewrite, isComm, nodeId, width)), isComm, nodeId)
      else n;
    AfterChildren(base, rewrite, nodeId, width)
  }

  /**
   * What follows the children's rewrite: the ordinary rewriter, then a
   * local rule, whose result is rewritten again.
   */
  function AfterChildren(base: Term, rewrite: Term -> Term, nodeId: Term -> nat, width: Term -> nat): Term
  {
    var step := LocalRule(rewrite(base), nodeId, width);
    if step.1.Some? then rewrite(step.1.value) else step.0
  }

  /**
   * The extended rewriter: the ordinary rewriter and the tables it reads,
   * and the cache of results computed so far.
   */
  class ExtendedRewriter {
    const rewrite: Term -> Term
    const isComm: Kind -> bool
    const nodeId: Term -> nat
    const width: Term -> nat
    /** Results computed so far, by input node. */
    var cache: map<Term, Term>

    constructor (rewrite: Term -> Term, isComm: Kind -> bool, nodeId: Term -> nat, width: Term -> nat)
      ensures this.rewrite == rewrite && this.isComm == isComm && this.nodeId == nodeId && this.width == width
      ensures cache == map[]
    {
      this.rewrite := rewrite;
      this.isComm := isComm;
      this.nodeId := nodeId;
      this.width := width;
      cache := map[];
    }

    /** Every cached result is the extended rewrite of its key. */
    ghost predicate Valid()
      reads this`cache
    {
      forall t :: t in cache ==> cache[t] == ExtRw(t, rewrite, isComm, nodeId, width)
    }

    /**
     * The extended rewrite of `n`, looked up in the cache or computed and
     * cached.
     */
    method ExtendedRewrite(n: Term) returns (r: Term)
      requires Valid()
      modifies this`cache
      ensures Valid()
      ensures r == ExtRw(n, rewrite, isComm, nodeId, width)
      ensures n in cache && cache[n] == r
      ensures old(cache).Keys <= cache.Keys
      ensures n in old(cache) ==> r == old(cache)[n] && cache == old(cache)
      decreases n
    {
      if n in cache {
        return cache[n];
      }
      var base := n;
      if n.App? && |n.args| > 0 {
        var children: seq<Term> := [];
        var i := 0;
        while i < |n.args|
          invariant 0 <= i <= |n.args|
          invariant |children| == i
          invariant forall j :: 0 <= j < i ==> children[j] == ExtRw(n.args[j], rewrite, isComm, nodeId, width)
          invariant Valid() && old(cache).Keys <= cache.Keys
        {
          var nc := ExtendedRewrite(n.args[i]);
          children := children + [nc];
          i := i + 1;
        }
        assert children == seq(|n.args|, j requires 0 <= j < |n.args| => ExtRw(n.args[j], rewrite, isComm, nodeId, width));
        base := Rebuild(n, children, isComm, nodeId);
      }
      r := AfterChildren(base, rewrite, nodeId, width);
      cache := cache[n := r];
    }
  }
}
