/**
 * The node language the proof layer works over: atoms and constants, the
 * Boolean connectives, the arithmetic and bit-vector operators the
 * extended rewriter looks at, and the `sexpr`/`cl` wrappers used by proof
 * formats. Nodes are compared structurally.
 */
module Terms {

  datatype Option<T> = None | Some(value: T)

  /** Node kinds distinguished by the modelled code. */
  datatype Kind =
    | NULL_EXPR | CONST_BOOLEAN | CONST_RATIONAL | CONST_BITVECTOR
    | VARIABLE | BOUND_VARIABLE
    | NOT | OR | AND | EQUAL | IMPLIES | ITE | XOR | SEXPR
    | FORALL | APPLY_UF
    | PLUS | MULT | MINUS | UMINUS | PRODUCT | CAST_TO_REAL
    | DIVISION | INTS_DIVISION | INTS_MODULUS
    | DIVISION_TOTAL | INTS_DIVISION_TOTAL | INTS_MODULUS_TOTAL
    | LT | GT | GEQ | LEQ
    | BITVECTOR_AND | BITVECTOR_OR | BITVECTOR_ULT | BITVECTOR_LSHR
    | OTHER_KIND(code: nat)

  /**
   * A node. `Null` is the null node, `ClSymbol` the variable `cl` that heads
   * every veriT clause, and `App` an operator applied to its children.
   */
  datatype Term =
    | Null
    | BoolConst(b: bool)
    | RatConst(q: int)
    | BvConst(width: nat, bits: nat)
    | Var(name: nat)
    | ClSymbol
    | App(op: Kind, args: seq<Term>)

  function KindOf(t: Term): (k: Kind)
    ensures t.App? ==> k == t.op
  {
    match t
    case Null => NULL_EXPR
    case BoolConst(_) => CONST_BOOLEAN
    case RatConst(_) => CONST_RATIONAL
    case BvConst(_, _) => CONST_BITVECTOR
    case Var(_) => VARIABLE
    case ClSymbol => BOUND_VARIABLE
    case App(op, _) => op
  }

  /** The children of a node; leaves have none. */
  function Children(t: Term): seq<Term>
  {
    if t.App? then t.args else []
  }

  /** `n.notNode()`: wraps a node in NOT, without simplifying. */
  function Not(t: Term): (r: Term)
    ensures KindOf(r) == NOT && Children(r) == [t]
  {
    App(NOT, [t])
  }

  /** The negations of the given nodes, in order. */
  function NegateAll(ts: seq<Term>): (r: seq<Term>)
    ensures |r| == |ts| && forall i :: 0 <= i < |ts| ==> r[i] == Not(ts[i])
  {
    seq(|ts|, i requires 0 <= i < |ts| => Not(ts[i]))
  }

  const True: Term := BoolConst(true)
  const False: Term := BoolConst(false)

  /** `(cl l1 ... ln)`: an SEXPR headed by the `cl` symbol. */
  function Cl(lits: seq<Term>): (r: Term)
    ensures KindOf(r) == SEXPR && Children(r) == [ClSymbol] + lits
  {
    App(SEXPR, [ClSymbol] + lits)
  }

  /** The literals of a `(cl ...)` node: its children after the `cl` symbol. */
  function ClLits(t: Term): seq<Term>
  {
    if t.App? && |t.args| >= 1 then t.args[1..] else []
  }

  lemma ClLitsOfCl(lits: seq<Term>)
    ensures ClLits(Cl(lits)) == lits
  {
  }

  /**
   * Truth value of a node under a valuation of its atoms: NOT, OR and AND
   * are interpreted, the constants are themselves, everything else is an
   * atom, true exactly when it is in `val`.
   */
  function Eval(t: Term, val: iset<Term>): bool
    decreases t
  {
    match t
    case BoolConst(b) => b
    case App(op, xs) =>
      if op == NOT && |xs| == 1 then !Eval(xs[0], val)
      else if op == OR then exists i :: 0 <= i < |xs| && Eval(xs[i], val)
      else if op == AND then forall i :: 0 <= i < |xs| ==> Eval(xs[i], val)
      else t in val
    case _ => t in val
  }

  /** A clause (a sequence of literals) holds when one of its literals does. */
  predicate SatClause(lits: seq<Term>, val: iset<Term>)
  {
    exists i :: 0 <= i < |lits| && Eval(lits[i], val)
  }

  lemma EvalNot(t: Term, val: iset<Term>)
    ensures Eval(Not(t), val) == !Eval(t, val)
  {
  }

  lemma EvalOr(xs: seq<Term>, val: iset<Term>)
    ensures Eval(App(OR, xs), val) == SatClause(xs, val)
  {
  }

  lemma MultisetDiffDiff<T>(a: multiset<T>, b: multiset<T>, c: multiset<T>)
    ensures (a - b) - c == a - (b + c)
  {
  }

  lemma MultisetAddDiff<T>(a: multiset<T>, b: multiset<T>)
    ensures (a + b) - b == a && b - b == multiset{}
  {
  }

  /** The prefix of length `i` of a prefix one longer is the prefix of length `i`. */
  lemma PrefixSnoc<T>(s: seq<T>, i: nat)
    requires i < |s|
    ensures s[..i + 1][..i] == s[..i] && s[..i + 1][i] == s[i]
  {
  }

  // ------------------------------------------------------------------
  // Sorting by a numeric key (the node id order `std::sort` uses on nodes)

  predicate SortedByKey(s: seq<Term>, key: Term -> nat)
  {
    forall i, j :: 0 <= i < j < |s| ==> key(s[i]) <= key(s[j])
  }

  function InsertByKey(x: Term, s: seq<Term>, key: Term -> nat): (r: seq<Term>)
    requires SortedByKey(s, key)
    ensures SortedByKey(r, key)
    ensures multiset(r) == multiset(s) + multiset{x}
    ensures |r| == |s| + 1
    decreases |s|
  {
    if |s| == 0 then [x]
    else if key(x) <= key(s[0]) then [x] + s
    else
      var rest := InsertByKey(x, s[1..], key);
      InsertBehindHead(x, s, rest, key);
      [s[0]] + rest
  }

  /** Putting the head of `s` back in front of the insertion into its tail keeps the order and the contents. */
  lemma InsertBehindHead(x: Term, s: seq<Term>, rest: seq<Term>, key: Term -> nat)
    requires |s| > 0 && SortedByKey(s, key) && key(s[0]) < key(x)
    requires SortedByKey(rest, key) && multiset(rest) == multiset(s[1..]) + multiset{x}
    ensures SortedByKey([s[0]] + rest, key)
    ensures multiset([s[0]] + rest) == multiset(s) + multiset{x}
  {
    assert s == [s[0]] + s[1..];
    forall i | 0 <= i < |rest|
      ensures key(s[0]) <= key(rest[i])
    {
      assert rest[i] in multiset(rest);
      if rest[i] != x {
        assert rest[i] in multiset(s[1..]);
        var j :| 1 <= j < |s| && s[j] == rest[i];
      }
    }
  }

  /** Insertion sort by `key`: sorted and a permutation of its input. */
  function SortByKey(s: seq<Term>, key: Term -> nat): (r: seq<Term>)
    ensures SortedByKey(r, key)
    ensures multiset(r) == multiset(s)
    ensures |r| == |s|
    decreases |s|
  {
    if |s| == 0 then []
    else
      assert s == s[..|s| - 1] + [s[|s| - 1]];
      InsertByKey(s[|s| - 1], SortByKey(s[..|s| - 1], key), key)
  }
}
