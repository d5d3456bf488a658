/**
 * The rules of the veriT proof format that the translation emits, the
 * theory identifiers a THEORY_REWRITE step carries, and the table that
 * guesses a veriT simplification rule for a theory rewrite.
 */
module VeritRules {
  import opened Terms

  /**
   * A veriT rule, as the number of its enumerator; the number is what a
   * translated step carries as its first argument. The rules the
   * translation distinguishes are named below, numbered in the order they
   * are listed.
   */
  type VeritRule = nat

  const UNDEFINED: VeritRule := 0
  const ASSUME: VeritRule := 1
  const ANCHOR_SUBPROOF: VeritRule := 2
  const RESOLUTION: VeritRule := 3
  const REORDER: VeritRule := 4
  const DUPLICATED_LITERALS: VeritRule := 5
  const OR: VeritRule := 6
  const AND: VeritRule := 7
  const NOT_OR: VeritRule := 8
  const NOT_AND: VeritRule := 9
  const IMPLIES: VeritRule := 10
  const NOT_IMPLIES1: VeritRule := 11
  const NOT_IMPLIES2: VeritRule := 12
  const EQUIV1: VeritRule := 13
  const EQUIV2: VeritRule := 14
  const NOT_EQUIV1: VeritRule := 15
  const NOT_EQUIV2: VeritRule := 16
  const XOR1: VeritRule := 17
  const XOR2: VeritRule := 18
  const NOT_XOR1: VeritRule := 19
  const NOT_XOR2: VeritRule := 20
  const ITE1: VeritRule := 21
  const ITE2: VeritRule := 22
  const NOT_ITE1: VeritRule := 23
  const NOT_ITE2: VeritRule := 24
  const AND_POS: VeritRule := 25
  const AND_NEG: VeritRule := 26
  const OR_POS: VeritRule := 27
  const OR_NEG: VeritRule := 28
  const IMPLIES_POS: VeritRule := 29
  const IMPLIES_NEG1: VeritRule := 30
  const IMPLIES_NEG2: VeritRule := 31
  const EQUIV_POS1: VeritRule := 32
  const EQUIV_POS2: VeritRule := 33
  const EQUIV_NEG1: VeritRule := 34
  const EQUIV_NEG2: VeritRule := 35
  const XOR_POS1: VeritRule := 36
  const XOR_POS2: VeritRule := 37
  const XOR_NEG1: VeritRule := 38
  const XOR_NEG2: VeritRule := 39
  const ITE_POS1: VeritRule := 40
  const ITE_POS2: VeritRule := 41
  const ITE_NEG1: VeritRule := 42
  const ITE_NEG2: VeritRule := 43
  const NOT_NOT: VeritRule := 44
  const EQ_RESOLUTION: VeritRule := 45
  const REFL: VeritRule := 46
  const TRANS: VeritRule := 47
  const CONG: VeritRule := 48
  const SYMM: VeritRule := 49
  const FORALL_INST: VeritRule := 50
  const FALSE: VeritRule := 51
  const LA_GENERIC: VeritRule := 52
  const ITE_SIMPLIFY: VeritRule := 53
  const EQ_SIMPLIFY: VeritRule := 54
  const AND_SIMPLIFY: VeritRule := 55
  const OR_SIMPLIFY: VeritRule := 56
  const NOT_SIMPLIFY: VeritRule := 57
  const IMPLIES_SIMPLIFY: VeritRule := 58
  const EQUIV_SIMPLIFY: VeritRule := 59
  const BOOL_SIMPLIFY: VeritRule := 60
  const QUANTIFIER_SIMPLIFY: VeritRule := 61
  const DIV_SIMPLIFY: VeritRule := 62
  const PROD_SIMPLIFY: VeritRule := 63
  const UNARY_MINUS_SIMPLIFY: VeritRule := 64
  const MINUS_SIMPLIFY: VeritRule := 65
  const COMP_SIMPLIFY: VeritRule := 66

  /** Theory identifiers, numbered in the order of the TheoryId enumeration. */
  type TheoryId = nat

  const THEORY_BUILTIN: TheoryId := 0
  const THEORY_BOOL: TheoryId := 1
  const THEORY_UF: TheoryId := 2
  const THEORY_ARITH: TheoryId := 3
  const THEORY_BV: TheoryId := 4
  const THEORY_FP: TheoryId := 5
  const THEORY_ARRAYS: TheoryId := 6
  const THEORY_DATATYPES: TheoryId := 7
  const THEORY_SEP: TheoryId := 8
  const THEORY_SETS: TheoryId := 9
  const THEORY_BAGS: TheoryId := 10
  const THEORY_STRINGS: TheoryId := 11
  const THEORY_QUANTIFIERS: TheoryId := 12
  const THEORY_LAST: TheoryId := 13

  /** The arithmetic comparisons, which all rewrite by COMP_SIMPLIFY. */
  predicate IsComparison(k: Kind)
  {
    k == EQUAL || k == LT || k == GT || k == GEQ || k == LEQ
  }

  /**
   * The (theory, kind of the rewritten term) pairs the table knows a
   * simplification rule for: the Boolean connectives and ITE of the
   * builtin theory, everything in the Boolean and quantifier theories,
   * equalities of UF, and the arithmetic operators and comparisons.
   */
  predicate Mapped(tid: TheoryId, k: Kind)
  {
    (tid == THEORY_BUILTIN && k in {ITE, EQUAL, Kind.AND, Kind.OR, NOT, Kind.IMPLIES})
    || tid == THEORY_BOOL
    || (tid == THEORY_UF && k == EQUAL)
    || (tid == THEORY_ARITH && (k in {DIVISION, PRODUCT, MINUS, UMINUS, PLUS, MULT} || IsComparison(k)))
    || tid == THEORY_QUANTIFIERS
  }

  /**
   * The veriT rule a THEORY_REWRITE step of theory `tid` is translated to,
   * when the left-hand side of the rewritten equality has kind `k`. Every
   * pair gets a rule; the pairs the table does not know get UNDEFINED.
   */
  function TheoryRewriteRule(tid: TheoryId, k: Kind): (r: VeritRule)
    ensures r != UNDEFINED <==> Mapped(tid, k)
    ensures tid == THEORY_ARITH && IsComparison(k) ==> r == COMP_SIMPLIFY
    ensures tid == THEORY_BOOL ==> r == BOOL_SIMPLIFY
    ensures tid == THEORY_QUANTIFIERS ==> r == QUANTIFIER_SIMPLIFY
    ensures r in {UNDEFINED, ITE_SIMPLIFY, EQ_SIMPLIFY, AND_SIMPLIFY, OR_SIMPLIFY, NOT_SIMPLIFY,
                  IMPLIES_SIMPLIFY, EQUIV_SIMPLIFY, BOOL_SIMPLIFY, QUANTIFIER_SIMPLIFY,
                  DIV_SIMPLIFY, PROD_SIMPLIFY, UNARY_MINUS_SIMPLIFY, MINUS_SIMPLIFY, COMP_SIMPLIFY}
  {
    if tid == THEORY_BUILTIN then
      if k == ITE then ITE_SIMPLIFY
      else if k == EQUAL then EQ_SIMPLIFY
      else if k == Kind.AND then AND_SIMPLIFY
      else if k == Kind.OR then OR_SIMPLIFY
      else if k == NOT then NOT_SIMPLIFY
      else if k == Kind.IMPLIES then IMPLIES_SIMPLIFY
      else UNDEFINED
    else if tid == THEORY_BOOL then BOOL_SIMPLIFY
    else if tid == THEORY_UF then
      if k == EQUAL then EQUIV_SIMPLIFY else UNDEFINED
    else if tid == THEORY_ARITH then
      if k == DIVISION then DIV_SIMPLIFY
      else if k == PRODUCT then PROD_SIMPLIFY
      else if k == MINUS then MINUS_SIMPLIFY
      else if k == UMINUS then UNARY_MINUS_SIMPLIFY
      else if k == PLUS then NOT_SIMPLIFY
      else if k == MULT then PROD_SIMPLIFY
      else if IsComparison(k) then COMP_SIMPLIFY
      else UNDEFINED
    else if tid == THEORY_QUANTIFIERS then QUANTIFIER_SIMPLIFY
    else UNDEFINED
  }
}
