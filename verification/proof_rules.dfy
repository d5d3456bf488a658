/**
 * The internal proof rules (the PfRule enumeration) and the shape of a
 * proof step recorded in a proof store: rule, premises and arguments.
 */
module ProofRules {
  import opened Terms

  /**
   * A proof rule, as the number of its enumerator. The rules the modelled
   * code distinguishes are named below, numbered in the order they are
   * listed; every other number stands for some other rule.
   */
  type PfRule = nat

  const ASSUME: PfRule := 0
  const SCOPE: PfRule := 1
  const UNKNOWN: PfRule := 2
  const REFL: PfRule := 3
  const SYMM: PfRule := 4
  const TRANS: PfRule := 5
  const CONG: PfRule := 6
  const TRUE_INTRO: PfRule := 7
  const TRUE_ELIM: PfRule := 8
  const FALSE_INTRO: PfRule := 9
  const FALSE_ELIM: PfRule := 10
  const THEORY_REWRITE: PfRule := 11
  const INSTANTIATE: PfRule := 12
  const SKOLEMIZE: PfRule := 13
  const EXISTS_INTRO: PfRule := 14
  const WITNESS_INTRO: PfRule := 15
  const RESOLUTION: PfRule := 16
  const CHAIN_RESOLUTION: PfRule := 17
  const FACTORING: PfRule := 18
  const REORDERING: PfRule := 19
  const SPLIT: PfRule := 20
  const EQ_RESOLVE: PfRule := 21
  const MODUS_PONENS: PfRule := 22
  const NOT_NOT_ELIM: PfRule := 23
  const CONTRA: PfRule := 24
  const AND_ELIM: PfRule := 25
  const AND_INTRO: PfRule := 26
  const NOT_OR_ELIM: PfRule := 27
  const IMPLIES_ELIM: PfRule := 28
  const NOT_IMPLIES_ELIM1: PfRule := 29
  const NOT_IMPLIES_ELIM2: PfRule := 30
  const EQUIV_ELIM1: PfRule := 31
  const EQUIV_ELIM2: PfRule := 32
  const NOT_EQUIV_ELIM1: PfRule := 33
  const NOT_EQUIV_ELIM2: PfRule := 34
  const XOR_ELIM1: PfRule := 35
  const XOR_ELIM2: PfRule := 36
  const NOT_XOR_ELIM1: PfRule := 37
  const NOT_XOR_ELIM2: PfRule := 38
  const ITE_ELIM1: PfRule := 39
  const ITE_ELIM2: PfRule := 40
  const NOT_ITE_ELIM1: PfRule := 41
  const NOT_ITE_ELIM2: PfRule := 42
  const NOT_AND: PfRule := 43
  const CNF_AND_POS: PfRule := 44
  const CNF_AND_NEG: PfRule := 45
  const CNF_OR_POS: PfRule := 46
  const CNF_OR_NEG: PfRule := 47
  const CNF_IMPLIES_POS: PfRule := 48
  const CNF_IMPLIES_NEG1: PfRule := 49
  const CNF_IMPLIES_NEG2: PfRule := 50
  const CNF_EQUIV_POS1: PfRule := 51
  const CNF_EQUIV_POS2: PfRule := 52
  const CNF_EQUIV_NEG1: PfRule := 53
  const CNF_EQUIV_NEG2: PfRule := 54
  const CNF_XOR_POS1: PfRule := 55
  const CNF_XOR_POS2: PfRule := 56
  const CNF_XOR_NEG1: PfRule := 57
  const CNF_XOR_NEG2: PfRule := 58
  const CNF_ITE_POS1: PfRule := 59
  const CNF_ITE_POS2: PfRule := 60
  const CNF_ITE_POS3: PfRule := 61
  const CNF_ITE_NEG1: PfRule := 62
  const CNF_ITE_NEG2: PfRule := 63
  const CNF_ITE_NEG3: PfRule := 64
  const ARITH_SCALE_SUM_UPPER_BOUNDS: PfRule := 65
  const ARITH_TRICHOTOMY: PfRule := 66
  const VERIT_RULE: PfRule := 67
  const LEAN_RULE: PfRule := 68

  /** A proof step: the rule that concludes a fact from premises and arguments. */
  datatype ProofStep = ProofStep(rule: PfRule, children: seq<Term>, args: seq<Term>)
}
