/**
 Finding severities and the two orders the catalog builder puts on them: the comparison
 operators of the `Severity` enum (least severe first), and the list `SEVERITY_ORDER`
 (most severe first) by whose index findings are sorted.
 */
module Severities {

  datatype Severity = Critical | High | Medium | Low | Info

  /** `SEVERITY_ORDER`: most severe first. */
  const SeverityOrder: seq<Severity> := [Critical, High, Medium, Low, Info]

  /** The list `__lt__` searches: least severe first. */
  const AscendingOrder: seq<Severity> := [Info, Low, Medium, High, Critical]

  /** `SEVERITY_ORDER.index(s)`. */
  function Rank(s: Severity): (r: nat)
    ensures r < |SeverityOrder| && SeverityOrder[r] == s
  {
    match s
    case Critical => 0
    case High => 1
    case Medium => 2
    case Low => 3
    case Info => 4
  }

  /** The index of `s` in the list `__lt__` builds. */
  function AscendingIndex(s: Severity): (r: nat)
    ensures r < |AscendingOrder| && AscendingOrder[r] == s
  {
    match s
    case Info => 0
    case Low => 1
    case Medium => 2
    case High => 3
    case Critical => 4
  }

  /** `a < b`: `a` comes earlier than `b` in the least-severe-first list. */
  predicate Less(a: Severity, b: Severity) {
    AscendingIndex(a) < AscendingIndex(b)
  }

  /** `a >= b`, defined by the source as the negation of `a < b`. */
  predicate AtLeast(a: Severity, b: Severity) {
    !Less(a, b)
  }

  /** The enum's `<` is exactly the reverse of the `SEVERITY_ORDER` index order. */
  lemma LessIsReverseRank(a: Severity, b: Severity)
    ensures Less(a, b) <==> Rank(b) < Rank(a)
    ensures AtLeast(a, b) <==> Rank(a) <= Rank(b)
  {
  }

  /** `<` is a strict total order on severities, so `>=` is its reflexive complement. */
  lemma LessIsStrictTotalOrder(a: Severity, b: Severity, c: Severity)
    ensures !Less(a, a)
    ensures Less(a, b) ==> !Less(b, a)
    ensures Less(a, b) && Less(b, c) ==> Less(a, c)
    ensures a != b ==> Less(a, b) || Less(b, a)
    ensures AtLeast(a, a)
  {
  }

  /** Every severity sits at exactly one position of `SEVERITY_ORDER`. */
  lemma RankInjective(a: Severity, b: Severity)
    ensures Rank(a) == Rank(b) <==> a == b
  {
  }
}
