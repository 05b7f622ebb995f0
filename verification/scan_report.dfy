/**
 What `scan_skill_dir` does with the raw findings once every file has been matched against
 every rule: drop repeated `(rule_id, file, line)` keys keeping the first, sort stably by
 `SEVERITY_ORDER`, derive the overall risk from the most severe finding, and count findings
 per severity.
 */
module ScanReport {
  import opened Wrappers
  import opened Severities

  /** One detected issue: a rule that matched one line of one file. */
  datatype Finding = Finding(
    ruleId: string,
    severity: Severity,
    category: string,
    title: string,
    description: string,
    file: string,
    line: int,
    evidence: string,
    recommendation: string)

  /** The identity deduplication uses. */
  datatype FindingKey = FindingKey(ruleId: string, file: string, line: int)

  function KeyOf(f: Finding): FindingKey {
    FindingKey(f.ruleId, f.file, f.line)
  }

  /** The risk level a report (and a catalog row) carries. */
  datatype RiskLevel = RiskCritical | RiskHigh | RiskMedium | RiskLow | Clean | Unknown

  /** The risk level named after a severity; INFO alone makes a skill CLEAN. */
  function RiskOf(s: Severity): (r: RiskLevel)
    ensures r != Unknown
    ensures r == Clean <==> s == Info
  {
    match s
    case Critical => RiskCritical
    case High => RiskHigh
    case Medium => RiskMedium
    case Low => RiskLow
    case Info => Clean
  }

  /** Position of a risk level in the most-severe-first order, aligned with `Rank`. */
  function RiskRank(r: RiskLevel): (n: nat)
    ensures r != Unknown ==> n <= 4
  {
    match r
    case RiskCritical => 0
    case RiskHigh => 1
    case RiskMedium => 2
    case RiskLow => 3
    case Clean => 4
    case Unknown => 5
  }

  lemma RiskRankOfSeverity(s: Severity)
    ensures RiskRank(RiskOf(s)) == Rank(s)
  {
  }

  // ---------------------------------------------------------------------------
  // Deduplication
  // ---------------------------------------------------------------------------

  /** The set of keys occurring in `fs`. */
  function Keys(fs: seq<Finding>): set<FindingKey>
    decreases |fs|
  {
    if fs == [] then {} else Keys(fs[..|fs| - 1]) + {KeyOf(fs[|fs| - 1])}
  }

  /** A key is in `Keys(fs)` exactly when some finding of `fs` carries it. */
  lemma {:induction false} KeysMembership(fs: seq<Finding>, k: FindingKey)
    ensures k in Keys(fs) <==> exists i :: 0 <= i < |fs| && KeyOf(fs[i]) == k
    decreases |fs|
  {
    if fs != [] {
      var init := fs[..|fs| - 1];
      KeysMembership(init, k);
      if k in Keys(init) {
        var i :| 0 <= i < |init| && KeyOf(init[i]) == k;
        assert KeyOf(fs[i]) == k;
      }
      if i :| 0 <= i < |fs| && KeyOf(fs[i]) == k {
        if i < |fs| - 1 {
          assert KeyOf(init[i]) == k;
        }
      }
    }
  }

  lemma KeysContainsEach(fs: seq<Finding>)
    ensures forall i :: 0 <= i < |fs| ==> KeyOf(fs[i]) in Keys(fs)
  {
    forall i | 0 <= i < |fs| ensures KeyOf(fs[i]) in Keys(fs) {
      KeysMembership(fs, KeyOf(fs[i]));
    }
  }

  /** The index of the first finding of `fs` whose key is `k`. */
  function FirstIndex(fs: seq<Finding>, k: FindingKey): (i: nat)
    requires k in Keys(fs)
    ensures i < |fs| && KeyOf(fs[i]) == k
    ensures forall j :: 0 <= j < i ==> KeyOf(fs[j]) != k
    decreases |fs|
  {
    var init := fs[..|fs| - 1];
    if k in Keys(init) then
      var i := FirstIndex(init, k);
      assert KeyOf(fs[i]) == KeyOf(init[i]);
      assert forall j :: 0 <= j < i ==> fs[j] == init[j];
      i
    else
      KeysContainsEach(init);
      assert forall j :: 0 <= j < |init| ==> fs[j] == init[j];
      |fs| - 1
  }

  /** No two findings of `fs` share a key. */
  predicate DistinctKeys(fs: seq<Finding>) {
    forall i, j :: 0 <= i < j < |fs| ==> KeyOf(fs[i]) != KeyOf(fs[j])
  }

  /** Reference definition of the deduplicated list, one finding appended at a time. */
  function FirstOccurrences(fs: seq<Finding>): seq<Finding>
    decreases |fs|
  {
    if fs == [] then []
    else
      var init := fs[..|fs| - 1];
      var f := fs[|fs| - 1];
      if KeyOf(f) in Keys(init) then FirstOccurrences(init) else FirstOccurrences(init) + [f]
  }

  /** The deduplicated list has one finding per key, and every key of the input survives. */
  lemma {:induction false} FirstOccurrencesKeys(fs: seq<Finding>)
    ensures DistinctKeys(FirstOccurrences(fs))
    ensures Keys(FirstOccurrences(fs)) == Keys(fs)
    decreases |fs|
  {
    if fs != [] {
      var init := fs[..|fs| - 1];
      var f := fs[|fs| - 1];
      var p := FirstOccurrences(init);
      FirstOccurrencesKeys(init);
      if KeyOf(f) !in Keys(init) {
        var r := p + [f];
        assert r[..|r| - 1] == p;
        KeysContainsEach(p);
        forall a | 0 <= a < |p| ensures KeyOf(r[a]) != KeyOf(f) {
          assert r[a] == p[a];
        }
      }
    }
  }

  /** Each kept finding is the first occurrence of its key. */
  lemma {:induction false} FirstOccurrencesAreFirst(fs: seq<Finding>)
    ensures forall a :: 0 <= a < |FirstOccurrences(fs)| ==>
      KeyOf(FirstOccurrences(fs)[a]) in Keys(fs) &&
      FirstOccurrences(fs)[a] == fs[FirstIndex(fs, KeyOf(FirstOccurrences(fs)[a]))]
    decreases |fs|
  {
    if fs != [] {
      var init := fs[..|fs| - 1];
      var f := fs[|fs| - 1];
      var p := FirstOccurrences(init);
      FirstOccurrencesAreFirst(init);
      assert Keys(fs) == Keys(init) + {KeyOf(f)};
      if KeyOf(f) !in Keys(init) {
        var r := p + [f];
        assert FirstIndex(fs, KeyOf(f)) == |fs| - 1;
        forall a | 0 <= a < |r|
          ensures KeyOf(r[a]) in Keys(fs) && r[a] == fs[FirstIndex(fs, KeyOf(r[a]))]
        {
          if a < |p| {
            assert r[a] == p[a];
            var k := KeyOf(p[a]);
            assert k in Keys(init);
            assert FirstIndex(fs, k) == FirstIndex(init, k);
            assert fs[FirstIndex(init, k)] == init[FirstIndex(init, k)];
          }
        }
        assert FirstOccurrences(fs) == r;
      } else {
        forall a | 0 <= a < |p|
          ensures KeyOf(p[a]) in Keys(fs) && p[a] == fs[FirstIndex(fs, KeyOf(p[a]))]
        {
          var k := KeyOf(p[a]);
          assert k in Keys(init);
          assert FirstIndex(fs, k) == FirstIndex(init, k);
          assert fs[FirstIndex(init, k)] == init[FirstIndex(init, k)];
        }
      }
    }
  }

  /** The kept findings are in the order of their keys' first occurrences. */
  lemma {:induction false} FirstOccurrencesOrdered(fs: seq<Finding>)
    ensures forall a, b :: 0 <= a < b < |FirstOccurrences(fs)| ==>
      KeyOf(FirstOccurrences(fs)[a]) in Keys(fs) && KeyOf(FirstOccurrences(fs)[b]) in Keys(fs) &&
      FirstIndex(fs, KeyOf(FirstOccurrences(fs)[a])) < FirstIndex(fs, KeyOf(FirstOccurrences(fs)[b]))
    decreases |fs|
  {
    if fs == [] {
      assert FirstOccurrences(fs) == [];
    } else {
      var init := fs[..|fs| - 1];
      var f := fs[|fs| - 1];
      var p := FirstOccurrences(init);
      FirstOccurrencesOrdered(init);
      FirstOccurrencesAreFirst(init);
      assert Keys(fs) == Keys(init) + {KeyOf(f)};
      var r := FirstOccurrences(fs);
      forall a, b | 0 <= a < b < |r|
        ensures KeyOf(r[a]) in Keys(fs) && KeyOf(r[b]) in Keys(fs) &&
                FirstIndex(fs, KeyOf(r[a])) < FirstIndex(fs, KeyOf(r[b]))
      {
        assert r[a] == p[a];
        var ka := KeyOf(p[a]);
        assert ka in Keys(init);
        assert FirstIndex(fs, ka) == FirstIndex(init, ka);
        if b < |p| {
          assert r[b] == p[b];
          var kb := KeyOf(p[b]);
          assert kb in Keys(init);
          assert FirstIndex(fs, kb) == FirstIndex(init, kb);
        } else {
          assert r[b] == f && KeyOf(f) !in Keys(init);
          assert FirstIndex(fs, KeyOf(f)) == |fs| - 1;
        }
      }
    }
  }

  /** Keeping one key per finding loses as many findings as there are repeated keys. */
  lemma {:induction false} DistinctKeysCount(fs: seq<Finding>)
    requires DistinctKeys(fs)
    ensures |Keys(fs)| == |fs|
    decreases |fs|
  {
    if fs != [] {
      var init := fs[..|fs| - 1];
      DistinctKeysCount(init);
      KeysMembership(init, KeyOf(fs[|fs| - 1]));
    }
  }

  /** When no key repeats, deduplication keeps the list as it is. */
  lemma {:induction false} FirstOccurrencesOfDistinct(fs: seq<Finding>)
    requires DistinctKeys(fs)
    ensures FirstOccurrences(fs) == fs
    decreases |fs|
  {
    if fs != [] {
      var init := fs[..|fs| - 1];
      assert DistinctKeys(init);
      FirstOccurrencesOfDistinct(init);
      KeysMembership(init, KeyOf(fs[|fs| - 1]));
      assert fs == init + [fs[|fs| - 1]];
    }
  }

  /** Two lists with distinct keys and no key in common concatenate to one with distinct keys. */
  lemma DistinctKeysConcat(a: seq<Finding>, b: seq<Finding>)
    requires DistinctKeys(a) && DistinctKeys(b)
    requires forall i, j :: 0 <= i < |a| && 0 <= j < |b| ==> KeyOf(a[i]) != KeyOf(b[j])
    ensures DistinctKeys(a + b)
  {
    var ab := a + b;
    forall i, j | 0 <= i < j < |ab| ensures KeyOf(ab[i]) != KeyOf(ab[j]) {
      if j < |a| {
        assert ab[i] == a[i] && ab[j] == a[j];
      } else if i >= |a| {
        assert ab[i] == b[i - |a|] && ab[j] == b[j - |a|];
      } else {
        assert ab[i] == a[i] && ab[j] == b[j - |a|];
      }
    }
  }

  /**
   The deduplication loop of `scan_skill_dir`: a finding is kept when its key has not been
   seen, so each key keeps its first finding and those keep their input order.
   */
  method Deduplicate(fs: seq<Finding>) returns (unique: seq<Finding>)
    ensures unique == FirstOccurrences(fs)
    ensures DistinctKeys(unique) && Keys(unique) == Keys(fs) && |unique| == |Keys(fs)|
    ensures forall a :: 0 <= a < |unique| ==>
              KeyOf(unique[a]) in Keys(fs) && unique[a] == fs[FirstIndex(fs, KeyOf(unique[a]))]
    ensures forall a, b :: 0 <= a < b < |unique| ==>
              KeyOf(unique[a]) in Keys(fs) && KeyOf(unique[b]) in Keys(fs) &&
              FirstIndex(fs, KeyOf(unique[a])) < FirstIndex(fs, KeyOf(unique[b]))
  {
    var seen: set<FindingKey> := {};
    unique := [];
    for i := 0 to |fs|
      invariant seen == Keys(fs[..i])
      invariant unique == FirstOccurrences(fs[..i])
    {
      assert fs[..i + 1][..i] == fs[..i];
      var key := KeyOf(fs[i]);
      if key !in seen {
        seen := seen + {key};
        unique := unique + [fs[i]];
      }
    }
    assert fs[..|fs|] == fs;
    FirstOccurrencesKeys(fs);
    FirstOccurrencesAreFirst(fs);
    FirstOccurrencesOrdered(fs);
    DistinctKeysCount(unique);
  }

  // ---------------------------------------------------------------------------
  // Stable sort by SEVERITY_ORDER index
  // ---------------------------------------------------------------------------

  /** Non-decreasing in `SEVERITY_ORDER` index: most severe first. */
  predicate SortedBySeverity(fs: seq<Finding>) {
    forall i, j :: 0 <= i < j < |fs| ==> Rank(fs[i].severity) <= Rank(fs[j].severity)
  }

  /** The findings of `fs` with severity `s`, in their order in `fs`. */
  function Only(fs: seq<Finding>, s: Severity): seq<Finding>
    decreases |fs|
  {
    if fs == [] then []
    else if fs[0].severity == s then [fs[0]] + Only(fs[1..], s)
    else Only(fs[1..], s)
  }

  lemma OnlyConsSame(f: Finding, fs: seq<Finding>)
    ensures Only([f] + fs, f.severity) == [f] + Only(fs, f.severity)
  {
    assert ([f] + fs)[1..] == fs;
  }

  lemma OnlyConsOther(f: Finding, fs: seq<Finding>, s: Severity)
    requires f.severity != s
    ensures Only([f] + fs, s) == Only(fs, s)
  {
    assert ([f] + fs)[1..] == fs;
  }

  lemma {:induction false} OnlyConcat(a: seq<Finding>, b: seq<Finding>, s: Severity)
    ensures Only(a + b, s) == Only(a, s) + Only(b, s)
    decreases |a|
  {
    if a == [] {
      assert a + b == b;
    } else {
      OnlyConcat(a[1..], b, s);
      assert a + b == [a[0]] + (a[1..] + b);
      assert a == [a[0]] + a[1..];
      if a[0].severity == s {
        OnlyConsSame(a[0], a[1..] + b);
        OnlyConsSame(a[0], a[1..]);
      } else {
        OnlyConsOther(a[0], a[1..] + b, s);
        OnlyConsOther(a[0], a[1..], s);
      }
    }
  }

  /** Appending a finding adds one to the count of its own severity only. */
  lemma OnlySnoc(fs: seq<Finding>, f: Finding, s: Severity)
    ensures |Only(fs + [f], s)| == |Only(fs, s)| + (if f.severity == s then 1 else 0)
  {
    OnlyConcat(fs, [f], s);
    assert [f] == [f] + [];
    if f.severity == s {
      OnlyConsSame(f, []);
    } else {
      OnlyConsOther(f, [], s);
    }
  }

  lemma {:induction false} OnlyAbsent(fs: seq<Finding>, s: Severity)
    requires forall i :: 0 <= i < |fs| ==> fs[i].severity != s
    ensures Only(fs, s) == []
    decreases |fs|
  {
    if fs != [] {
      OnlyAbsent(fs[1..], s);
    }
  }

  /** Insert `f` before the first finding whose severity rank is at least its own. */
  function InsertBySeverity(f: Finding, fs: seq<Finding>): seq<Finding>
    decreases |fs|
  {
    if fs == [] then [f]
    else if Rank(fs[0].severity) >= Rank(f.severity) then [f] + fs
    else [fs[0]] + InsertBySeverity(f, fs[1..])
  }

  /** Inserting adds `f` and nothing else: the result is a permutation of `fs` with `f`. */
  lemma {:induction false} InsertPermutation(f: Finding, fs: seq<Finding>)
    ensures multiset(InsertBySeverity(f, fs)) == multiset(fs) + multiset{f}
    ensures |InsertBySeverity(f, fs)| == |fs| + 1
    decreases |fs|
  {
    if fs != [] && Rank(fs[0].severity) < Rank(f.severity) {
      InsertPermutation(f, fs[1..]);
      assert fs == [fs[0]] + fs[1..];
    }
  }

  lemma InsertMembers(f: Finding, fs: seq<Finding>)
    ensures forall x :: x in InsertBySeverity(f, fs) <==> x == f || x in fs
  {
    var r := InsertBySeverity(f, fs);
    InsertPermutation(f, fs);
    forall x ensures x in r <==> x == f || x in fs {
      assert x in r <==> x in multiset(r);
      assert x in fs <==> x in multiset(fs);
    }
  }

  /** Inserting into a severity-ordered list keeps it ordered. */
  lemma {:induction false} InsertSorted(f: Finding, fs: seq<Finding>)
    requires SortedBySeverity(fs)
    ensures SortedBySeverity(InsertBySeverity(f, fs))
    decreases |fs|
  {
    if fs != [] && Rank(fs[0].severity) < Rank(f.severity) {
      var rest := InsertBySeverity(f, fs[1..]);
      var r := [fs[0]] + rest;
      assert InsertBySeverity(f, fs) == r;
      InsertSorted(f, fs[1..]);
      InsertMembers(f, fs[1..]);
      forall j | 1 <= j < |r|
        ensures Rank(r[0].severity) <= Rank(r[j].severity)
      {
        assert r[j] == rest[j - 1];
        assert r[j] in rest;
        if r[j] != f {
          var k :| 0 <= k < |fs[1..]| && fs[1..][k] == r[j];
          assert fs[k + 1] == r[j];
        }
      }
    }
  }

  /** Inserting `f` puts it at the head of its own severity's findings. */
  lemma {:induction false} InsertOnlySame(f: Finding, fs: seq<Finding>)
    ensures Only(InsertBySeverity(f, fs), f.severity) == [f] + Only(fs, f.severity)
    decreases |fs|
  {
    if fs == [] {
      OnlyConsSame(f, []);
    } else if Rank(fs[0].severity) >= Rank(f.severity) {
      OnlyConsSame(f, fs);
    } else {
      var rest := InsertBySeverity(f, fs[1..]);
      assert InsertBySeverity(f, fs) == [fs[0]] + rest;
      assert fs == [fs[0]] + fs[1..];
      InsertOnlySame(f, fs[1..]);
      OnlyConsOther(fs[0], rest, f.severity);
      OnlyConsOther(fs[0], fs[1..], f.severity);
    }
  }

  /** Inserting `f` leaves the findings of every other severity as they were. */
  lemma {:induction false} InsertOnlyOther(f: Finding, fs: seq<Finding>, s: Severity)
    requires f.severity != s
    ensures Only(InsertBySeverity(f, fs), s) == Only(fs, s)
    decreases |fs|
  {
    if fs == [] {
      OnlyConsOther(f, [], s);
    } else if Rank(fs[0].severity) >= Rank(f.severity) {
      OnlyConsOther(f, fs, s);
    } else {
      var rest := InsertBySeverity(f, fs[1..]);
      assert InsertBySeverity(f, fs) == [fs[0]] + rest;
      assert fs == [fs[0]] + fs[1..];
      InsertOnlyOther(f, fs[1..], s);
      if fs[0].severity == s {
        OnlyConsSame(fs[0], rest);
        OnlyConsSame(fs[0], fs[1..]);
      } else {
        OnlyConsOther(fs[0], rest, s);
        OnlyConsOther(fs[0], fs[1..], s);
      }
    }
  }

  /** Inserting a finding whose key is new keeps the keys distinct. */
  lemma {:induction false} InsertDistinct(f: Finding, fs: seq<Finding>)
    requires DistinctKeys(fs)
    requires forall x :: x in fs ==> KeyOf(x) != KeyOf(f)
    ensures DistinctKeys(InsertBySeverity(f, fs))
    decreases |fs|
  {
    if fs != [] && Rank(fs[0].severity) < Rank(f.severity) {
      var rest := InsertBySeverity(f, fs[1..]);
      var r := [fs[0]] + rest;
      assert InsertBySeverity(f, fs) == r;
      InsertDistinct(f, fs[1..]);
      InsertMembers(f, fs[1..]);
      forall i, j | 0 <= i < j < |r|
        ensures KeyOf(r[i]) != KeyOf(r[j])
      {
        assert r[j] == rest[j - 1];
        if i > 0 {
          assert r[i] == rest[i - 1];
        } else {
          assert r[j] in rest;
          if r[j] != f {
            var k :| 0 <= k < |fs[1..]| && fs[1..][k] == r[j];
            assert fs[k + 1] == r[j];
          }
        }
      }
    }
  }

  /**
   `unique.sort(key=lambda f: SEVERITY_ORDER.index(f.severity))`, written as an insertion
   sort from the back of the list.
   */
  function SortBySeverity(fs: seq<Finding>): seq<Finding>
    decreases |fs|
  {
    if fs == [] then [] else InsertBySeverity(fs[0], SortBySeverity(fs[1..]))
  }

  /** The sort orders the findings most severe first and is a permutation of its input. */
  lemma {:induction false} SortSpec(fs: seq<Finding>)
    ensures SortedBySeverity(SortBySeverity(fs))
    ensures multiset(SortBySeverity(fs)) == multiset(fs) && |SortBySeverity(fs)| == |fs|
    decreases |fs|
  {
    if fs != [] {
      var rest := SortBySeverity(fs[1..]);
      SortSpec(fs[1..]);
      InsertSorted(fs[0], rest);
      InsertPermutation(fs[0], rest);
      assert fs == [fs[0]] + fs[1..];
    }
  }

  /** The sort is stable: the findings of each severity keep their input order. */
  lemma {:induction false} SortStable(fs: seq<Finding>, s: Severity)
    ensures Only(SortBySeverity(fs), s) == Only(fs, s)
    decreases |fs|
  {
    if fs != [] {
      var rest := SortBySeverity(fs[1..]);
      assert SortBySeverity(fs) == InsertBySeverity(fs[0], rest);
      assert fs == [fs[0]] + fs[1..];
      SortStable(fs[1..], s);
      if fs[0].severity == s {
        InsertOnlySame(fs[0], rest);
        OnlyConsSame(fs[0], fs[1..]);
      } else {
        InsertOnlyOther(fs[0], rest, s);
        OnlyConsOther(fs[0], fs[1..], s);
      }
    }
  }

  /** Sorting keeps the keys distinct when they were. */
  lemma {:induction false} SortDistinct(fs: seq<Finding>)
    requires DistinctKeys(fs)
    ensures DistinctKeys(SortBySeverity(fs))
    decreases |fs|
  {
    if fs != [] {
      var rest := SortBySeverity(fs[1..]);
      assert DistinctKeys(fs[1..]);
      SortDistinct(fs[1..]);
      SortSpec(fs[1..]);
      forall x | x in rest
        ensures KeyOf(x) != KeyOf(fs[0])
      {
        assert x in multiset(rest);
        assert x in fs[1..];
        var k :| 0 <= k < |fs[1..]| && fs[1..][k] == x;
        assert fs[k + 1] == x;
      }
      InsertDistinct(fs[0], rest);
    }
  }

  /** The severity buckets partition a list: every finding is counted under exactly one severity. */
  lemma {:induction false} BucketSizes(fs: seq<Finding>)
    ensures |Only(fs, Critical)| + |Only(fs, High)| + |Only(fs, Medium)| + |Only(fs, Low)| + |Only(fs, Info)| == |fs|
    decreases |fs|
  {
    if fs != [] {
      BucketSizes(fs[1..]);
      assert fs == [fs[0]] + fs[1..];
      var f := fs[0];
      OnlyConsSame(f, fs[1..]);
      forall s | s != f.severity ensures Only(fs, s) == Only(fs[1..], s) {
        OnlyConsOther(f, fs[1..], s);
      }
    }
  }

  // ---------------------------------------------------------------------------
  // Overall risk and per-severity counts
  // ---------------------------------------------------------------------------

  predicate Has(fs: seq<Finding>, s: Severity) {
    exists i :: 0 <= i < |fs| && fs[i].severity == s
  }

  /**
   `overall_risk`: the most severe of CRITICAL, HIGH, MEDIUM, LOW present, else CLEAN (no
   findings, or only INFO findings).
   */
  function OverallRisk(fs: seq<Finding>): (r: RiskLevel)
    ensures r != Unknown
    ensures r == Clean <==> forall i :: 0 <= i < |fs| ==> fs[i].severity == Info
    ensures r != Clean ==> exists i :: 0 <= i < |fs| && RiskOf(fs[i].severity) == r
    ensures forall i :: 0 <= i < |fs| ==> RiskRank(r) <= Rank(fs[i].severity)
  {
    if Has(fs, Critical) then RiskCritical
    else if Has(fs, High) then RiskHigh
    else if Has(fs, Medium) then RiskMedium
    else if Has(fs, Low) then RiskLow
    else Clean
  }

  /** On a list sorted by severity, the risk is read off its first finding. */
  lemma RiskOfSortedIsHead(fs: seq<Finding>)
    requires SortedBySeverity(fs)
    ensures OverallRisk(fs) == if fs == [] then Clean else RiskOf(fs[0].severity)
  {
    if fs != [] {
      var r := OverallRisk(fs);
      RiskRankOfSeverity(fs[0].severity);
      if r != Clean {
        var i :| 0 <= i < |fs| && RiskOf(fs[i].severity) == r;
        RiskRankOfSeverity(fs[i].severity);
        RankInjective(fs[0].severity, fs[i].severity);
      }
    }
  }

  /** Reordering findings does not change the risk they carry. */
  lemma RiskPermutationInvariant(a: seq<Finding>, b: seq<Finding>)
    requires multiset(a) == multiset(b)
    ensures OverallRisk(a) == OverallRisk(b)
  {
    forall s ensures Has(a, s) <==> Has(b, s) {
      if Has(a, s) {
        var i :| 0 <= i < |a| && a[i].severity == s;
        assert a[i] in multiset(b);
        var j :| 0 <= j < |b| && b[j] == a[i];
      }
      if Has(b, s) {
        var i :| 0 <= i < |b| && b[i].severity == s;
        assert b[i] in multiset(a);
        var j :| 0 <= j < |a| && a[j] == b[i];
      }
    }
  }

  const AllSeverities: set<Severity> := {Critical, High, Medium, Low, Info}

  /**
   `severity_counts`: starts every severity of `SEVERITY_ORDER` at 0 and counts each finding
   under its own severity; the counts add up to the number of findings.
   */
  method CountBySeverity(fs: seq<Finding>) returns (counts: map<Severity, nat>)
    ensures counts.Keys == AllSeverities
    ensures forall s :: s in counts ==> counts[s] == |Only(fs, s)|
    ensures counts[Critical] + counts[High] + counts[Medium] + counts[Low] + counts[Info] == |fs|
  {
    counts := map[Critical := 0, High := 0, Medium := 0, Low := 0, Info := 0];
    for i := 0 to |fs|
      invariant counts.Keys == AllSeverities
      invariant forall s :: s in counts ==> counts[s] == |Only(fs[..i], s)|
    {
      assert fs[..i + 1] == fs[..i] + [fs[i]];
      forall s ensures |Only(fs[..i + 1], s)| == |Only(fs[..i], s)| + (if fs[i].severity == s then 1 else 0) {
        OnlySnoc(fs[..i], fs[i], s);
      }
      counts := counts[fs[i].severity := counts[fs[i].severity] + 1];
    }
    assert fs[..|fs|] == fs;
    BucketSizes(fs);
  }

  /** The dictionary `scan_skill_dir` returns. */
  datatype Report = Report(
    overallRisk: RiskLevel,
    totalFindings: nat,
    bySeverity: map<Severity, nat>,
    findings: seq<Finding>,
    error: Option<string>)

  /** The report for a skill directory that does not exist. */
  const MissingDirReport: Report := Report(Unknown, 0, map[], [], Some("path not found"))

  /** Reordering findings does not change which keys they carry. */
  lemma KeysPermutationInvariant(a: seq<Finding>, b: seq<Finding>)
    requires multiset(a) == multiset(b)
    ensures Keys(a) == Keys(b)
  {
    forall k ensures k in Keys(a) <==> k in Keys(b) {
      KeysMembership(a, k);
      KeysMembership(b, k);
      if i :| 0 <= i < |a| && KeyOf(a[i]) == k {
        assert a[i] in multiset(b);
        var j :| 0 <= j < |b| && b[j] == a[i];
      }
      if i :| 0 <= i < |b| && KeyOf(b[i]) == k {
        assert b[i] in multiset(a);
        var j :| 0 <= j < |a| && a[j] == b[i];
      }
    }
  }

  /**
   The post-scan steps of `scan_skill_dir` over the raw findings: deduplicate, sort, derive
   the risk, count. The report lists one finding per distinct key, most severe first, in a
   stable order, with counts that add up to its total.
   */
  method PostProcess(raw: seq<Finding>) returns (rep: Report)
    ensures rep.error == None
    ensures rep.findings == SortBySeverity(FirstOccurrences(raw))
    ensures SortedBySeverity(rep.findings)
    ensures multiset(rep.findings) == multiset(FirstOccurrences(raw))
    ensures forall s :: Only(rep.findings, s) == Only(FirstOccurrences(raw), s)
    ensures DistinctKeys(rep.findings) && Keys(rep.findings) == Keys(raw)
    ensures rep.totalFindings == |rep.findings| == |Keys(raw)|
    ensures rep.bySeverity.Keys == AllSeverities
    ensures forall s :: s in rep.bySeverity ==> rep.bySeverity[s] == |Only(rep.findings, s)|
    ensures rep.bySeverity[Critical] + rep.bySeverity[High] + rep.bySeverity[Medium]
            + rep.bySeverity[Low] + rep.bySeverity[Info] == rep.totalFindings
    ensures rep.overallRisk == OverallRisk(FirstOccurrences(raw))
    ensures rep.overallRisk == if rep.findings == [] then Clean else RiskOf(rep.findings[0].severity)
  {
    var unique := Deduplicate(raw);
    var sorted := SortBySeverity(unique);
    SortSpec(unique);
    forall s ensures Only(sorted, s) == Only(unique, s) {
      SortStable(unique, s);
    }
    SortDistinct(unique);
    KeysPermutationInvariant(sorted, unique);
    var risk := OverallRisk(sorted);
    RiskPermutationInvariant(sorted, unique);
    RiskOfSortedIsHead(sorted);
    var counts := CountBySeverity(sorted);
    rep := Report(risk, |sorted|, counts, sorted, None);
  }
}
