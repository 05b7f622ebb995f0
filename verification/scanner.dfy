/**
 The matching loop of `scan_skill_dir`: every collected file is split into lines, every rule
 that applies to the file is tried on every line, and a line on which any of the rule's
 patterns matches yields one finding. The regular-expression engine is not modelled: a
 pattern is its source text and `matches(pattern, line)` is whatever the engine answers.
 */
module Scanner {
  import opened Wrappers
  import opened Text
  import opened Paths
  import opened Severities
  import opened ScanReport

  /** A detection rule; `fileTypes == ["*"]` means every file. */
  datatype Rule = Rule(
    id: string,
    severity: Severity,
    category: string,
    title: string,
    description: string,
    patterns: seq<string>,
    fileTypes: seq<string>,
    recommendation: string)

  /** A collected file: its path relative to the skill directory and its text, `None` when unreadable. */
  datatype SourceFile = SourceFile(relPath: string, content: Option<string>)

  const MaxEvidence: nat := 200

  /** The evidence recorded for a matching line: the stripped line, cut to 200 characters plus "...". */
  function Evidence(line: string): string {
    var t := Strip(line);
    if |t| > MaxEvidence then t[..MaxEvidence] + "..." else t
  }

  /**
   Evidence is never longer than 203 characters: a stripped line of at most 200 characters
   is kept whole, a longer one keeps its first 200 characters followed by "...".
   */
  lemma EvidenceSpec(line: string)
    ensures |Evidence(line)| <= MaxEvidence + 3
    ensures var t := Strip(line);
      if |t| <= MaxEvidence then Evidence(line) == t
      else |Evidence(line)| == MaxEvidence + 3 && Evidence(line)[..MaxEvidence] == t[..MaxEvidence]
           && Evidence(line)[MaxEvidence..] == "..."
  {
  }

  /** The file-type filter: wildcard rules, listed lower-cased suffixes, and SKILL.md itself. */
  predicate Applies(rule: Rule, relPath: string) {
    rule.fileTypes == ["*"] || Lower(Suffix(Name(relPath))) in rule.fileTypes || Name(relPath) == "SKILL.md"
  }

  /**
   The filter looks only at the file's name: `SKILL.md` is checked by every rule, a wildcard
   rule checks every file, and two files with the same name, in whatever directories, are
   treated alike.
   */
  lemma AppliesByName(rule: Rule, relPath: string, other: string)
    requires Name(other) == Name(relPath)
    ensures Name(relPath) == "SKILL.md" || rule.fileTypes == ["*"] ==> Applies(rule, relPath)
    ensures Applies(rule, other) <==> Applies(rule, relPath)
  {
  }

  /** Some pattern of the rule matches the line (the scanner stops at the first that does). */
  predicate AnyPatternMatches(patterns: seq<string>, line: string, matches: (string, string) -> bool) {
    exists i | 0 <= i < |patterns| :: matches(patterns[i], line)
  }

  function MakeFinding(rule: Rule, relPath: string, lineNum: int, line: string): Finding {
    Finding(rule.id, rule.severity, rule.category, rule.title, rule.description,
            relPath, lineNum, Evidence(line), rule.recommendation)
  }

  /** The findings of one rule over the lines of one file, line numbers counted from 1. */
  function LineFindings(rule: Rule, relPath: string, lines: seq<string>, matches: (string, string) -> bool)
    : seq<Finding>
    decreases |lines|
  {
    if lines == [] then []
    else
      var n := |lines|;
      var init := LineFindings(rule, relPath, lines[..n - 1], matches);
      var last := if AnyPatternMatches(rule.patterns, lines[n - 1], matches)
                  then [MakeFinding(rule, relPath, n, lines[n - 1])] else [];
      init + last
  }

  /** The findings over a file are those over all but its last line, then the last line's. */
  lemma LineFindingsSnoc(rule: Rule, relPath: string, lines: seq<string>, matches: (string, string) -> bool)
    requires lines != []
    ensures var n := |lines|;
      LineFindings(rule, relPath, lines, matches)
      == LineFindings(rule, relPath, lines[..n - 1], matches)
         + (if AnyPatternMatches(rule.patterns, lines[n - 1], matches)
            then [MakeFinding(rule, relPath, n, lines[n - 1])] else [])
  {
  }

  /** Every finding of a rule over a file names the rule and the file and a line of the file. */
  lemma {:induction false} LineFindingsFields(rule: Rule, relPath: string, lines: seq<string>,
                                              matches: (string, string) -> bool)
    ensures forall k :: 0 <= k < |LineFindings(rule, relPath, lines, matches)| ==>
              1 <= LineFindings(rule, relPath, lines, matches)[k].line <= |lines|
              && LineFindings(rule, relPath, lines, matches)[k].ruleId == rule.id
              && LineFindings(rule, relPath, lines, matches)[k].file == relPath
    decreases |lines|
  {
    if lines != [] {
      var n := |lines|;
      LineFindingsSnoc(rule, relPath, lines, matches);
      LineFindingsFields(rule, relPath, lines[..n - 1], matches);
    }
  }

  /** One rule reports a line at most once, so its findings over a file have distinct keys. */
  lemma {:induction false} LineFindingsDistinct(rule: Rule, relPath: string, lines: seq<string>,
                                                matches: (string, string) -> bool)
    ensures DistinctKeys(LineFindings(rule, relPath, lines, matches))
    decreases |lines|
  {
    if lines != [] {
      var n := |lines|;
      var init := LineFindings(rule, relPath, lines[..n - 1], matches);
      var last := if AnyPatternMatches(rule.patterns, lines[n - 1], matches)
                  then [MakeFinding(rule, relPath, n, lines[n - 1])] else [];
      LineFindingsSnoc(rule, relPath, lines, matches);
      LineFindingsFields(rule, relPath, lines[..n - 1], matches);
      LineFindingsDistinct(rule, relPath, lines[..n - 1], matches);
      DistinctKeysConcat(init, last);
    }
  }

  /** Line `k` (0-based) of `lines` matches the rule and `f` is the finding it yields. */
  predicate Yields(rule: Rule, relPath: string, lines: seq<string>, matches: (string, string) -> bool,
                   k: int, f: Finding) {
    0 <= k < |lines| && AnyPatternMatches(rule.patterns, lines[k], matches)
    && f == MakeFinding(rule, relPath, k + 1, lines[k])
  }

  /** Every finding of a rule over the lines comes from a matching line. */
  lemma {:induction false} LineFindingsSound(rule: Rule, relPath: string, lines: seq<string>,
                                             matches: (string, string) -> bool, f: Finding)
    requires f in LineFindings(rule, relPath, lines, matches)
    ensures exists k :: Yields(rule, relPath, lines, matches, k, f)
    decreases |lines|
  {
    var n := |lines|;
    var init := lines[..n - 1];
    if f in LineFindings(rule, relPath, init, matches) {
      LineFindingsSound(rule, relPath, init, matches, f);
      var k :| Yields(rule, relPath, init, matches, k, f);
      assert lines[k] == init[k];
      assert Yields(rule, relPath, lines, matches, k, f);
    } else {
      assert Yields(rule, relPath, lines, matches, n - 1, f);
    }
  }

  /** Every matching line yields its finding. */
  lemma {:induction false} LineFindingsComplete(rule: Rule, relPath: string, lines: seq<string>,
                                                matches: (string, string) -> bool, k: nat)
    requires k < |lines| && AnyPatternMatches(rule.patterns, lines[k], matches)
    ensures MakeFinding(rule, relPath, k + 1, lines[k]) in LineFindings(rule, relPath, lines, matches)
    decreases |lines|
  {
    var n := |lines|;
    var init := lines[..n - 1];
    var f := MakeFinding(rule, relPath, k + 1, lines[k]);
    LineFindingsSnoc(rule, relPath, lines, matches);
    if k < n - 1 {
      assert lines[k] == init[k];
      LineFindingsComplete(rule, relPath, init, matches, k);
      assert f in LineFindings(rule, relPath, init, matches);
    } else {
      assert [f] == [MakeFinding(rule, relPath, n, lines[n - 1])];
    }
  }

  /** A line yields a finding exactly when one of the rule's patterns matches it. */
  lemma LineFindingsMembership(rule: Rule, relPath: string, lines: seq<string>,
                               matches: (string, string) -> bool, f: Finding)
    ensures f in LineFindings(rule, relPath, lines, matches) <==>
              exists k :: Yields(rule, relPath, lines, matches, k, f)
  {
    if f in LineFindings(rule, relPath, lines, matches) {
      LineFindingsSound(rule, relPath, lines, matches, f);
    }
    if k :| Yields(rule, relPath, lines, matches, k, f) {
      LineFindingsComplete(rule, relPath, lines, matches, k);
    }
  }

  /** One rule over one file: nothing when the file type does not apply or the rule has no patterns. */
  function RuleFindings(rule: Rule, relPath: string, lines: seq<string>, matches: (string, string) -> bool)
    : seq<Finding>
  {
    if !Applies(rule, relPath) || rule.patterns == [] then []
    else LineFindings(rule, relPath, lines, matches)
  }

  predicate DistinctIds(rules: seq<Rule>) {
    forall i, j :: 0 <= i < j < |rules| ==> rules[i].id != rules[j].id
  }

  /** Every rule in turn over one file. */
  function RulesFindings(rules: seq<Rule>, relPath: string, lines: seq<string>, matches: (string, string) -> bool)
    : (r: seq<Finding>)
    ensures forall k :: 0 <= k < |r| ==>
              r[k].file == relPath && exists j :: 0 <= j < |rules| && r[k].ruleId == rules[j].id
    decreases |rules|
  {
    if rules == [] then []
    else
      var head := RuleFindings(rules[0], relPath, lines, matches);
      var tail := RulesFindings(rules[1..], relPath, lines, matches);
      assert forall k :: 0 <= k < |head + tail| ==>
               (head + tail)[k].file == relPath && exists j :: 0 <= j < |rules| && (head + tail)[k].ruleId == rules[j].id
      by {
        LineFindingsFields(rules[0], relPath, lines, matches);
        forall k | 0 <= k < |head + tail|
          ensures (head + tail)[k].file == relPath && exists j :: 0 <= j < |rules| && (head + tail)[k].ruleId == rules[j].id
        {
          if k < |head| {
            assert (head + tail)[k] == head[k] && head[k].ruleId == rules[0].id;
          } else {
            var j :| 0 <= j < |rules[1..]| && tail[k - |head|].ruleId == rules[1..][j].id;
            assert (head + tail)[k] == tail[k - |head|] && rules[1..][j] == rules[j + 1];
          }
        }
      }
      head + tail
  }

  /** Rules with distinct ids never produce the same key twice over one file. */
  lemma {:induction false} RulesFindingsDistinct(rules: seq<Rule>, relPath: string, lines: seq<string>,
                                                 matches: (string, string) -> bool)
    requires DistinctIds(rules)
    ensures DistinctKeys(RulesFindings(rules, relPath, lines, matches))
    decreases |rules|
  {
    if rules != [] {
      var head := RuleFindings(rules[0], relPath, lines, matches);
      LineFindingsDistinct(rules[0], relPath, lines, matches);
      LineFindingsFields(rules[0], relPath, lines, matches);
      assert forall i :: 0 <= i < |head| ==> head[i].ruleId == rules[0].id;
      var tail := RulesFindings(rules[1..], relPath, lines, matches);
      assert RulesFindings(rules, relPath, lines, matches) == head + tail;
      assert forall j :: 0 <= j < |rules| - 1 ==> rules[1..][j] == rules[j + 1];
      assert DistinctIds(rules[1..]);
      RulesFindingsDistinct(rules[1..], relPath, lines, matches);
      forall i, j | 0 <= i < |head| && 0 <= j < |tail| ensures KeyOf(head[i]) != KeyOf(tail[j]) {
        var m :| 0 <= m < |rules[1..]| && tail[j].ruleId == rules[1..][m].id;
        assert rules[0].id != rules[m + 1].id;
      }
      DistinctKeysConcat(head, tail);
    }
  }

  /** One file: an unreadable file yields nothing; otherwise its text is split on newlines. */
  function FileFindings(rules: seq<Rule>, file: SourceFile, matches: (string, string) -> bool): seq<Finding> {
    match file.content
    case None => []
    case Some(text) => RulesFindings(rules, file.relPath, Split(text, '\n'), matches)
  }

  predicate DistinctPaths(files: seq<SourceFile>) {
    forall i, j :: 0 <= i < j < |files| ==> files[i].relPath != files[j].relPath
  }

  /** All findings of a directory, in file order, then rule order, then line order. */
  function CollectFindings(files: seq<SourceFile>, rules: seq<Rule>, matches: (string, string) -> bool)
    : (r: seq<Finding>)
    ensures forall k :: 0 <= k < |r| ==> exists i :: 0 <= i < |files| && r[k].file == files[i].relPath
    decreases |files|
  {
    if files == [] then []
    else
      var head := FileFindings(rules, files[0], matches);
      var tail := CollectFindings(files[1..], rules, matches);
      assert forall k :: 0 <= k < |tail| ==> (head + tail)[|head| + k] == tail[k];
      assert forall j :: 0 <= j < |files| - 1 ==> files[1..][j] == files[j + 1];
      head + tail
  }

  /** Distinct rule ids and distinct file paths never produce the same key twice. */
  lemma {:induction false} CollectFindingsDistinct(files: seq<SourceFile>, rules: seq<Rule>,
                                                   matches: (string, string) -> bool)
    requires DistinctIds(rules) && DistinctPaths(files)
    ensures DistinctKeys(CollectFindings(files, rules, matches))
    decreases |files|
  {
    if files != [] {
      var head := FileFindings(rules, files[0], matches);
      var tail := CollectFindings(files[1..], rules, matches);
      assert CollectFindings(files, rules, matches) == head + tail;
      assert forall j :: 0 <= j < |files| - 1 ==> files[1..][j] == files[j + 1];
      assert DistinctPaths(files[1..]);
      CollectFindingsDistinct(files[1..], rules, matches);
      if files[0].content.Some? {
        RulesFindingsDistinct(rules, files[0].relPath, Split(files[0].content.value, '\n'), matches);
      }
      assert forall k :: 0 <= k < |head| ==> head[k].file == files[0].relPath;
      forall i, j | 0 <= i < |head| && 0 <= j < |tail| ensures KeyOf(head[i]) != KeyOf(tail[j]) {
        var m :| 0 <= m < |files[1..]| && tail[j].file == files[1..][m].relPath;
        assert files[0].relPath != files[m + 1].relPath;
      }
      DistinctKeysConcat(head, tail);
    }
  }

  /**
   `scan_skill_dir`: a missing directory gives the UNKNOWN report; otherwise the collected
   findings are post-processed. With distinct file paths and distinct rule ids (as the
   scanner's own rule list and directory walk provide) no key repeats, so the report holds
   every collected finding.
   */
  method ScanSkillDir(dirExists: bool, files: seq<SourceFile>, rules: seq<Rule>, matches: (string, string) -> bool)
    returns (rep: Report)
    ensures !dirExists ==> rep == MissingDirReport
    ensures dirExists ==> rep.error == None && rep.findings == SortBySeverity(FirstOccurrences(CollectFindings(files, rules, matches)))
    ensures dirExists ==> rep.totalFindings == |rep.findings| && SortedBySeverity(rep.findings)
    ensures dirExists ==> rep.overallRisk != Unknown
                          && rep.overallRisk == (if rep.findings == [] then Clean else RiskOf(rep.findings[0].severity))
    ensures dirExists ==> rep.bySeverity.Keys == AllSeverities
                          && (forall s :: s in rep.bySeverity ==> rep.bySeverity[s] == |Only(rep.findings, s)|)
                          && rep.bySeverity[Critical] + rep.bySeverity[High] + rep.bySeverity[Medium]
                             + rep.bySeverity[Low] + rep.bySeverity[Info] == rep.totalFindings
    ensures dirExists && DistinctIds(rules) && DistinctPaths(files) ==>
              rep.findings == SortBySeverity(CollectFindings(files, rules, matches))
              && rep.totalFindings == |CollectFindings(files, rules, matches)|
  {
    if !dirExists {
      return MissingDirReport;
    }
    var raw := CollectFindings(files, rules, matches);
    rep := PostProcess(raw);
    if DistinctIds(rules) && DistinctPaths(files) {
      CollectFindingsDistinct(files, rules, matches);
      FirstOccurrencesOfDistinct(raw);
    }
  }
}
