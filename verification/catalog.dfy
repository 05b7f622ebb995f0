/**
 The catalog tables as a state: the `skills` rows keyed by `author/skill` path and the stored
 `scan_findings` of each path, and the operations of a sync run that change them: the upsert
 of one skill, the selection of the skills a run processes, and the reconciliation that
 marks skills gone from HEAD as deleted. Timestamps are opaque integers.
 */
module Catalog {
  import opened Wrappers
  import opened Text
  import opened Severities
  import opened ScanReport
  import FolderStats
  import opened Categorize
  import opened Blacklists
  import opened Commits
  import opened Slugs

  /** A `skills` row, without its key. */
  datatype Row = Row(
    skillName: string,
    author: string,
    displayName: string,
    description: string,
    version: string,
    tags: seq<string>,
    category: string,
    dateAdded: int,
    dateUpdated: Option<int>,
    isDeleted: bool,
    dateDeleted: Option<int>,
    isBlacklisted: bool,
    blacklistReason: string,
    scanRisk: RiskLevel,
    scanFindingsCount: nat,
    scanDate: Option<int>,
    rawFrontmatter: string,
    stats: FolderStats.Stats)

  /** The `skills` table and the stored findings of each path, in `id` order. */
  datatype Db = Db(skills: map<string, Row>, findings: map<string, seq<Finding>>)

  /** The frontmatter fields the upsert reads; all `None` when there is no SKILL.md. */
  datatype SkillMd = SkillMd(
    name: Option<string>,
    description: Option<string>,
    version: Option<string>,
    tags: seq<string>,
    raw: Option<string>)

  /**
   What the file system and the clock give one upsert: whether the skill directory exists,
   its frontmatter, the report `scan_skill_dir` would return for it, its folder statistics,
   and the time a scan is stamped with.
   */
  datatype SkillFiles = SkillFiles(dirExists: bool, fm: SkillMd, report: Report, stats: FolderStats.Stats, now: int)

  /**
   What stays fixed during a run: the category table `categorize_skill` scores against
   (the program's own is `Categorize.Table`), the loaded blacklist, and whether skills are
   scanned for security findings.
   */
  datatype Config = Config(table: seq<Category>, blacklist: Blacklist, doScan: bool)

  // ---------------------------------------------------------------------------
  // One upsert
  // ---------------------------------------------------------------------------

  /** The author part of `author/skill`, "unknown" for a path without `/`. */
  function AuthorOf(path: string): string {
    var parts := SplitOnce(path, '/');
    if |parts| > 1 then parts[0] else "unknown"
  }

  /** The skill part of `author/skill`, the whole path when it has no `/`. */
  function NameOf(path: string): string {
    var parts := SplitOnce(path, '/');
    if |parts| > 1 then parts[1] else parts[0]
  }

  lemma AuthorNameSpec(path: string)
    ensures '/' in path ==> AuthorOf(path) + "/" + NameOf(path) == path && '/' !in AuthorOf(path)
    ensures '/' !in path ==> AuthorOf(path) == "unknown" && NameOf(path) == path
  {
  }

  /** The skill is scanned only when scanning is on and its directory exists. */
  predicate Scanned(files: SkillFiles, cfg: Config) {
    cfg.doScan && files.dirExists
  }

  /** `scan_findings_list`: the report's findings when scanned, none otherwise. */
  function ScanFindings(files: SkillFiles, cfg: Config): seq<Finding> {
    if Scanned(files, cfg) then files.report.findings else []
  }

  /**
   The row an added or updated skill gets, apart from its dates: display name, description,
   version and raw frontmatter from the frontmatter (falling back on the skill name or ""),
   the category and blacklist verdict computed from them, the scan result when scanned
   (UNKNOWN and 0 otherwise), and the folder statistics when the directory exists.
   */
  function Content(path: string, cfg: Config, files: SkillFiles): Row {
    var name := NameOf(path);
    var author := AuthorOf(path);
    var description := OrDefault(files.fm.description, "");
    var category := CategorizeWith(cfg.table, name, Some(description));
    var verdict := CheckBlacklist(cfg.blacklist, author, category, name, description);
    var scanned := Scanned(files, cfg);
    Row(name, author, OrDefault(files.fm.name, name), description, OrDefault(files.fm.version, ""),
        files.fm.tags, category, 0, None, false, None,
        verdict.blacklisted, verdict.reason,
        if scanned then files.report.overallRisk else Unknown,
        if scanned then files.report.totalFindings else 0,
        if scanned then Some(files.now) else None,
        OrDefault(files.fm.raw, ""),
        if files.dirExists then files.stats else FolderStats.NoStats)
  }

  /**
   What the written row promises of a report `scan_skill_dir` could return: its findings
   count is the number of findings about to be stored; its risk is UNKNOWN exactly when it
   carries no scan date, which is exactly when the skill was not scanned, and a scanned row is
   stamped with the scan time; it is blacklisted exactly when it has a reason; it is live; and
   its author and skill name put back together give the path.
   */
  lemma ContentSpec(path: string, cfg: Config, files: SkillFiles)
    requires ReportAgrees(files)
    ensures var c := Content(path, cfg, files);
      c.scanFindingsCount == |ScanFindings(files, cfg)|
      && (c.scanRisk == Unknown <==> c.scanDate == None)
      && (c.scanDate == None <==> !Scanned(files, cfg))
      && (Scanned(files, cfg) ==> c.scanDate == Some(files.now))
      && (c.isBlacklisted <==> c.blacklistReason != "")
      && !c.isDeleted && c.dateDeleted == None
      && ('/' in path ==> c.author + "/" + c.skillName == path)
  {
    AuthorNameSpec(path);
  }

  /** A row is UNKNOWN-risk exactly when it has never been scanned. */
  predicate RiskDated(r: Row) {
    r.scanRisk == Unknown <==> r.scanDate == None
  }

  /** Every row of the table is UNKNOWN-risk exactly when it has no scan date. */
  predicate AllRiskDated(skills: map<string, Row>) {
    forall p :: p in skills ==> RiskDated(skills[p])
  }

  function MarkDeleted(r: Row, date: int): Row {
    r.(isDeleted := true, dateDeleted := Some(date))
  }

  /**
   The `skills` table after `upsert_skill` writes the row `written`: a deletion marks an
   existing row deleted at the commit date and ignores an unknown path; otherwise an existing
   row is replaced, keeping its date added and taking the commit date as its date updated,
   and a new path is inserted with the commit date as its date added.
   */
  function Written(skills: map<string, Row>, path: string, op: Operation, gitDate: int, written: Row)
    : map<string, Row>
  {
    if op == Deleted then
      if path in skills then skills[path := MarkDeleted(skills[path], gitDate)] else skills
    else if path in skills then
      skills[path := written.(dateAdded := skills[path].dateAdded, dateUpdated := Some(gitDate))]
    else
      skills[path := written.(dateAdded := gitDate, dateUpdated := None)]
  }

  /**
   The stored findings after `upsert_skill` as written: replaced only when the new scan
   found something, so a skill rescanned clean, or not scanned, keeps its old findings.
   */
  function StoreAsWritten(findings: map<string, seq<Finding>>, path: string, op: Operation, list: seq<Finding>)
    : map<string, seq<Finding>>
  {
    if op != Deleted && list != [] then findings[path := list] else findings
  }

  /** The stored findings with the old findings of the path always removed before the new ones are stored. */
  function Store(findings: map<string, seq<Finding>>, path: string, op: Operation, list: seq<Finding>)
    : map<string, seq<Finding>>
  {
    if op == Deleted then findings
    else if list != [] then findings[path := list]
    else findings - {path}
  }

  /** `upsert_skill` as written. */
  function UpsertAsWritten(db: Db, path: string, op: Operation, gitDate: int, cfg: Config,
                           files: SkillFiles): Db {
    Db(Written(db.skills, path, op, gitDate, Content(path, cfg, files)),
       StoreAsWritten(db.findings, path, op, ScanFindings(files, cfg)))
  }

  /** `upsert_skill`, with the stored findings of a rescanned skill replaced even by none. */
  function Upsert(db: Db, path: string, op: Operation, gitDate: int, cfg: Config,
                  files: SkillFiles): Db {
    Db(Written(db.skills, path, op, gitDate, Content(path, cfg, files)),
       Store(db.findings, path, op, ScanFindings(files, cfg)))
  }

  /**
   The stored findings agree with the rows: a path has stored findings only when it has a
   row, and then as many as the row's findings count says.
   */
  predicate Consistent(db: Db) {
    forall p :: p in db.findings ==> p in db.skills && |db.findings[p]| == db.skills[p].scanFindingsCount
  }

  /**
   A report as `scan_skill_dir` builds it for an existing directory: its total is the length
   of its findings list, and its risk is never UNKNOWN.
   */
  predicate ReportAgrees(files: SkillFiles) {
    files.report.totalFindings == |files.report.findings|
    && (files.dirExists ==> files.report.overallRisk != Unknown)
  }

  /** A deletion marks the row of a known path, and changes nothing else. */
  lemma WrittenDeleteSpec(skills: map<string, Row>, path: string, gitDate: int, written: Row)
    ensures var r := Written(skills, path, Deleted, gitDate, written);
      r.Keys == skills.Keys
      && (path in skills ==> r[path] == skills[path].(isDeleted := true, dateDeleted := Some(gitDate)))
      && (forall q :: q in skills && q != path ==> r[q] == skills[q])
  {
  }

  /**
   An add or update writes the written row under the path, with its dates following the
   insert/update rule, and changes no other path.
   */
  lemma WrittenRowSpec(skills: map<string, Row>, path: string, op: Operation, gitDate: int, written: Row)
    requires op != Deleted
    ensures var r := Written(skills, path, op, gitDate, written);
      r.Keys == skills.Keys + {path}
      && (path in skills ==> r[path] == written.(dateAdded := skills[path].dateAdded, dateUpdated := Some(gitDate)))
      && (path !in skills ==> r[path] == written.(dateAdded := gitDate, dateUpdated := None))
      && (forall q :: q in skills && q != path ==> r[q] == skills[q])
  {
  }

  /** The first date a skill was added survives every later write of it, deletions included. */
  lemma WrittenKeepsDateAdded(skills: map<string, Row>, path: string, op: Operation, gitDate: int, written: Row)
    requires path in skills
    ensures path in Written(skills, path, op, gitDate, written)
    ensures Written(skills, path, op, gitDate, written)[path].dateAdded == skills[path].dateAdded
  {
  }

  /** Whether a skill is processed as added or as updated makes no difference to the upsert. */
  lemma AddedIsUpdated(db: Db, path: string, gitDate: int, cfg: Config, files: SkillFiles)
    ensures Upsert(db, path, Added, gitDate, cfg, files) == Upsert(db, path, Updated, gitDate, cfg, files)
  {
  }

  /**
   After an add or update the path's stored findings are exactly the new scan's, absent when
   it found none; a deletion, and every other path, keep theirs.
   */
  lemma StoreSpec(findings: map<string, seq<Finding>>, path: string, op: Operation, list: seq<Finding>)
    ensures var r := Store(findings, path, op, list);
      (op == Deleted ==> r == findings)
      && (op != Deleted ==> (path in r <==> list != []) && (path in r ==> r[path] == list))
      && (forall q :: q != path ==> (q in r <==> q in findings))
      && (forall q :: q != path && q in findings ==> r[q] == findings[q])
  {
  }

  /**
   As written, an add or update replaces the path's stored findings only when the new scan
   found some; an empty list, a deletion, and every other path leave the findings as they were.
   */
  lemma StoreAsWrittenSpec(findings: map<string, seq<Finding>>, path: string, op: Operation, list: seq<Finding>)
    ensures var r := StoreAsWritten(findings, path, op, list);
      (op == Deleted || list == [] ==> r == findings)
      && (op != Deleted && list != [] ==> r.Keys == findings.Keys + {path} && r[path] == list)
      && (forall q :: q != path && q in findings ==> q in r && r[q] == findings[q])
  {
  }

  /**
   The agreement the upsert as written does keep: a path has stored findings only when it
   has a row, and a row with a non-zero findings count has exactly that many stored. So only
   a row whose count is 0 can sit beside stale findings.
   */
  predicate AgreesAsWritten(db: Db) {
    (forall p :: p in db.findings ==> p in db.skills)
    && forall p :: p in db.skills && db.skills[p].scanFindingsCount > 0 ==>
         p in db.findings && |db.findings[p]| == db.skills[p].scanFindingsCount
  }

  /** Writing a row whose findings count is the length of the new list keeps that weaker agreement, as written. */
  lemma StoreAsWrittenAgrees(db: Db, path: string, op: Operation, gitDate: int, written: Row, list: seq<Finding>)
    requires AgreesAsWritten(db) && written.scanFindingsCount == |list|
    ensures AgreesAsWritten(Db(Written(db.skills, path, op, gitDate, written), StoreAsWritten(db.findings, path, op, list)))
  {
    var r := Db(Written(db.skills, path, op, gitDate, written), StoreAsWritten(db.findings, path, op, list));
    forall p | p in r.findings ensures p in r.skills {
      if p != path {
        assert p in db.findings;
      }
    }
    forall p | p in r.skills && r.skills[p].scanFindingsCount > 0
      ensures p in r.findings && |r.findings[p]| == r.skills[p].scanFindingsCount
    {
      if p != path {
        assert p in db.skills && r.skills[p] == db.skills[p];
      } else if op == Deleted {
        assert p in db.skills && r.skills[p].scanFindingsCount == db.skills[p].scanFindingsCount;
      } else {
        assert list != [];
      }
    }
  }

  /** The upsert as written keeps the weaker agreement. */
  lemma UpsertAsWrittenAgrees(db: Db, path: string, op: Operation, gitDate: int, cfg: Config,
                              files: SkillFiles)
    requires AgreesAsWritten(db) && ReportAgrees(files)
    ensures AgreesAsWritten(UpsertAsWritten(db, path, op, gitDate, cfg, files))
  {
    ContentSpec(path, cfg, files);
    StoreAsWrittenAgrees(db, path, op, gitDate, Content(path, cfg, files), ScanFindings(files, cfg));
  }

  /** Writing a row that is UNKNOWN-risk exactly when undated keeps every row so. */
  lemma WrittenRiskDated(skills: map<string, Row>, path: string, op: Operation, gitDate: int, written: Row)
    requires AllRiskDated(skills) && RiskDated(written)
    ensures AllRiskDated(Written(skills, path, op, gitDate, written))
  {
    var r := Written(skills, path, op, gitDate, written);
    forall p | p in r ensures RiskDated(r[p]) {
      if p != path {
        assert r[p] == skills[p];
      }
    }
  }

  /** The upsert as written keeps every row UNKNOWN-risk exactly when it has no scan date. */
  lemma UpsertAsWrittenRiskDated(db: Db, path: string, op: Operation, gitDate: int, cfg: Config,
                                 files: SkillFiles)
    requires AllRiskDated(db.skills) && ReportAgrees(files)
    ensures AllRiskDated(UpsertAsWritten(db, path, op, gitDate, cfg, files).skills)
  {
    ContentSpec(path, cfg, files);
    WrittenRiskDated(db.skills, path, op, gitDate, Content(path, cfg, files));
  }

  /** Writing a row whose findings count is the length of the stored list keeps the tables in agreement. */
  lemma StoreConsistent(db: Db, path: string, op: Operation, gitDate: int, written: Row, list: seq<Finding>)
    requires Consistent(db) && written.scanFindingsCount == |list|
    ensures Consistent(Db(Written(db.skills, path, op, gitDate, written), Store(db.findings, path, op, list)))
  {
    var r := Db(Written(db.skills, path, op, gitDate, written), Store(db.findings, path, op, list));
    forall p | p in r.findings
      ensures p in r.skills && |r.findings[p]| == r.skills[p].scanFindingsCount
    {
      if p != path {
        assert p in db.findings;
      }
    }
  }

  /** The upsert keeps the stored findings in agreement with the rows. */
  lemma UpsertConsistent(db: Db, path: string, op: Operation, gitDate: int, cfg: Config,
                         files: SkillFiles)
    requires Consistent(db) && ReportAgrees(files)
    ensures Consistent(Upsert(db, path, op, gitDate, cfg, files))
  {
    ContentSpec(path, cfg, files);
    StoreConsistent(db, path, op, gitDate, Content(path, cfg, files), ScanFindings(files, cfg));
  }

  /**
   The upsert as written breaks that agreement: a skill with stored findings that is
   rescanned clean, or processed with scanning off, gets a findings count of 0 and keeps
   every one of its old findings.
   */
  lemma StaleFindingsAsWritten(db: Db, path: string, op: Operation, gitDate: int, cfg: Config,
                               files: SkillFiles)
    requires Consistent(db) && ReportAgrees(files) && path in db.findings && db.findings[path] != []
    requires op != Deleted && ScanFindings(files, cfg) == []
    ensures var r := UpsertAsWritten(db, path, op, gitDate, cfg, files);
      r.findings[path] == db.findings[path] && r.skills[path].scanFindingsCount == 0
      && !Consistent(r)
  {
    ContentSpec(path, cfg, files);
    var r := UpsertAsWritten(db, path, op, gitDate, cfg, files);
    WrittenRowSpec(db.skills, path, op, gitDate, Content(path, cfg, files));
    assert |r.findings[path]| != r.skills[path].scanFindingsCount;
  }

  // ---------------------------------------------------------------------------
  // Reconciliation against HEAD
  // ---------------------------------------------------------------------------

  /** The live rows whose path is no longer in HEAD. */
  function Removed(skills: map<string, Row>, head: set<string>): set<string> {
    set p | p in skills && !skills[p].isDeleted && p !in head
  }

  /**
   `reconcile_deletions`: every live row whose path is not in HEAD is marked deleted at
   `now`; the result also counts them.
   */
  function Reconcile(db: Db, head: set<string>, now: int): (Db, nat) {
    var removed := Removed(db.skills, head);
    (Db(map p | p in db.skills :: if p in removed then MarkDeleted(db.skills[p], now) else db.skills[p],
        db.findings),
     |removed|)
  }

  /**
   Reconciliation marks exactly the live rows missing from HEAD, counts them, and leaves
   deleted rows, rows still in HEAD and the stored findings as they were; afterwards every
   live row is in HEAD.
   */
  lemma ReconcileSpec(db: Db, head: set<string>, now: int)
    ensures var (r, n) := Reconcile(db, head, now);
      r.skills.Keys == db.skills.Keys && r.findings == db.findings
      && n == |set p | p in db.skills && !db.skills[p].isDeleted && p !in head|
      && (forall p :: p in db.skills && !db.skills[p].isDeleted && p !in head ==>
            r.skills[p] == db.skills[p].(isDeleted := true, dateDeleted := Some(now)))
      && (forall p :: p in db.skills && (db.skills[p].isDeleted || p in head) ==> r.skills[p] == db.skills[p])
      && (forall p :: p in r.skills && !r.skills[p].isDeleted ==> p in head)
  {
  }

  /** A second reconciliation against the same HEAD finds nothing to do. */
  lemma ReconcileIdempotent(db: Db, head: set<string>, now: int, later: int)
    ensures Reconcile(Reconcile(db, head, now).0, head, later) == (Reconcile(db, head, now).0, 0)
  {
    var r := Reconcile(db, head, now).0;
    assert Removed(r.skills, head) == {} by {
      forall p | p in r.skills && !r.skills[p].isDeleted ensures p in head {
      }
    }
    var (r2, n2) := Reconcile(r, head, later);
    assert r2.skills == r.skills;
  }

  /** Reconciliation keeps the stored findings in agreement with the rows. */
  lemma ReconcileConsistent(db: Db, head: set<string>, now: int)
    requires Consistent(db)
    ensures Consistent(Reconcile(db, head, now).0)
  {
    var r := Reconcile(db, head, now).0;
    forall p | p in r.findings ensures p in r.skills && |r.findings[p]| == r.skills[p].scanFindingsCount {
      assert p in db.findings;
    }
  }

  /** Reconciliation keeps the weaker agreement of the upsert as written. */
  lemma ReconcileAgrees(db: Db, head: set<string>, now: int)
    requires AgreesAsWritten(db)
    ensures AgreesAsWritten(Reconcile(db, head, now).0)
  {
    var r := Reconcile(db, head, now).0;
    forall p | p in r.skills && r.skills[p].scanFindingsCount > 0
      ensures p in r.findings && |r.findings[p]| == r.skills[p].scanFindingsCount
    {
      assert r.skills[p].scanFindingsCount == db.skills[p].scanFindingsCount;
    }
  }

  /** Reconciliation changes no row's risk or scan date. */
  lemma ReconcileRiskDated(db: Db, head: set<string>, now: int)
    requires AllRiskDated(db.skills)
    ensures AllRiskDated(Reconcile(db, head, now).0.skills)
  {
    var r := Reconcile(db, head, now).0;
    forall p | p in r.skills ensures RiskDated(r.skills[p]) {
      assert r.skills[p].scanRisk == db.skills[p].scanRisk && r.skills[p].scanDate == db.skills[p].scanDate;
    }
  }

  // ---------------------------------------------------------------------------
  // One sync run
  // ---------------------------------------------------------------------------

  /**
   The key `main` processes a touched entry under: a deletion's own slug, trusted as it is;
   any other entry's resolved path, when the slug resolves to a non-empty one; none otherwise.
   */
  function Target(e: Entry, heads: seq<string>): Option<string> {
    BuildSlugLookupWellFormed(heads);
    if e.touch.operation == Deleted then Some(e.slug)
    else
      match Resolve(e.slug, HeadSet(heads), BuildSlugLookup(heads))
      case Some(p) => if p != "" then Some(p) else None
      case None => None
  }

  /** One step of the resolution loop in `main`: the entry's touch is stored under its target. */
  function SelectStep(acc: seq<Entry>, e: Entry, heads: seq<string>): seq<Entry> {
    match Target(e, heads)
    case Some(k) => Put(acc, k, e.touch)
    case None => acc
  }

  /** The skills an incremental run processes, resolved from the touched dictionary in its order. */
  function SelectTouched(touched: seq<Entry>, heads: seq<string>): seq<Entry>
    decreases |touched|
  {
    if touched == [] then []
    else SelectStep(SelectTouched(touched[..|touched| - 1], heads), touched[|touched| - 1], heads)
  }

  /** The touch of the last entry whose target is `k`, if any. */
  function LastSelected(touched: seq<Entry>, heads: seq<string>, k: string): Option<Touch>
    decreases |touched|
  {
    if touched == [] then None
    else
      var e := touched[|touched| - 1];
      if Target(e, heads) == Some(k) then Some(e.touch) else LastSelected(touched[..|touched| - 1], heads, k)
  }

  /** A full rescan processes every HEAD path as added at `now`. */
  function AllHeads(heads: seq<string>, now: int): seq<Entry>
    decreases |heads|
  {
    if heads == [] then []
    else
      var n := |heads|;
      Put(AllHeads(heads[..n - 1], now), heads[n - 1], Touch("", Added, now, ""))
  }

  /** A full rescan processes every HEAD path exactly once. */
  lemma {:induction false} AllHeadsKeys(heads: seq<string>, now: int)
    ensures Distinct(SlugsOf(AllHeads(heads, now)))
    ensures forall k :: k in SlugsOf(AllHeads(heads, now)) <==> k in heads
    decreases |heads|
  {
    if heads != [] {
      var n := |heads|;
      var acc := AllHeads(heads[..n - 1], now);
      AllHeadsKeys(heads[..n - 1], now);
      PutKeys(acc, heads[n - 1], Touch("", Added, now, ""));
      PutDistinct(acc, heads[n - 1], Touch("", Added, now, ""));
      assert heads == heads[..n - 1] + [heads[n - 1]];
    }
  }

  /** Every HEAD path of a full rescan is processed as added at `now`, with no commit author. */
  lemma {:induction false} AllHeadsGet(heads: seq<string>, now: int, k: string)
    requires k in heads
    ensures Get(AllHeads(heads, now), k) == Some(Touch("", Added, now, ""))
    decreases |heads|
  {
    var n := |heads|;
    var acc := AllHeads(heads[..n - 1], now);
    if heads[n - 1] == k {
      PutGetSame(acc, k, Touch("", Added, now, ""));
    } else {
      assert k in heads[..n - 1] by {
        var i :| 0 <= i < n && heads[i] == k;
        assert heads[..n - 1][i] == k;
      }
      AllHeadsGet(heads[..n - 1], now, k);
      PutGetOther(acc, heads[n - 1], Touch("", Added, now, ""), k);
    }
  }

  /** `to_process` in `main`. */
  function ToProcess(touched: seq<Entry>, heads: seq<string>, fullRescan: bool, now: int): seq<Entry> {
    if fullRescan then AllHeads(heads, now) else SelectTouched(touched, heads)
  }

  /** A key is in `d` after `d[k] = v` exactly when it was before or is `k`. */
  lemma PutKeys(t: seq<Entry>, k: string, v: Touch)
    ensures forall x :: x in SlugsOf(Put(t, k, v)) <==> x in SlugsOf(t) || x == k
  {
    PutSlugs(t, k, v);
  }

  /**
   A deletion is processed under its slug; any other entry only under a non-empty HEAD path,
   and under one exactly when its slug resolves to a non-empty path.
   */
  lemma TargetSpec(e: Entry, heads: seq<string>)
    ensures WellFormed(BuildSlugLookup(heads))
    ensures e.touch.operation == Deleted ==> Target(e, heads) == Some(e.slug)
    ensures e.touch.operation != Deleted ==>
              var r := Resolve(e.slug, HeadSet(heads), BuildSlugLookup(heads));
              (Target(e, heads).Some? <==> r.Some? && r.value != "")
              && (Target(e, heads).Some? ==> Target(e, heads) == r && r.value in heads)
  {
    ResolveSpec(e.slug, heads);
  }

  /**
   One resolution step stores the entry's touch under its target and leaves every other key
   and value alone; an entry without a target changes nothing.
   */
  lemma SelectStepSpec(acc: seq<Entry>, e: Entry, heads: seq<string>)
    requires Distinct(SlugsOf(acc))
    ensures Distinct(SlugsOf(SelectStep(acc, e, heads)))
    ensures Target(e, heads).None? ==> SelectStep(acc, e, heads) == acc
    ensures forall k :: k in SlugsOf(SelectStep(acc, e, heads)) <==> k in SlugsOf(acc) || Target(e, heads) == Some(k)
    ensures forall k :: Get(SelectStep(acc, e, heads), k) == if Target(e, heads) == Some(k) then Some(e.touch) else Get(acc, k)
  {
    match Target(e, heads)
    case Some(t) =>
      PutKeys(acc, t, e.touch);
      PutDistinct(acc, t, e.touch);
      PutGetSame(acc, t, e.touch);
      forall k | k != t ensures Get(Put(acc, t, e.touch), k) == Get(acc, k) {
        PutGetOther(acc, t, e.touch, k);
      }
    case None =>
  }

  /**
   An incremental run processes each key once, and exactly the targets of the touched
   entries: every deletion's slug and every slug that resolves to a non-empty HEAD path.
   */
  lemma {:induction false} SelectTouchedKeys(touched: seq<Entry>, heads: seq<string>)
    ensures Distinct(SlugsOf(SelectTouched(touched, heads)))
    ensures forall k :: k in SlugsOf(SelectTouched(touched, heads)) <==>
              exists i :: 0 <= i < |touched| && Target(touched[i], heads) == Some(k)
    decreases |touched|
  {
    if touched != [] {
      var n := |touched|;
      var init := touched[..n - 1];
      var e := touched[n - 1];
      var acc := SelectTouched(init, heads);
      assert SelectTouched(touched, heads) == SelectStep(acc, e, heads);
      SelectTouchedKeys(init, heads);
      SelectStepSpec(acc, e, heads);
      forall k ensures k in SlugsOf(SelectStep(acc, e, heads)) <==>
                         exists i :: 0 <= i < n && Target(touched[i], heads) == Some(k)
      {
        if k in SlugsOf(acc) {
          var i :| 0 <= i < |init| && Target(init[i], heads) == Some(k);
          assert touched[i] == init[i];
        }
        if exists i :: 0 <= i < n && Target(touched[i], heads) == Some(k) {
          var i :| 0 <= i < n && Target(touched[i], heads) == Some(k);
          if i < n - 1 {
            assert init[i] == touched[i];
          }
        }
      }
    }
  }

  /** The touch processed under a key is that of the last entry with that target. */
  lemma {:induction false} SelectTouchedGet(touched: seq<Entry>, heads: seq<string>, k: string)
    ensures Get(SelectTouched(touched, heads), k) == LastSelected(touched, heads, k)
    decreases |touched|
  {
    if touched != [] {
      var n := |touched|;
      var init := touched[..n - 1];
      var acc := SelectTouched(init, heads);
      SelectTouchedKeys(init, heads);
      SelectTouchedGet(init, heads, k);
      SelectStepSpec(acc, touched[n - 1], heads);
    }
  }

  /**
   An incremental run processes only HEAD paths and the slugs of deletion messages, and it
   processes every one of them that a touched entry targets.
   */
  lemma SelectTouchedSpec(touched: seq<Entry>, heads: seq<string>)
    ensures Distinct(SlugsOf(SelectTouched(touched, heads)))
    ensures forall k :: k in SlugsOf(SelectTouched(touched, heads)) ==>
              k in heads || exists i :: 0 <= i < |touched| && touched[i].slug == k && touched[i].touch.operation == Deleted
    ensures forall i :: 0 <= i < |touched| && touched[i].touch.operation == Deleted ==>
              touched[i].slug in SlugsOf(SelectTouched(touched, heads))
  {
    SelectTouchedKeys(touched, heads);
    forall k | k in SlugsOf(SelectTouched(touched, heads)) && k !in heads
      ensures exists i :: 0 <= i < |touched| && touched[i].slug == k && touched[i].touch.operation == Deleted
    {
      var i :| 0 <= i < |touched| && Target(touched[i], heads) == Some(k);
      TargetSpec(touched[i], heads);
    }
    forall i | 0 <= i < |touched| && touched[i].touch.operation == Deleted
      ensures touched[i].slug in SlugsOf(SelectTouched(touched, heads))
    {
      TargetSpec(touched[i], heads);
    }
  }

  /** `d[k] = v` keeps the keys distinct. */
  lemma PutDistinct(t: seq<Entry>, k: string, v: Touch)
    requires Distinct(SlugsOf(t))
    ensures Distinct(SlugsOf(Put(t, k, v)))
  {
    PutSlugs(t, k, v);
  }


  /** `main` classifies each processed skill: a deletion, an update of a live row, or an addition. */
  function RunOperation(skills: map<string, Row>, path: string, info: Touch): Operation {
    if info.operation == Deleted then Deleted
    else if path in skills && !skills[path].isDeleted then Updated
    else Added
  }

  /** The processing loop of `main`: every selected skill upserted in turn, with its own files. */
  function ProcessAll(db: Db, toProcess: seq<Entry>, cfg: Config, files: string -> SkillFiles): Db
    decreases |toProcess|
  {
    if toProcess == [] then db
    else
      var n := |toProcess|;
      var before := ProcessAll(db, toProcess[..n - 1], cfg, files);
      var e := toProcess[n - 1];
      UpsertAsWritten(before, e.slug, RunOperation(before.skills, e.slug, e.touch), e.touch.date, cfg, files(e.slug))
  }

  /** The processing loop keeps the weaker agreement of the upsert as written. */
  lemma {:induction false} ProcessAllAgrees(db: Db, toProcess: seq<Entry>, cfg: Config,
                                            files: string -> SkillFiles)
    requires AgreesAsWritten(db) && forall p :: ReportAgrees(files(p))
    ensures AgreesAsWritten(ProcessAll(db, toProcess, cfg, files))
    decreases |toProcess|
  {
    if toProcess != [] {
      var n := |toProcess|;
      var before := ProcessAll(db, toProcess[..n - 1], cfg, files);
      var e := toProcess[n - 1];
      var op := RunOperation(before.skills, e.slug, e.touch);
      assert ProcessAll(db, toProcess, cfg, files) == UpsertAsWritten(before, e.slug, op, e.touch.date, cfg, files(e.slug));
      ProcessAllAgrees(db, toProcess[..n - 1], cfg, files);
      assert ReportAgrees(files(e.slug));
      UpsertAsWrittenAgrees(before, e.slug, op, e.touch.date, cfg, files(e.slug));
    }
  }

  /** The processing loop keeps every row UNKNOWN-risk exactly when it has no scan date. */
  lemma {:induction false} ProcessAllRiskDated(db: Db, toProcess: seq<Entry>, cfg: Config,
                                               files: string -> SkillFiles)
    requires AllRiskDated(db.skills) && forall p :: ReportAgrees(files(p))
    ensures AllRiskDated(ProcessAll(db, toProcess, cfg, files).skills)
    decreases |toProcess|
  {
    if toProcess != [] {
      var n := |toProcess|;
      var before := ProcessAll(db, toProcess[..n - 1], cfg, files);
      var e := toProcess[n - 1];
      var op := RunOperation(before.skills, e.slug, e.touch);
      assert ProcessAll(db, toProcess, cfg, files) == UpsertAsWritten(before, e.slug, op, e.touch.date, cfg, files(e.slug));
      ProcessAllRiskDated(db, toProcess[..n - 1], cfg, files);
      assert ReportAgrees(files(e.slug));
      UpsertAsWrittenRiskDated(before, e.slug, op, e.touch.date, cfg, files(e.slug));
    }
  }

  /** The processing loop with the corrected upsert. */
  function ProcessAllCorrected(db: Db, toProcess: seq<Entry>, cfg: Config, files: string -> SkillFiles): Db
    decreases |toProcess|
  {
    if toProcess == [] then db
    else
      var n := |toProcess|;
      var before := ProcessAllCorrected(db, toProcess[..n - 1], cfg, files);
      var e := toProcess[n - 1];
      Upsert(before, e.slug, RunOperation(before.skills, e.slug, e.touch), e.touch.date, cfg, files(e.slug))
  }

  /** With the corrected upsert the processing loop keeps the stored findings in full agreement with the rows. */
  lemma {:induction false} ProcessAllCorrectedConsistent(db: Db, toProcess: seq<Entry>, cfg: Config,
                                                         files: string -> SkillFiles)
    requires Consistent(db) && forall p :: ReportAgrees(files(p))
    ensures Consistent(ProcessAllCorrected(db, toProcess, cfg, files))
    decreases |toProcess|
  {
    if toProcess != [] {
      var n := |toProcess|;
      var before := ProcessAllCorrected(db, toProcess[..n - 1], cfg, files);
      var e := toProcess[n - 1];
      var op := RunOperation(before.skills, e.slug, e.touch);
      assert ProcessAllCorrected(db, toProcess, cfg, files) == Upsert(before, e.slug, op, e.touch.date, cfg, files(e.slug));
      ProcessAllCorrectedConsistent(db, toProcess[..n - 1], cfg, files);
      assert ReportAgrees(files(e.slug));
      UpsertConsistent(before, e.slug, op, e.touch.date, cfg, files(e.slug));
    }
  }

  /**
   The part of `main` that changes the tables: nothing when an incremental run finds no new
   commits; otherwise the selected skills are upserted and, on an incremental run, the rows
   gone from HEAD are reconciled.
   */
  function Sync(db: Db, newCommits: seq<Commit>, heads: seq<string>, fullRescan: bool, cfg: Config,
                files: string -> SkillFiles, now: int): Db {
    if |newCommits| == 0 && !fullRescan then db
    else
      var toProcess := ToProcess(ExtractTouched(newCommits), heads, fullRescan, now);
      var processed := ProcessAll(db, toProcess, cfg, files);
      if fullRescan then processed else Reconcile(processed, HeadSet(heads), now).0
  }

  /**
   A sync run keeps the weaker agreement of the upsert as written, and after an incremental
   run with new commits every live row is a HEAD path.
   */
  lemma SyncSpec(db: Db, newCommits: seq<Commit>, heads: seq<string>, fullRescan: bool, cfg: Config,
                 files: string -> SkillFiles, now: int)
    requires AgreesAsWritten(db) && forall p :: ReportAgrees(files(p))
    ensures AgreesAsWritten(Sync(db, newCommits, heads, fullRescan, cfg, files, now))
    ensures |newCommits| > 0 && !fullRescan ==>
              var r := Sync(db, newCommits, heads, fullRescan, cfg, files, now);
              forall p :: p in r.skills && !r.skills[p].isDeleted ==> p in heads
  {
    if |newCommits| > 0 || fullRescan {
      var toProcess := ToProcess(ExtractTouched(newCommits), heads, fullRescan, now);
      var processed := ProcessAll(db, toProcess, cfg, files);
      ProcessAllAgrees(db, toProcess, cfg, files);
      if !fullRescan {
        ReconcileAgrees(processed, HeadSet(heads), now);
        ReconcileSpec(processed, HeadSet(heads), now);
      }
    }
  }

  /** A sync run keeps every row UNKNOWN-risk exactly when it has no scan date. */
  lemma SyncRiskDated(db: Db, newCommits: seq<Commit>, heads: seq<string>, fullRescan: bool, cfg: Config,
                      files: string -> SkillFiles, now: int)
    requires AllRiskDated(db.skills) && forall p :: ReportAgrees(files(p))
    ensures AllRiskDated(Sync(db, newCommits, heads, fullRescan, cfg, files, now).skills)
  {
    if |newCommits| > 0 || fullRescan {
      var toProcess := ToProcess(ExtractTouched(newCommits), heads, fullRescan, now);
      var processed := ProcessAll(db, toProcess, cfg, files);
      ProcessAllRiskDated(db, toProcess, cfg, files);
      if !fullRescan {
        ReconcileRiskDated(processed, HeadSet(heads), now);
      }
    }
  }

  /** A sync run with the corrected upsert. */
  function SyncCorrected(db: Db, newCommits: seq<Commit>, heads: seq<string>, fullRescan: bool, cfg: Config,
                         files: string -> SkillFiles, now: int): Db {
    if |newCommits| == 0 && !fullRescan then db
    else
      var toProcess := ToProcess(ExtractTouched(newCommits), heads, fullRescan, now);
      var processed := ProcessAllCorrected(db, toProcess, cfg, files);
      if fullRescan then processed else Reconcile(processed, HeadSet(heads), now).0
  }

  /**
   With the corrected upsert a sync run keeps the stored findings in full agreement with the
   rows, and after an incremental run with new commits every live row is a HEAD path.
   */
  lemma SyncCorrectedSpec(db: Db, newCommits: seq<Commit>, heads: seq<string>, fullRescan: bool, cfg: Config,
                          files: string -> SkillFiles, now: int)
    requires Consistent(db) && forall p :: ReportAgrees(files(p))
    ensures Consistent(SyncCorrected(db, newCommits, heads, fullRescan, cfg, files, now))
    ensures |newCommits| > 0 && !fullRescan ==>
              var r := SyncCorrected(db, newCommits, heads, fullRescan, cfg, files, now);
              forall p :: p in r.skills && !r.skills[p].isDeleted ==> p in heads
  {
    if |newCommits| > 0 || fullRescan {
      var toProcess := ToProcess(ExtractTouched(newCommits), heads, fullRescan, now);
      var processed := ProcessAllCorrected(db, toProcess, cfg, files);
      ProcessAllCorrectedConsistent(db, toProcess, cfg, files);
      if !fullRescan {
        ReconcileConsistent(processed, HeadSet(heads), now);
        ReconcileSpec(processed, HeadSet(heads), now);
      }
    }
  }
}
