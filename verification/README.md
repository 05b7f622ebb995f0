# A verified model of the skills catalog builder

`skills_catalog.py` turns the history and HEAD tree of a repository of agent skills (each one
an `author/skill` folder with a `SKILL.md`) into a catalog database. This project models the
deterministic core of that program in Dafny and proves what it promises:

- **Security scan post-processing** (`Scanner`, `ScanReport`, `Severities`). The raw findings of
  `scan_skill_dir` are collected, with a rule's file-type filter and the evidence cut-off
  applied. They are then deduplicated on `(rule_id, file, line)` keeping the first,
  stable-sorted by `SEVERITY_ORDER`, and summarised as an overall risk and per-severity counts.
- **Folder statistics** (`FolderStats`): the sizes and counts of `get_folder_stats` over a given
  list of directory entries.
- **Categorisation** (`Categorize`): the weighted keyword scoring of `categorize_skill` over
  the program's 42-category table.
- **Blacklist** (`Blacklists`): `load_blacklist`'s lower-casing and the first-match decision of
  `check_blacklist`.
- **Frontmatter tags** (`Frontmatter`): the inline `tags: [...]` list of `parse_skill_md`.
- **Commit history** (`Commits`): the checkpoint slicing of `get_commits_since` and the
  message classification of `extract_touched_skills_from_commits`. The message patterns are
  `skill:\s*([^\s]+)` and `delete:\s*skills/([^/\s]+/[^/\s]+)`.
- **Slug resolution** (`Slugs`): `build_slug_lookup` and `resolve_skill_path`.
- **The catalog tables** (`Catalog`):
  - the rows of `skills` and the stored `scan_findings` as a map-to-map state;
  - the row semantics of `upsert_skill`, and `reconcile_deletions`;
  - the selection and processing loop of `main` that ties the pieces together;
  - a corrected upsert, processing loop and run beside the ones as written (see "## Findings").

Shared vocabulary lives in `Wrappers` (`Option`, Python's `x or default`), `Text`
(`str.lower`, `in`, `split`, `strip`, `\s`) and `Paths` (`Path.name`, `Path.suffix`).

Conventions:

- Python dictionaries whose order matters are association lists, and assigning to an existing
  key keeps its position. This covers the touched-skills dictionary and `to_process`.
- A Python `set` whose iteration order matters is the sequence in which it is iterated. This
  covers the HEAD skill set fed to `build_slug_lookup`.
- Regular-expression matching of the scanner rules is a function parameter
  `matches(pattern, line)`.
- The file system, the git table functions and the clock are inputs:
  - entry lists and file contents;
  - the ordered commit list and the HEAD path sequence;
  - integer timestamps.

## Model

| member | source | states |
|---|---|---|
| Severities.LessIsReverseRank | skills_catalog.py:39-51 | the enum's `<` holds exactly when the right operand comes earlier in `SEVERITY_ORDER`, and `>=` is its negation |
| Severities.LessIsStrictTotalOrder | skills_catalog.py:46-51 | `<` is irreflexive, asymmetric, transitive and total on distinct severities; `>=` is reflexive |
| Severities.RankInjective | skills_catalog.py:87 | two severities have the same `SEVERITY_ORDER` index only when they are equal |
| Scanner.AppliesByName | skills_catalog.py:426-428 | every rule checks `SKILL.md`, a wildcard rule checks every file, and whether a rule checks a file depends only on the file's name |
| Scanner.EvidenceSpec | skills_catalog.py:434-436 | evidence is the stripped line when it has at most 200 characters, otherwise its first 200 characters followed by "...", so never more than 203 |
| Scanner.LineFindingsMembership | skills_catalog.py:431-448 | a finding of one rule over a file is produced exactly when some pattern matches line k, and it then carries line number k+1 and that line's evidence |
| Scanner.LineFindingsFields | skills_catalog.py:431-448 | every finding of one rule names that rule, the file, and a line number between 1 and the number of lines |
| Scanner.LineFindingsDistinct | skills_catalog.py:431-448 | the first matching pattern ends the pattern loop, so one rule yields at most one finding per line |
| Scanner.RulesFindingsDistinct | skills_catalog.py:424-448 | rules with distinct ids never produce the same `(rule_id, file, line)` key twice within one file |
| Scanner.CollectFindingsDistinct | skills_catalog.py:419-448 | with distinct file paths and rule ids, the raw findings of a directory have distinct keys |
| Scanner.ScanSkillDir | skills_catalog.py:407-494 | a missing directory gives the UNKNOWN report with an error; otherwise the findings are the raw findings deduplicated and then sorted by severity, and the total is their number; the risk is never UNKNOWN, and is CLEAN for no findings and otherwise the risk of the most severe; the counts cover every severity, count its findings and add up to the total; with distinct rule ids and file paths nothing is dropped |
| ScanReport.Deduplicate | skills_catalog.py:450-457 | the loop keeps exactly one finding per key of the input, the first occurrence, in first-occurrence order, and so keeps as many findings as there are distinct keys |
| ScanReport.FirstOccurrencesKeys | skills_catalog.py:450-457 | the deduplicated list has distinct keys and exactly the keys of the input |
| ScanReport.FirstOccurrencesAreFirst | skills_catalog.py:450-457 | each kept finding is the input's first finding with its key |
| ScanReport.FirstOccurrencesOrdered | skills_catalog.py:450-457 | kept findings appear in the order of their keys' first occurrences |
| ScanReport.FirstOccurrencesOfDistinct | skills_catalog.py:450-457 | a list whose keys are already distinct passes deduplication unchanged |
| ScanReport.SortSpec | skills_catalog.py:459 | the sorted list is non-decreasing in `SEVERITY_ORDER` index and a permutation of its input |
| ScanReport.SortStable | skills_catalog.py:459 | the sort is stable: the findings of each severity keep their relative order |
| ScanReport.SortDistinct | skills_catalog.py:459 | sorting keeps the keys distinct |
| ScanReport.InsertSorted | skills_catalog.py:459 | inserting a finding after every finding of no lower rank keeps a sorted list sorted |
| ScanReport.InsertPermutation | skills_catalog.py:459 | one insertion adds exactly that finding to the multiset |
| ScanReport.OverallRisk | skills_catalog.py:461-470 | the risk is CLEAN exactly when every finding is INFO (including none); otherwise it is the risk of some present severity, and no finding is more severe |
| ScanReport.RiskOfSortedIsHead | skills_catalog.py:459-470 | on a severity-sorted list the overall risk is the risk of its first finding, CLEAN when empty |
| ScanReport.RiskPermutationInvariant | skills_catalog.py:461-470 | the overall risk does not depend on the order of the findings |
| ScanReport.BucketSizes | skills_catalog.py:472-474 | the five per-severity sublists together hold every finding |
| ScanReport.CountBySeverity | skills_catalog.py:472-474 | the counts start every `SEVERITY_ORDER` severity at 0, count each severity's findings, and add up to the number of findings |
| ScanReport.PostProcess | skills_catalog.py:450-494 | the report holds the deduplicated findings stable-sorted by severity; its total is their number and the number of distinct input keys; its counts sum to the total; its risk is that of the most severe finding |
| FolderStats.StatsOfMeaning | skills_catalog.py:501-530 | the file count is the number of non-hidden regular files; scripts are those ending `.sh`/`.py` and Markdown files those ending `.md`, case-insensitively; the size sums their sizes, with failed `stat` calls counting 0 |
| FolderStats.StatsOfBounds | skills_catalog.py:517-523 | scripts and Markdown files together never outnumber the counted files |
| FolderStats.StatsOfIgnores | skills_catalog.py:509-513 | a directory, or a path with a part starting with `.`, changes no statistic |
| FolderStats.GetFolderStats | skills_catalog.py:501-530 | the loop computes the statistics of the walk, counting at most every entry |
| Categorize.KeywordPointsRange | skills_catalog.py:764-773 | one keyword earns between nothing and four times its base (once in the name, three times in a non-empty description), and nothing exactly when it occurs in neither |
| Categorize.ExclusionHitsBounds | skills_catalog.py:774-776 | each exclusion found in the name or description costs one penalty, and none is charged exactly when none is found |
| Categorize.ScoreBounds | skills_catalog.py:763-778 | a score lies between -10 per exclusion and 20 per primary plus 8 per secondary keyword, and is 0 when no keyword hits |
| Categorize.ChooseSpec | skills_catalog.py:780-786 | no category is chosen exactly when every score is below 2; otherwise the choice scores at least 2, no category scores more, and every earlier category scores less |
| Categorize.CategorizeSkillSpec | skills_catalog.py:538-786 | over the program's table, the result is "Other" exactly when every score is below 2, and otherwise the name of the earliest category with the maximum score |
| Categorize.TableHasNoOther | skills_catalog.py:549-761 | the table has 42 categories and none of them is named "Other", so "Other" always means no category was chosen |
| Frontmatter.InlineTagsRoundTrip | skills_catalog.py:835-839 | tags with no comma, no `]` (which would end the captured list early) and no padding or quotes at their ends, written as the list `a,b,c`, are read back as the same tags |
| Frontmatter.CleanTagIsFixed | skills_catalog.py:838-839 | such a tag is left unchanged by `strip()` followed by `strip('"\'')` |
| Frontmatter.CleanValueKeepsOut | skills_catalog.py:838-839 | the tag clean-up never introduces a character |
| Blacklists.LoadBlacklist | skills_catalog.py:853-868 | a missing file gives three empty lists; otherwise a string is in a loaded list exactly when it is the lower-cased form of some entry of the file's list (a missing or empty list becoming empty), so the lists match case-insensitively; the keywords keep the file's order |
| Blacklists.LoadedIsLower | skills_catalog.py:861-865 | every loaded entry is already lower case |
| Blacklists.CheckBlacklistSpec | skills_catalog.py:871-889 | an author reason when the lower-cased author is listed, else a category reason when the lower-cased category is listed, else the first listed keyword in the lower-cased `name + " " + description`; not blacklisted exactly when none matches |
| Blacklists.CheckBlacklist | skills_catalog.py:871-889 | a skill is blacklisted exactly when its reason is non-empty |
| Blacklists.EmptyLetsThrough | skills_catalog.py:855-858 | with no blacklist file every skill passes with an empty reason |
| Commits.CommitsSince | skills_catalog.py:1019-1030 | the result is a suffix of the history; all commits when the hash is missing, empty or absent; otherwise the commits strictly after the hash's first position |
| Commits.CommitsSinceFound | skills_catalog.py:1027-1030 | with the checkpoint at its first position i, exactly the commits after i are returned |
| Commits.ResumeFromCheckpoint | skills_catalog.py:1019-1030 | with distinct hashes, resuming from the last processed commit returns exactly the commits that came after it |
| Commits.MatchSkillAt | skills_catalog.py:1061-1063 | a match of `skill:\s*([^\s]+)` captures a non-empty word with no whitespace, right after a `skill:` |
| Commits.MatchDeleteAt | skills_catalog.py:1074-1076 | a match of `delete:\s*skills/([^/\s]+/[^/\s]+)` captures an `author/skill` pair of two non-empty slash-free, space-free parts |
| Commits.SkillSearchAnchored | skills_catalog.py:1058-1061 | for a message starting with `skill:`, the regex search finds its match at the start |
| Commits.Classify | skills_catalog.py:1054-1082 | an added slug needs the `skill:` prefix; a deletion needs the `delete:` prefix and not `skill:`; no prefix yields nothing; a result records the captured slug, the commit's date and author, and is never an update |
| Commits.MatchSkillAtWord | skills_catalog.py:1061-1063 | `skill:`, optional whitespace and a word ended by whitespace or the message end capture exactly that word |
| Commits.MatchSkillAtNoWord | skills_catalog.py:1061-1062 | `skill:` followed only by whitespace does not match |
| Commits.MatchDeleteAtSpan | skills_catalog.py:1074-1076 | `delete:`, whitespace, `skills/`, a slash-free author part, `/` and a skill part ended by `/`, whitespace or the message end capture exactly `author/skill` |
| Commits.MatchDeleteAtPath | skills_catalog.py:1074-1076 | the same for a message built from those pieces: the group is `author + "/" + skill` |
| Commits.ClassifySkill | skills_catalog.py:1058-1070 | a message `skill:` + whitespace + word + rest names that word as added, with the commit's date and author |
| Commits.ClassifySkillNoWord | skills_catalog.py:1058-1063 | a message that is `skill:` followed only by whitespace names nothing |
| Commits.ClassifyDeleteAt | skills_catalog.py:1072-1082 | a `delete:` message whose delete match is at its start names the captured pair as deleted, with the commit's date and author |
| Commits.ClassifyDelete | skills_catalog.py:1072-1082 | a message `delete:` + whitespace + `skills/author/skill` + rest names `author/skill` as deleted |
| Commits.ClassifyDeleteNoPath | skills_catalog.py:1072-1076 | a `delete:` message in which `skills/` never occurs names nothing |
| Commits.PutGetSame | skills_catalog.py:1065-1070 | after `d[k] = v` looking up `k` gives `v` |
| Commits.PutGetOther | skills_catalog.py:1065-1070 | `d[k] = v` changes no other key |
| Commits.PutSlugs | skills_catalog.py:1065-1070 | `d[k] = v` keeps the key order and appends `k` only when it is new |
| Commits.ExtractTouchedSpec | skills_catalog.py:1047-1084 | the touched slugs are the named slugs in order of first mention, each once; each maps to the entry of the last commit that names it |
| Slugs.BuildSlugLookupSpec | skills_catalog.py:1087-1107 | a folder name is a key exactly when some HEAD path has it as its part after the first `/`; its entry lists those paths in iteration order, as one path when there is one and as a list when they collide |
| Slugs.BuildSlugLookupWellFormed | skills_catalog.py:1100-1106 | every collision list holds at least two paths |
| Slugs.FolderSpec | skills_catalog.py:1093-1095 | a path with a `/` is a slash-free author part, a `/`, and its folder part |
| Slugs.ResolveSpec | skills_catalog.py:1110-1133 | a resolved slug is a HEAD path; a HEAD path with `/` resolves to itself; another slug with `/` resolves only when its folder part is unambiguous, to that path; a bare slug resolves to the first HEAD path with that folder name |
| Catalog.AuthorNameSpec | skills_catalog.py:1152-1154 | a path with `/` splits into a slash-free author and the rest; without `/` the author is "unknown" and the name is the whole path |
| Catalog.ContentSpec | skills_catalog.py:1152-1200 | for a report as `scan_skill_dir` returns it, the written row's findings count is the number of findings about to be stored; its risk is UNKNOWN exactly when it has no scan date, which is exactly when it was not scanned; a scanned row carries the scan time; it is blacklisted exactly when it has a reason; it is live; its author and name give back the path |
| Catalog.WrittenRiskDated | skills_catalog.py:1165-1259 | writing a row that is UNKNOWN exactly when undated keeps every row of the table so |
| Catalog.UpsertAsWrittenRiskDated | skills_catalog.py:1140-1259 | `upsert_skill` keeps every row UNKNOWN-risk exactly when it has no scan date |
| Catalog.WrittenDeleteSpec | skills_catalog.py:1165-1172 | a deletion marks a known row deleted at the commit date, ignores an unknown path, and changes no other row |
| Catalog.WrittenRowSpec | skills_catalog.py:1207-1259 | an add or update writes the row under the path; an existing row keeps its date added and gets the commit date as date updated; a new row gets the commit date as date added and no date updated; no other row changes |
| Catalog.WrittenKeepsDateAdded | skills_catalog.py:1207-1209 | no upsert of a known path changes its date added |
| Catalog.AddedIsUpdated | skills_catalog.py:1165-1259 | the upsert treats "added" and "updated" alike |
| Catalog.StoreAsWrittenSpec | skills_catalog.py:1261-1276 | as written, an add or update replaces the path's stored findings only when the new scan found some; an empty list, a deletion and every other path leave them as they were |
| Catalog.StoreAsWrittenAgrees | skills_catalog.py:1195-1276 | as written, writing a row whose count is the length of the new list keeps stored findings confined to known rows, and keeps every row with a non-zero count beside exactly that many stored findings |
| Catalog.UpsertAsWrittenAgrees | skills_catalog.py:1140-1276 | `upsert_skill` as written, with a report whose total is its number of findings, preserves that weaker agreement |
| Catalog.StaleFindingsAsWritten | skills_catalog.py:1195-1276 | as written, a skill with stored findings that is rescanned clean, or not scanned, gets a count of 0 but keeps every old finding |
| Catalog.StoreSpec | skills_catalog.py:1261-1276 | corrected store: after an add or update the path's stored findings are exactly the new scan's, and absent when it found none; a deletion and every other path keep theirs |
| Catalog.StoreConsistent | skills_catalog.py:1195-1276 | corrected store: writing a row whose findings count is the length of the stored list keeps every path's stored findings equal in number to its row's count |
| Catalog.UpsertConsistent | skills_catalog.py:1140-1276 | corrected upsert: with a report whose total is its number of findings it preserves that full agreement |
| Catalog.ReconcileSpec | skills_catalog.py:1283-1301 | exactly the live rows missing from HEAD are marked deleted at the given time, and counted; deleted rows, rows in HEAD and the findings are unchanged; afterwards every live row is in HEAD |
| Catalog.ReconcileIdempotent | skills_catalog.py:1283-1301 | reconciling again against the same HEAD marks nothing and returns 0 |
| Catalog.ReconcileConsistent | skills_catalog.py:1283-1301 | reconciliation keeps stored findings and counts in agreement |
| Catalog.ReconcileAgrees | skills_catalog.py:1283-1301 | reconciliation keeps the weaker agreement of the upsert as written |
| Catalog.ReconcileRiskDated | skills_catalog.py:1283-1301 | reconciliation changes no row's risk or scan date, so keeps every row UNKNOWN exactly when undated |
| Catalog.AllHeadsKeys | skills_catalog.py:1726-1729 | a full rescan processes every HEAD path exactly once |
| Catalog.AllHeadsGet | skills_catalog.py:1726-1729 | each HEAD path of a full rescan is processed as added at the run's time |
| Catalog.TargetSpec | skills_catalog.py:1733-1740 | a deletion is processed under its own slug; another entry is processed exactly when its slug resolves to a non-empty path, under that path, which is a HEAD path |
| Catalog.SelectStepSpec | skills_catalog.py:1733-1740 | one touched entry stores its touch under its target, keeping every other key and value and the keys distinct; an entry without a target changes nothing |
| Catalog.SelectTouchedKeys | skills_catalog.py:1730-1742 | an incremental run processes each key once, and its keys are exactly the targets of the touched entries |
| Catalog.SelectTouchedGet | skills_catalog.py:1730-1742 | the touch processed under a key is that of the last touched entry targeting it |
| Catalog.SelectTouchedSpec | skills_catalog.py:1730-1742 | an incremental run processes each path once; every path is a HEAD path or the slug of a deletion message, and every deletion message's slug is processed |
| Catalog.ProcessAllAgrees | skills_catalog.py:1755-1787 | the processing loop, calling `upsert_skill` as written, keeps stored findings within known rows and every row with a non-zero count beside exactly that many stored findings |
| Catalog.SyncSpec | skills_catalog.py:1697-1795 | a run as written keeps that weaker agreement; after an incremental run with new commits every live row is a HEAD path |
| Catalog.ProcessAllRiskDated | skills_catalog.py:1755-1787 | the processing loop keeps every row UNKNOWN-risk exactly when it has no scan date |
| Catalog.SyncRiskDated | skills_catalog.py:1697-1795 | a run keeps every row UNKNOWN-risk exactly when it has no scan date |
| Catalog.ProcessAllCorrectedConsistent | skills_catalog.py:1755-1787 | the processing loop with the corrected upsert keeps every path's stored findings equal in number to its row's count |
| Catalog.SyncCorrectedSpec | skills_catalog.py:1697-1795 | a run with the corrected upsert keeps that full agreement; after an incremental run with new commits every live row is a HEAD path |

## Left out

- The rule bodies of `build_rules` and regular-expression semantics: a rule's match on a line
  is the parameter `matches`.
- The directory walk of `_collect_dir_files`, file reads and `stat`: each is a given list of
  files (path and optional content) or of entries (path, is-file, optional size). The
  `SCANNABLE_EXTENSIONS` and excluded-directory filter of `_collect_dir_files` is part of
  producing that list and is not modelled. `get_folder_stats` wraps its whole walk in a
  `try`/`except Exception`, so an error during `rglob` ends the walk and keeps the counts so
  far; the entry list then stands for the entries walked before the error.
- DuckDB, the SQL schema and statements, and the `git_log`/`git_tree` table functions:
  - tables are maps;
  - the history is a list ordered by date;
  - HEAD is a sequence of paths;
  - `get_head_skills` and `get_head_commit` are not part of this model.
- `scan_findings` ids and `scanned_at`: the stored findings of a path are the list in `id` order.
- `parse_skill_md` apart from the inline tag list: the frontmatter fields a row uses are inputs.
  The excluded parts are the frontmatter regex, the name and version lines, the multiline
  description, and the YAML-list tag form, all regex-dependent.
- `load_blacklist`'s YAML parsing and its error path: the parsed file is an input.
- GitHub author enrichment over HTTP, Parquet export, `print_stats`, progress output, the
  counters of `main`, argument parsing, and the `meta` table updates: all I/O or reporting.
- Exceptions raised inside an upsert, which `main` catches and counts: the model's upsert
  always completes.
- Timestamps and `datetime.now()`: integers supplied as inputs.
- Catalog.ContentSpec: the skill tags are stored as the list itself, not as its JSON text. The
  frontmatter fallbacks, the category and the folder statistics of the row are the definition
  of `Catalog.Content` and are not restated as a separate property. It assumes the report is
  one `scan_skill_dir` could return, as `Catalog.UpsertConsistent` does.
- Text.Lower: only ASCII letters are folded, whereas Python's `str.lower` folds all of Unicode.
  The model's categoriser and blacklist are exact for ASCII text.
- Catalog.AllHeadsGet: the full-rescan entries carry an empty raw slug and git author, which
  the program leaves out of that dictionary and never reads.
- Catalog.UpsertConsistent: assumes, as `ScanReport.PostProcess` and `Scanner.ScanSkillDir`
  guarantee, that a report's total equals its number of findings and that the report of an
  existing directory is never UNKNOWN; the program reads both from the same report.
- Catalog.StoreSpec: states the corrected store, which clears a path's findings when the new
  scan found none; the program keeps them, as `Catalog.StoreAsWrittenSpec` states.
- Catalog.StoreConsistent: holds for the corrected store only; as written only the weaker
  `Catalog.StoreAsWrittenAgrees` holds.
- Catalog.UpsertConsistent: holds for the corrected upsert only; as written only the weaker
  `Catalog.UpsertAsWrittenAgrees` holds, and `Catalog.StaleFindingsAsWritten` shows the full
  agreement failing.
- Catalog.ProcessAllCorrectedConsistent: holds for the corrected processing loop only; the
  program's loop keeps only the weaker agreement of `Catalog.ProcessAllAgrees`.
- Catalog.SyncCorrectedSpec: holds for a run with the corrected upsert only; the program's run
  keeps only the weaker agreement of `Catalog.SyncSpec`.
- Catalog.UpsertAsWrittenAgrees: assumes, as `Catalog.UpsertConsistent` does, that a report's
  total equals its number of findings and that its risk is never UNKNOWN.
- Categorize: the category table is data. `Catalog` takes the table as part of its
  configuration, and the program's table is `Categorize.Table`.

## Findings

| source | as written | input that shows it | evidently intended | confidence | as-written member | corrected member |
|---|---|---|---|---|---|---|
| skills_catalog.py:1261-1276 | old `scan_findings` rows of a skill are deleted only when the new scan found something | a skill stored with findings whose files are fixed, or processed with `--no-scan`, so that `scan_findings_list` is empty: its row says 0 findings but its old findings stay | the stored findings of a rescanned skill always match the new scan: cleared when it found none | not executed | Catalog.StaleFindingsAsWritten | Catalog.UpsertConsistent |
