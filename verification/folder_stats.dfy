/**
 `get_folder_stats`: size and file counts of a skill directory. The directory walk is an
 input: every entry the walk yields, with its path relative to the skill directory, whether
 it is a regular file, and its size when `stat` succeeds.
 */
module FolderStats {
  import opened Wrappers
  import opened Text
  import opened Paths

  /** One entry of the walk; `size == None` when `stat` raised `OSError`. */
  datatype Entry = Entry(relPath: string, isFile: bool, size: Option<nat>)

  datatype Stats = Stats(folderSizeBytes: nat, fileCount: nat, scriptCount: nat, mdCount: nat)

  const NoStats := Stats(0, 0, 0, 0)

  /** Some component of the relative path starts with a dot. */
  predicate Hidden(relPath: string) {
    exists k :: 0 <= k < |Parts(relPath)| && Parts(relPath)[k] != [] && Parts(relPath)[k][0] == '.'
  }

  /** A regular file that is not hidden: the entries the statistics count. */
  predicate Counted(e: Entry) {
    e.isFile && !Hidden(e.relPath)
  }

  function Ext(e: Entry): string {
    Lower(Suffix(Name(e.relPath)))
  }

  predicate IsScript(e: Entry) {
    Ext(e) == ".sh" || Ext(e) == ".py"
  }

  predicate IsMd(e: Entry) {
    Ext(e) == ".md"
  }

  function SizeOf(e: Entry): nat {
    e.size.GetOr(0)
  }

  /**
   One iteration of the walk: a hidden path or a non-file is skipped; otherwise the size
   (when `stat` succeeded) is added and the file is counted, as a script when its lower-cased
   suffix is `.sh` or `.py` and as Markdown when it is `.md`.
   */
  function Step(s: Stats, e: Entry): Stats {
    if !Counted(e) then s
    else Stats(s.folderSizeBytes + SizeOf(e), s.fileCount + 1,
               s.scriptCount + (if IsScript(e) then 1 else 0),
               s.mdCount + (if IsMd(e) then 1 else 0))
  }

  /** The statistics of a walk, defined entry by entry from the end. */
  function StatsOf(es: seq<Entry>): Stats
    decreases |es|
  {
    if es == [] then NoStats else Step(StatsOf(es[..|es| - 1]), es[|es| - 1])
  }

  /** The entries of a walk that satisfy a predicate, in walk order. */
  function Filter(es: seq<Entry>, p: Entry -> bool): (r: seq<Entry>)
    ensures |r| <= |es|
    ensures forall k :: 0 <= k < |r| ==> p(r[k]) && r[k] in es
    ensures forall e :: e in es && p(e) ==> e in r
    decreases |es|
  {
    if es == [] then []
    else
      var init := Filter(es[..|es| - 1], p);
      var e := es[|es| - 1];
      assert forall x :: x in es ==> x in es[..|es| - 1] || x == e;
      if p(e) then init + [e] else init
  }

  function TotalSize(es: seq<Entry>): nat
    decreases |es|
  {
    if es == [] then 0 else TotalSize(es[..|es| - 1]) + SizeOf(es[|es| - 1])
  }

  predicate CountedScript(e: Entry) {
    Counted(e) && IsScript(e)
  }

  predicate CountedMd(e: Entry) {
    Counted(e) && IsMd(e)
  }

  lemma FilterSnoc(es: seq<Entry>, e: Entry, p: Entry -> bool)
    ensures p(e) ==> Filter(es + [e], p) == Filter(es, p) + [e]
    ensures !p(e) ==> Filter(es + [e], p) == Filter(es, p)
  {
    assert (es + [e])[..|es|] == es;
  }

  lemma TotalSizeSnoc(es: seq<Entry>, e: Entry)
    ensures TotalSize(es + [e]) == TotalSize(es) + SizeOf(e)
  {
    assert (es + [e])[..|es|] == es;
  }

  lemma StatsOfSnoc(es: seq<Entry>, e: Entry)
    ensures StatsOf(es + [e]) == Step(StatsOf(es), e)
  {
    assert (es + [e])[..|es|] == es;
  }

  lemma {:induction false} FileCountMeaning(es: seq<Entry>)
    ensures StatsOf(es).fileCount == |Filter(es, Counted)|
    decreases |es|
  {
    if es != [] {
      var init, e := es[..|es| - 1], es[|es| - 1];
      assert es == init + [e];
      FileCountMeaning(init);
      StatsOfSnoc(init, e);
      FilterSnoc(init, e, Counted);
    }
  }

  lemma {:induction false} ScriptCountMeaning(es: seq<Entry>)
    ensures StatsOf(es).scriptCount == |Filter(es, CountedScript)|
    decreases |es|
  {
    if es != [] {
      var init, e := es[..|es| - 1], es[|es| - 1];
      assert es == init + [e];
      ScriptCountMeaning(init);
      StatsOfSnoc(init, e);
      FilterSnoc(init, e, CountedScript);
    }
  }

  lemma {:induction false} MdCountMeaning(es: seq<Entry>)
    ensures StatsOf(es).mdCount == |Filter(es, CountedMd)|
    decreases |es|
  {
    if es != [] {
      var init, e := es[..|es| - 1], es[|es| - 1];
      assert es == init + [e];
      MdCountMeaning(init);
      StatsOfSnoc(init, e);
      FilterSnoc(init, e, CountedMd);
    }
  }

  lemma {:induction false} SizeMeaning(es: seq<Entry>)
    ensures StatsOf(es).folderSizeBytes == TotalSize(Filter(es, Counted))
    decreases |es|
  {
    if es != [] {
      var init, e := es[..|es| - 1], es[|es| - 1];
      assert es == init + [e];
      SizeMeaning(init);
      StatsOfSnoc(init, e);
      FilterSnoc(init, e, Counted);
      if Counted(e) {
        TotalSizeSnoc(Filter(init, Counted), e);
      }
    }
  }

  /**
   What the statistics mean: the number of counted entries, of counted scripts and of
   counted Markdown files, and the sum of the counted sizes that `stat` could read.
   */
  lemma StatsOfMeaning(es: seq<Entry>)
    ensures StatsOf(es).fileCount == |Filter(es, Counted)|
    ensures StatsOf(es).scriptCount == |Filter(es, CountedScript)|
    ensures StatsOf(es).mdCount == |Filter(es, CountedMd)|
    ensures StatsOf(es).folderSizeBytes == TotalSize(Filter(es, Counted))
  {
    FileCountMeaning(es);
    ScriptCountMeaning(es);
    MdCountMeaning(es);
    SizeMeaning(es);
  }

  /** A file is never both a script and a Markdown file, so the two counts fit in the file count. */
  lemma {:induction false} StatsOfBounds(es: seq<Entry>)
    ensures StatsOf(es).scriptCount + StatsOf(es).mdCount <= StatsOf(es).fileCount
    decreases |es|
  {
    if es != [] {
      StatsOfBounds(es[..|es| - 1]);
    }
  }

  /** Entries that are hidden or not regular files do not change the statistics. */
  lemma {:induction false} StatsOfIgnores(es: seq<Entry>, e: Entry)
    requires !Counted(e)
    ensures StatsOf(es + [e]) == StatsOf(es)
  {
    assert (es + [e])[..|es|] == es;
  }

  /** `get_folder_stats`: one pass over the walk, skipping hidden paths and non-files. */
  method GetFolderStats(es: seq<Entry>) returns (st: Stats)
    ensures st == StatsOf(es)
    ensures st.fileCount == |Filter(es, Counted)| && st.fileCount <= |es|
    ensures st.scriptCount + st.mdCount <= st.fileCount
  {
    st := NoStats;
    var i := 0;
    while i < |es|
      invariant 0 <= i <= |es|
      invariant st == StatsOf(es[..i])
    {
      assert es[..i + 1][..i] == es[..i];
      st := Step(st, es[i]);
      i := i + 1;
    }
    assert es[..i] == es;
    StatsOfMeaning(es);
    StatsOfBounds(es);
  }
}
