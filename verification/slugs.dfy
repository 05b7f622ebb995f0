/**
 Turning the slug a commit message names into an `author/skill` path of HEAD. The set of
 HEAD paths is given as the sequence in which Python happens to iterate it, since the
 lookup `build_slug_lookup` builds records colliding paths in that order.
 */
module Slugs {
  import opened Wrappers
  import opened Text

  /** A lookup value: the one path with that folder name, or the colliding paths as a list. */
  datatype LookupEntry = One(path: string) | Many(paths: seq<string>)

  type SlugLookup = map<string, LookupEntry>

  function EntryPaths(e: LookupEntry): seq<string> {
    match e
    case One(p) => [p]
    case Many(ps) => ps
  }

  function HeadSet(heads: seq<string>): set<string> {
    set x | x in heads
  }

  /** The folder part of a path, `path.split("/", 1)[1]`, when the path has a `/`. */
  function Folder(path: string): (r: Option<string>)
    ensures r.Some? <==> '/' in path
  {
    var parts := SplitOnce(path, '/');
    if |parts| == 2 then Some(parts[1]) else None
  }

  /** A path with a folder part is an author part free of `/`, a `/`, and the folder part. */
  lemma FolderSpec(path: string)
    requires '/' in path
    ensures exists a :: '/' !in a && path == a + ['/'] + Folder(path).value
  {
    var parts := SplitOnce(path, '/');
    assert '/' !in parts[0] && path == parts[0] + ['/'] + parts[1];
  }

  /** One iteration of `build_slug_lookup`. */
  function AddPath(m: SlugLookup, path: string): SlugLookup {
    match Folder(path)
    case None => m
    case Some(f) =>
      if f !in m then m[f := One(path)]
      else
        match m[f]
        case One(p) => m[f := Many([p, path])]
        case Many(ps) => m[f := Many(ps + [path])]
  }

  /** `build_slug_lookup`, over the paths in iteration order. */
  function BuildSlugLookup(heads: seq<string>): SlugLookup
    decreases |heads|
  {
    if heads == [] then map[] else AddPath(BuildSlugLookup(heads[..|heads| - 1]), heads[|heads| - 1])
  }

  /** The paths of `heads` whose folder part is `f`, in iteration order. */
  function InFolder(heads: seq<string>, f: string): seq<string>
    decreases |heads|
  {
    if heads == [] then []
    else
      var n := |heads|;
      InFolder(heads[..n - 1], f) + (if Folder(heads[n - 1]) == Some(f) then [heads[n - 1]] else [])
  }

  lemma {:induction false} InFolderMembers(heads: seq<string>, f: string)
    ensures forall x :: x in InFolder(heads, f) ==> x in heads && Folder(x) == Some(f)
    decreases |heads|
  {
    if heads != [] {
      var n := |heads|;
      InFolderMembers(heads[..n - 1], f);
      assert forall x :: x in heads[..n - 1] ==> x in heads;
    }
  }

  lemma AddPathOther(m: SlugLookup, path: string, f: string)
    requires Folder(path) != Some(f)
    ensures f in AddPath(m, path) <==> f in m
    ensures f in m ==> AddPath(m, path)[f] == m[f]
  {
  }

  lemma AddPathSame(m: SlugLookup, path: string, f: string)
    requires Folder(path) == Some(f)
    ensures f in AddPath(m, path)
    ensures f !in m ==> AddPath(m, path)[f] == One(path)
    ensures f in m ==> EntryPaths(AddPath(m, path)[f]) == EntryPaths(m[f]) + [path]
    ensures f in m ==> AddPath(m, path)[f].Many?
  {
  }

  /**
   What the lookup records: a folder name is a key exactly when some path has it as its
   folder part, and its entry lists those paths in iteration order, as a single path when
   there is one and as a list when they collide.
   */
  lemma {:induction false} BuildSlugLookupSpec(heads: seq<string>, f: string)
    ensures f in BuildSlugLookup(heads) <==> InFolder(heads, f) != []
    ensures f in BuildSlugLookup(heads) ==> EntryPaths(BuildSlugLookup(heads)[f]) == InFolder(heads, f)
    ensures f in BuildSlugLookup(heads) ==> (BuildSlugLookup(heads)[f].One? <==> |InFolder(heads, f)| == 1)
    decreases |heads|
  {
    if heads != [] {
      var n := |heads|;
      var init, path := heads[..n - 1], heads[n - 1];
      var m := BuildSlugLookup(init);
      assert BuildSlugLookup(heads) == AddPath(m, path);
      BuildSlugLookupSpec(init, f);
      if Folder(path) == Some(f) {
        assert InFolder(heads, f) == InFolder(init, f) + [path];
        AddPathSame(m, path, f);
      } else {
        assert InFolder(heads, f) == InFolder(init, f);
        AddPathOther(m, path, f);
      }
    }
  }

  /** Every list in the lookup holds at least two paths. */
  predicate WellFormed(lookup: SlugLookup) {
    forall k :: k in lookup && lookup[k].Many? ==> |lookup[k].paths| >= 2
  }

  lemma BuildSlugLookupWellFormed(heads: seq<string>)
    ensures WellFormed(BuildSlugLookup(heads))
  {
    forall k | k in BuildSlugLookup(heads) && BuildSlugLookup(heads)[k].Many?
      ensures |BuildSlugLookup(heads)[k].paths| >= 2
    {
      BuildSlugLookupSpec(heads, k);
    }
  }

  /**
   `resolve_skill_path`. A slug with a `/` is kept when it is a HEAD path, and otherwise
   resolved through its folder part, but only when that folder name is not ambiguous; a bare
   slug is looked up directly, and an ambiguous one resolves to the first colliding path.
   */
  function Resolve(slug: string, headSkills: set<string>, lookup: SlugLookup): Option<string>
    requires WellFormed(lookup)
  {
    if '/' in slug then
      if slug in headSkills then Some(slug)
      else
        var part := Folder(slug).value;
        if part in lookup && lookup[part].One? && lookup[part].path != "" then Some(lookup[part].path)
        else None
    else if slug !in lookup then None
    else
      match lookup[slug]
      case Many(ps) => Some(ps[0])
      case One(p) => Some(p)
  }

  /**
   With the lookup built from HEAD, a resolved slug is always a HEAD path, and the cases are
   exact: a HEAD path with a `/` is itself; another slug with a `/` resolves only when exactly
   one HEAD path has its folder part, to that path; a bare slug resolves when some HEAD path
   has it as its folder part, to the first of them.
   */
  lemma ResolveSpec(slug: string, heads: seq<string>)
    ensures WellFormed(BuildSlugLookup(heads))
    ensures var r := Resolve(slug, HeadSet(heads), BuildSlugLookup(heads));
      (r.Some? ==> r.value in heads)
      && ('/' in slug && slug in heads ==> r == Some(slug))
      && ('/' in slug && slug !in heads ==>
            (r.Some? <==> |InFolder(heads, Folder(slug).value)| == 1)
            && (r.Some? ==> r == Some(InFolder(heads, Folder(slug).value)[0])))
      && ('/' !in slug ==>
            (r.Some? <==> InFolder(heads, slug) != [])
            && (r.Some? ==> r == Some(InFolder(heads, slug)[0])))
  {
    BuildSlugLookupWellFormed(heads);
    var lookup := BuildSlugLookup(heads);
    var key := if '/' in slug then Folder(slug).value else slug;
    BuildSlugLookupSpec(heads, key);
    InFolderMembers(heads, key);
    if InFolder(heads, key) != [] {
      assert InFolder(heads, key)[0] in InFolder(heads, key);
      FolderSpec(InFolder(heads, key)[0]);
    }
  }
}
