/**
 The git history side of an incremental sync: the commits after the last processed one,
 and the skills their messages name. A `skill:` message names a skill that was added or
 changed, a `delete:` message one that was removed. Timestamps are opaque integers.
 */
module Commits {
  import opened Wrappers
  import opened Text

  datatype Commit = Commit(hash: string, authorName: string, date: int, message: string)

  datatype Operation = Added | Updated | Deleted

  /** What a commit message says about one skill. */
  datatype Touch = Touch(rawSlug: string, operation: Operation, date: int, gitAuthor: string)

  // ---------------------------------------------------------------------------
  // Commits after a checkpoint
  // ---------------------------------------------------------------------------

  /** The first position of a commit with hash `h`, if any. */
  function HashIndex(commits: seq<Commit>, h: string): (r: Option<nat>)
    ensures r.Some? ==> r.value < |commits| && commits[r.value].hash == h
                        && forall j :: 0 <= j < r.value ==> commits[j].hash != h
    ensures r.None? <==> forall j :: 0 <= j < |commits| ==> commits[j].hash != h
    decreases |commits|
  {
    if commits == [] then None
    else if commits[0].hash == h then Some(0)
    else
      match HashIndex(commits[1..], h)
      case None => None
      case Some(i) => Some(i + 1)
  }

  /**
   `get_commits_since` over the history in ascending date order: everything when there is
   no checkpoint or the checkpoint is not in the history (after a rebase, say), and otherwise
   the commits strictly after the first commit carrying the checkpoint hash.
   */
  function CommitsSince(commits: seq<Commit>, since: Option<string>): (r: seq<Commit>)
    ensures |r| <= |commits| && commits[|commits| - |r|..] == r
    ensures since.None? || since.value == "" ==> r == commits
    ensures since.Some? && since.value != "" && (forall j :: 0 <= j < |commits| ==> commits[j].hash != since.value)
            ==> r == commits
    ensures since.Some? && since.value != "" && r != commits ==>
              commits[|commits| - |r| - 1].hash == since.value
              && forall j :: 0 <= j < |commits| - |r| - 1 ==> commits[j].hash != since.value
  {
    match since
    case None => commits
    case Some(h) =>
      if h == "" then commits
      else
        match HashIndex(commits, h)
        case None => commits
        case Some(i) => commits[i + 1..]
  }

  /** With the checkpoint in the history, exactly the commits after its first occurrence are returned. */
  lemma CommitsSinceFound(commits: seq<Commit>, h: string, i: nat)
    requires h != "" && i < |commits| && commits[i].hash == h
    requires forall j :: 0 <= j < i ==> commits[j].hash != h
    ensures CommitsSince(commits, Some(h)) == commits[i + 1..]
  {
  }

  /**
   Resuming from the last processed commit: when the history so far ends with the checkpoint
   commit and no hash repeats, the next sync sees exactly the commits made since.
   */
  lemma ResumeFromCheckpoint(done: seq<Commit>, later: seq<Commit>)
    requires done != [] && done[|done| - 1].hash != ""
    requires forall i, j :: 0 <= i < j < |done + later| ==> (done + later)[i].hash != (done + later)[j].hash
    ensures CommitsSince(done + later, Some(done[|done| - 1].hash)) == later
  {
    var all := done + later;
    var i := |done| - 1;
    assert all[i] == done[i];
    assert forall j :: 0 <= j < i ==> all[j].hash != all[i].hash;
    CommitsSinceFound(all, done[i].hash, i);
    assert all[i + 1..] == later;
  }

  // ---------------------------------------------------------------------------
  // The two message patterns
  // ---------------------------------------------------------------------------

  /** The first position from `i` on whose character is not whitespace (`\s*` taken greedily). */
  function SkipSpace(s: string, i: nat): (r: nat)
    requires i <= |s|
    ensures i <= r <= |s|
    ensures forall j :: i <= j < r ==> IsSpace(s[j])
    ensures r < |s| ==> !IsSpace(s[r])
    decreases |s| - i
  {
    if i == |s| || !IsSpace(s[i]) then i else SkipSpace(s, i + 1)
  }

  /** The end of the longest run from `i` on of characters that `stop` rejects. */
  function RunEnd(s: string, i: nat, stop: char -> bool): (r: nat)
    requires i <= |s|
    ensures i <= r <= |s|
    ensures forall j :: i <= j < r ==> !stop(s[j])
    ensures r < |s| ==> stop(s[r])
    decreases |s| - i
  {
    if i == |s| || stop(s[i]) then i else RunEnd(s, i + 1, stop)
  }

  predicate SlashOrSpace(c: char) {
    c == '/' || IsSpace(c)
  }

  /** `skill:\s*([^\s]+)` tried at position `p`: the group is the word after `skill:`. */
  function MatchSkillAt(s: string, p: nat): (r: Option<string>)
    ensures r.Some? ==> r.value != [] && forall j :: 0 <= j < |r.value| ==> !IsSpace(r.value[j])
    ensures r.Some? ==> OccursAt(s, "skill:", p)
  {
    if !OccursAt(s, "skill:", p) then None
    else
      var a := SkipSpace(s, p + 6);
      var b := RunEnd(s, a, IsSpace);
      if a < b then Some(s[a..b]) else None
  }

  /** `author/skill`: two non-empty parts, no whitespace, exactly one `/`. */
  predicate AuthorSkill(x: string) {
    (forall j :: 0 <= j < |x| ==> !IsSpace(x[j]))
    && exists i :: 0 < i < |x| - 1 && x[i] == '/' && '/' !in x[..i] && '/' !in x[i + 1..]
  }

  lemma GroupShape(s: string, c: nat, d: nat, e: nat)
    requires c < d && d + 1 < e <= |s| && s[d] == '/'
    requires forall j :: c <= j < d ==> !SlashOrSpace(s[j])
    requires forall j :: d + 1 <= j < e ==> !SlashOrSpace(s[j])
    ensures AuthorSkill(s[c..e])
  {
    var x := s[c..e];
    var i := d - c;
    assert forall j :: 0 <= j < |x| ==> x[j] == s[c + j];
    var pre, post := x[..i], x[i + 1..];
    forall j | 0 <= j < |pre| ensures pre[j] != '/' {
      assert pre[j] == s[c + j];
    }
    forall j | 0 <= j < |post| ensures post[j] != '/' {
      assert post[j] == s[d + 1 + j];
    }
    assert x[i] == '/';
  }

  /** `delete:\s*skills/([^/\s]+/[^/\s]+)` tried at position `p`: the group is `author/skill`. */
  function MatchDeleteAt(s: string, p: nat): (r: Option<string>)
    ensures r.Some? ==> OccursAt(s, "delete:", p)
    ensures r.Some? ==> AuthorSkill(r.value)
    ensures r.Some? ==> exists a :: p + 7 <= a && OccursAt(s, "skills/", a)
  {
    if !OccursAt(s, "delete:", p) then None
    else
      var a := SkipSpace(s, p + 7);
      if !OccursAt(s, "skills/", a) then None
      else
        var c := a + 7;
        var d := RunEnd(s, c, SlashOrSpace);
        if c < d < |s| && s[d] == '/' then
          var e := RunEnd(s, d + 1, SlashOrSpace);
          if d + 1 < e then
            GroupShape(s, c, d, e);
            Some(s[c..e])
          else None
        else None
  }

  /** `re.search`: the match at the first position, from `p` on, where the pattern matches. */
  function Search(s: string, at: (string, nat) -> Option<string>, p: nat): (r: Option<string>)
    ensures r.Some? ==> exists q :: p <= q <= |s| && at(s, q) == r
    decreases |s| + 1 - p
  {
    if p > |s| then None
    else if at(s, p).Some? then at(s, p)
    else Search(s, at, p + 1)
  }

  /** A search finds nothing when the pattern matches at no position from `p` on. */
  lemma {:induction false} SearchNone(s: string, at: (string, nat) -> Option<string>, p: nat)
    requires forall q :: p <= q <= |s| ==> at(s, q).None?
    ensures Search(s, at, p) == None
    decreases |s| + 1 - p
  {
    if p <= |s| {
      SearchNone(s, at, p + 1);
    }
  }

  /**
   For a message that starts with `skill:` the search is in effect anchored at the start:
   when the word after the prefix is missing, the rest of the message is whitespace and
   `skill:` occurs nowhere later.
   */
  lemma SkillSearchAnchored(s: string)
    requires OccursAt(s, "skill:", 0)
    ensures Search(s, MatchSkillAt, 0) == MatchSkillAt(s, 0)
  {
    if MatchSkillAt(s, 0).None? {
      var a := SkipSpace(s, 6);
      assert a == |s|;
      forall q | 1 <= q <= |s| ensures !OccursAt(s, "skill:", q) {
        if q + 6 <= |s| {
          var k := if q >= 6 then q else q + 5;
          assert IsSpace(s[k]);
          assert s[q..q + 6][k - q] == s[k];
        }
      }
      SearchNone(s, MatchSkillAt, 1);
    }
  }

  /** The slug `extract_touched_skills_from_commits` reads off one commit, with what it says. */
  function Classify(c: Commit): (r: Option<(string, Touch)>)
    ensures r.Some? ==> r.value.1.rawSlug == r.value.0 && r.value.0 != ""
                        && r.value.1.date == c.date && r.value.1.gitAuthor == c.authorName
    ensures r.Some? && r.value.1.operation == Added ==> OccursAt(c.message, "skill:", 0)
    ensures r.Some? && r.value.1.operation == Deleted ==> !OccursAt(c.message, "skill:", 0) && OccursAt(c.message, "delete:", 0)
    ensures r.Some? ==> r.value.1.operation != Updated
    ensures !OccursAt(c.message, "skill:", 0) && !OccursAt(c.message, "delete:", 0) ==> r.None?
  {
    if OccursAt(c.message, "skill:", 0) then
      match Search(c.message, MatchSkillAt, 0)
      case Some(raw) =>
        if raw == "" then None else Some((raw, Touch(raw, Added, c.date, c.authorName)))
      case None => None
    else if OccursAt(c.message, "delete:", 0) then
      match Search(c.message, MatchDeleteAt, 0)
      case Some(path) =>
        if path == "" then None else Some((path, Touch(path, Deleted, c.date, c.authorName)))
      case None => None
    else None
  }

  /** `\s*` from `i` stops at `k` when everything before `k` is whitespace and `s[k]` is not. */
  lemma SkipSpaceTo(s: string, i: nat, k: nat)
    requires i <= k <= |s|
    requires forall j :: i <= j < k ==> IsSpace(s[j])
    requires k < |s| ==> !IsSpace(s[k])
    ensures SkipSpace(s, i) == k
  {
  }

  /** A run from `i` ends at `k` when `stop` rejects everything before `k` and accepts `s[k]`. */
  lemma RunEndTo(s: string, i: nat, k: nat, stop: char -> bool)
    requires i <= k <= |s|
    requires forall j :: i <= j < k ==> !stop(s[j])
    requires k < |s| ==> stop(s[k])
    ensures RunEnd(s, i, stop) == k
  {
  }

  /**
   `skill:`, optional whitespace, and a word that ends the message or is followed by
   whitespace: the group is exactly that word.
   */
  lemma MatchSkillAtWord(pre: string, ws: string, w: string, rest: string)
    requires forall j :: 0 <= j < |ws| ==> IsSpace(ws[j])
    requires w != [] && forall j :: 0 <= j < |w| ==> !IsSpace(w[j])
    requires rest == [] || IsSpace(rest[0])
    ensures MatchSkillAt(pre + "skill:" + ws + w + rest, |pre|) == Some(w)
  {
    var s := pre + "skill:" + ws + w + rest;
    var p := |pre|;
    var a, b := p + 6 + |ws|, p + 6 + |ws| + |w|;
    assert s[p..p + 6] == "skill:";
    assert s[p + 6..a] == ws;
    assert s[a..b] == w;
    assert s[b..] == rest;
    SkipSpaceTo(s, p + 6, a);
    RunEndTo(s, a, b, IsSpace);
  }

  /** `skill:` followed by nothing but whitespace has no group. */
  lemma MatchSkillAtNoWord(pre: string, ws: string)
    requires forall j :: 0 <= j < |ws| ==> IsSpace(ws[j])
    ensures MatchSkillAt(pre + "skill:" + ws, |pre|) == None
  {
    var s := pre + "skill:" + ws;
    var p := |pre|;
    assert s[p..p + 6] == "skill:";
    assert s[p + 6..] == ws;
    SkipSpaceTo(s, p + 6, |s|);
  }

  /**
   The delete pattern at `p` in index terms: `delete:` at `p`, whitespace up to `a`,
   `skills/` at `a`, an author part up to the `/` at `d`, and a skill part up to `e`.
   */
  lemma MatchDeleteAtSpan(s: string, p: nat, a: nat, d: nat, e: nat)
    requires OccursAt(s, "delete:", p) && p + 7 <= a && OccursAt(s, "skills/", a)
    requires forall j :: p + 7 <= j < a ==> IsSpace(s[j])
    requires a + 7 < d && d + 1 < e <= |s| && s[d] == '/'
    requires forall j :: a + 7 <= j < d ==> !SlashOrSpace(s[j])
    requires forall j :: d + 1 <= j < e ==> !SlashOrSpace(s[j])
    requires e < |s| ==> SlashOrSpace(s[e])
    ensures MatchDeleteAt(s, p) == Some(s[a + 7..e])
  {
    var c := a + 7;
    assert !IsSpace(s[a]) by {
      assert s[a] == s[a..c][0];
    }
    SkipSpaceTo(s, p + 7, a);
    RunEndTo(s, c, d, SlashOrSpace);
    RunEndTo(s, d + 1, e, SlashOrSpace);
    MatchDeleteAtRuns(s, p, a, d, e);
  }

  lemma MatchDeleteAtRuns(s: string, p: nat, a: nat, d: nat, e: nat)
    requires OccursAt(s, "delete:", p) && p + 7 <= |s| && SkipSpace(s, p + 7) == a && OccursAt(s, "skills/", a)
    requires a + 7 < d < |s| && s[d] == '/' && RunEnd(s, a + 7, SlashOrSpace) == d
    requires d + 1 < e <= |s| && RunEnd(s, d + 1, SlashOrSpace) == e
    ensures MatchDeleteAt(s, p) == Some(s[a + 7..e])
  {
  }

  /**
   `delete:`, optional whitespace, `skills/` and an `author/skill` pair whose skill part ends
   the message or is followed by `/` or whitespace: the group is exactly that pair.
   */
  lemma MatchDeleteAtPath(pre: string, ws: string, au: string, sk: string, rest: string)
    requires forall j :: 0 <= j < |ws| ==> IsSpace(ws[j])
    requires au != [] && forall j :: 0 <= j < |au| ==> !SlashOrSpace(au[j])
    requires sk != [] && forall j :: 0 <= j < |sk| ==> !SlashOrSpace(sk[j])
    requires rest == [] || SlashOrSpace(rest[0])
    ensures MatchDeleteAt(pre + "delete:" + ws + "skills/" + au + "/" + sk + rest, |pre|) == Some(au + "/" + sk)
  {
    var s1 := pre + "delete:";
    var s2 := s1 + ws;
    var s3 := s2 + "skills/";
    var s4 := s3 + au;
    var s5 := s4 + "/";
    var s6 := s5 + sk;
    var s := s6 + rest;
    var p, a, d, e := |pre|, |s2|, |s4|, |s6|;
    assert s[..e] == s6;
    assert s6[..|s5|] == s5 && s5[..d] == s4 && s4[..|s3|] == s3 && s3[..a] == s2 && s2[..|s1|] == s1;
    assert s[p..p + 7] == s1[p..] == "delete:";
    assert s[a..a + 7] == s3[a..] == "skills/";
    forall j | p + 7 <= j < a ensures IsSpace(s[j]) {
      assert s[j] == s2[j] == ws[j - p - 7];
    }
    forall j | a + 7 <= j < d ensures !SlashOrSpace(s[j]) {
      assert s[j] == s4[j] == au[j - a - 7];
    }
    assert s[d] == s5[d] == '/';
    forall j | d + 1 <= j < e ensures !SlashOrSpace(s[j]) {
      assert s[j] == s6[j] == sk[j - d - 1];
    }
    assert e < |s| ==> s[e] == rest[0];
    assert s[a + 7..e] == au + "/" + sk;
    MatchDeleteAtSpan(s, p, a, d, e);
  }

  /** A `skill:` message with a word after the prefix names that word as added. */
  lemma ClassifySkill(h: string, author: string, date: int, ws: string, w: string, rest: string)
    requires forall j :: 0 <= j < |ws| ==> IsSpace(ws[j])
    requires w != [] && forall j :: 0 <= j < |w| ==> !IsSpace(w[j])
    requires rest == [] || IsSpace(rest[0])
    ensures Classify(Commit(h, author, date, "skill:" + ws + w + rest)) == Some((w, Touch(w, Added, date, author)))
  {
    var m := "skill:" + ws + w + rest;
    assert [] + "skill:" + ws + w + rest == m;
    MatchSkillAtWord([], ws, w, rest);
    assert m[..6] == "skill:";
    SkillSearchAnchored(m);
  }

  /** A `skill:` message with nothing but whitespace after the prefix names nothing. */
  lemma ClassifySkillNoWord(h: string, author: string, date: int, ws: string)
    requires forall j :: 0 <= j < |ws| ==> IsSpace(ws[j])
    ensures Classify(Commit(h, author, date, "skill:" + ws)) == None
  {
    var m := "skill:" + ws;
    assert [] + "skill:" + ws == m;
    MatchSkillAtNoWord([], ws);
    assert m[..6] == "skill:";
    SkillSearchAnchored(m);
  }

  /** A `delete:` message whose first delete match is at the start names that match as deleted. */
  lemma ClassifyDeleteAt(c: Commit, path: string)
    requires OccursAt(c.message, "delete:", 0) && MatchDeleteAt(c.message, 0) == Some(path)
    ensures Classify(c) == Some((path, Touch(path, Deleted, c.date, c.authorName)))
  {
    assert !OccursAt(c.message, "skill:", 0) by {
      assert c.message[..7][0] == 'd';
    }
    assert Search(c.message, MatchDeleteAt, 0) == Some(path);
    assert path != "" by {
      assert AuthorSkill(path);
    }
  }

  /** A `delete:` message naming `skills/author/skill` names that pair as deleted. */
  lemma ClassifyDelete(h: string, author: string, date: int, ws: string, au: string, sk: string, rest: string)
    requires forall j :: 0 <= j < |ws| ==> IsSpace(ws[j])
    requires au != [] && forall j :: 0 <= j < |au| ==> !SlashOrSpace(au[j])
    requires sk != [] && forall j :: 0 <= j < |sk| ==> !SlashOrSpace(sk[j])
    requires rest == [] || SlashOrSpace(rest[0])
    ensures var path := au + "/" + sk;
      Classify(Commit(h, author, date, "delete:" + ws + "skills/" + au + "/" + sk + rest))
        == Some((path, Touch(path, Deleted, date, author)))
  {
    var m := "delete:" + ws + "skills/" + au + "/" + sk + rest;
    assert [] + "delete:" + ws + "skills/" + au + "/" + sk + rest == m;
    MatchDeleteAtPath([], ws, au, sk, rest);
    assert m[..7] == "delete:";
    ClassifyDeleteAt(Commit(h, author, date, m), au + "/" + sk);
  }

  /** A `delete:` message in which `skills/` occurs nowhere names nothing. */
  lemma ClassifyDeleteNoPath(c: Commit)
    requires OccursAt(c.message, "delete:", 0)
    requires forall a :: !OccursAt(c.message, "skills/", a)
    ensures Classify(c) == None
  {
    assert !OccursAt(c.message, "skill:", 0) by {
      assert c.message[..7][0] == 'd';
    }
    SearchNone(c.message, MatchDeleteAt, 0);
  }

  // ---------------------------------------------------------------------------
  // The touched-skills dictionary
  // ---------------------------------------------------------------------------

  /** A dictionary entry; a list of them, in insertion order, stands for the Python `dict`. */
  datatype Entry = Entry(slug: string, touch: Touch)

  function SlugsOf(t: seq<Entry>): (r: seq<string>)
    ensures |r| == |t| && forall i :: 0 <= i < |t| ==> r[i] == t[i].slug
  {
    seq(|t|, i requires 0 <= i < |t| => t[i].slug)
  }

  /** `d[k] = v`: an existing key keeps its position and takes the new value; a new key goes last. */
  function Put(t: seq<Entry>, k: string, v: Touch): seq<Entry>
    decreases |t|
  {
    if t == [] then [Entry(k, v)]
    else if t[0].slug == k then [Entry(k, v)] + t[1..]
    else [t[0]] + Put(t[1..], k, v)
  }

  /** `d.get(k)`. */
  function Get(t: seq<Entry>, k: string): Option<Touch>
    decreases |t|
  {
    if t == [] then None
    else if t[0].slug == k then Some(t[0].touch)
    else Get(t[1..], k)
  }

  predicate Distinct(xs: seq<string>) {
    forall i, j :: 0 <= i < j < |xs| ==> xs[i] != xs[j]
  }

  /** One iteration of `extract_touched_skills_from_commits`: a classified commit sets its slug. */
  function Record(t: seq<Entry>, m: Option<(string, Touch)>): seq<Entry> {
    match m
    case None => t
    case Some(kv) => Put(t, kv.0, kv.1)
  }

  /** `extract_touched_skills_from_commits`, commit by commit in history order. */
  function ExtractTouched(commits: seq<Commit>): seq<Entry>
    decreases |commits|
  {
    if commits == [] then []
    else Record(ExtractTouched(commits[..|commits| - 1]), Classify(commits[|commits| - 1]))
  }

  /** After `d[k] = v`, looking up `k` gives `v`. */
  lemma {:induction false} PutGetSame(t: seq<Entry>, k: string, v: Touch)
    ensures Get(Put(t, k, v), k) == Some(v)
    decreases |t|
  {
    if t != [] && t[0].slug != k {
      PutGetSame(t[1..], k, v);
      assert Put(t, k, v)[1..] == Put(t[1..], k, v);
    }
  }

  /** `d[k] = v` leaves every other key's value alone. */
  lemma {:induction false} PutGetOther(t: seq<Entry>, k: string, v: Touch, k': string)
    requires k' != k
    ensures Get(Put(t, k, v), k') == Get(t, k')
    decreases |t|
  {
    if t == [] {
      assert Put(t, k, v)[1..] == [];
    } else if t[0].slug == k {
      assert Put(t, k, v)[1..] == t[1..];
    } else {
      PutGetOther(t[1..], k, v, k');
      assert Put(t, k, v)[1..] == Put(t[1..], k, v);
    }
  }

  /** `d[k] = v` keeps the key order, adding `k` at the end when it is new. */
  lemma {:induction false} PutSlugs(t: seq<Entry>, k: string, v: Touch)
    ensures SlugsOf(Put(t, k, v)) == if k in SlugsOf(t) then SlugsOf(t) else SlugsOf(t) + [k]
    decreases |t|
  {
    if t != [] {
      assert SlugsOf(t) == [t[0].slug] + SlugsOf(t[1..]);
      if t[0].slug != k {
        PutSlugs(t[1..], k, v);
        assert SlugsOf(Put(t, k, v)) == [t[0].slug] + SlugsOf(Put(t[1..], k, v));
      }
    }
  }

  function MentionOf(m: Option<(string, Touch)>): seq<string> {
    match m
    case None => []
    case Some(kv) => [kv.0]
  }

  /** The slugs the commits name, one per classified commit, in history order. */
  function Mentions(commits: seq<Commit>): seq<string>
    decreases |commits|
  {
    if commits == [] then []
    else Mentions(commits[..|commits| - 1]) + MentionOf(Classify(commits[|commits| - 1]))
  }

  /** Each string of `xs` once, at its first occurrence. */
  function FirstMentions(xs: seq<string>): seq<string>
    decreases |xs|
  {
    if xs == [] then []
    else
      var init := FirstMentions(xs[..|xs| - 1]);
      if xs[|xs| - 1] in init then init else init + [xs[|xs| - 1]]
  }

  /** The touch of the last commit that names `k`, if any. */
  function LastTouch(commits: seq<Commit>, k: string): Option<Touch>
    decreases |commits|
  {
    if commits == [] then None
    else
      var m := Classify(commits[|commits| - 1]);
      if m.Some? && m.value.0 == k then Some(m.value.1) else LastTouch(commits[..|commits| - 1], k)
  }

  /** Each string of `xs` is in `FirstMentions(xs)`, once. */
  lemma {:induction false} FirstMentionsSpec(xs: seq<string>)
    ensures Distinct(FirstMentions(xs))
    ensures forall x :: x in FirstMentions(xs) <==> x in xs
    decreases |xs|
  {
    if xs != [] {
      var init := xs[..|xs| - 1];
      FirstMentionsSpec(init);
      assert xs == init + [xs[|xs| - 1]];
    }
  }

  /** The keys of the dictionary: each named slug once, in the order of its first mention. */
  lemma RecordSlugs(t: seq<Entry>, m: Option<(string, Touch)>, ms: seq<string>)
    requires SlugsOf(t) == FirstMentions(ms)
    ensures SlugsOf(Record(t, m)) == FirstMentions(ms + MentionOf(m))
  {
    match m
    case None =>
      assert ms + [] == ms;
    case Some(kv) =>
      PutSlugs(t, kv.0, kv.1);
      assert (ms + [kv.0])[..|ms|] == ms;
  }

  lemma RecordGet(t: seq<Entry>, m: Option<(string, Touch)>, k: string)
    ensures Get(Record(t, m), k) == if m.Some? && m.value.0 == k then Some(m.value.1) else Get(t, k)
  {
    if m.Some? {
      if m.value.0 == k {
        PutGetSame(t, m.value.0, m.value.1);
      } else {
        PutGetOther(t, m.value.0, m.value.1, k);
      }
    }
  }

  /** The keys of the dictionary: each named slug once, in the order of its first mention. */
  lemma {:induction false} ExtractTouchedSlugs(commits: seq<Commit>)
    ensures SlugsOf(ExtractTouched(commits)) == FirstMentions(Mentions(commits))
    decreases |commits|
  {
    if commits != [] {
      var init := commits[..|commits| - 1];
      ExtractTouchedSlugs(init);
      RecordSlugs(ExtractTouched(init), Classify(commits[|commits| - 1]), Mentions(init));
    }
  }

  /** The value under a slug: what the last commit naming it says (a later commit overwrites). */
  lemma {:induction false} ExtractTouchedGet(commits: seq<Commit>, k: string)
    ensures Get(ExtractTouched(commits), k) == LastTouch(commits, k)
    decreases |commits|
  {
    if commits != [] {
      var init := commits[..|commits| - 1];
      ExtractTouchedGet(init, k);
      RecordGet(ExtractTouched(init), Classify(commits[|commits| - 1]), k);
    }
  }

  /**
   The dictionary has one entry per slug named by some commit, in the order of each slug's
   first mention, and each slug's entry is what the last commit naming it says.
   */
  lemma ExtractTouchedSpec(commits: seq<Commit>)
    ensures SlugsOf(ExtractTouched(commits)) == FirstMentions(Mentions(commits))
    ensures Distinct(SlugsOf(ExtractTouched(commits)))
    ensures forall k :: k in SlugsOf(ExtractTouched(commits)) <==> k in Mentions(commits)
    ensures forall k :: Get(ExtractTouched(commits), k) == LastTouch(commits, k)
  {
    ExtractTouchedSlugs(commits);
    FirstMentionsSpec(Mentions(commits));
    forall k ensures Get(ExtractTouched(commits), k) == LastTouch(commits, k) {
      ExtractTouchedGet(commits, k);
    }
  }
}
