/**
 The blacklist: lower-cased author names, categories and keywords, and the ordered
 first-match test `check_blacklist` applies to every skill.
 */
module Blacklists {
  import opened Wrappers
  import opened Text

  datatype Blacklist = Blacklist(authors: seq<string>, categories: seq<string>, keywords: seq<string>)

  /** The parsed file; a missing or empty list is `None`. */
  datatype RawBlacklist = RawBlacklist(
    authors: Option<seq<string>>, categories: Option<seq<string>>, keywords: Option<seq<string>>)

  datatype Verdict = Verdict(blacklisted: bool, reason: string)

  const EmptyBlacklist := Blacklist([], [], [])

  /** Every entry lower-cased, in list order. */
  function LowerAll(xs: seq<string>): (r: seq<string>)
    ensures |r| == |xs|
    ensures forall i :: 0 <= i < |xs| ==> r[i] == Lower(xs[i])
  {
    seq(|xs|, i requires 0 <= i < |xs| => Lower(xs[i]))
  }

  /**
   `load_blacklist`: no file, or a file that cannot be read or parsed (`None`), gives the
   empty blacklist; otherwise each list, missing ones taken as empty, is lower-cased.
   */
  function LoadBlacklist(data: Option<RawBlacklist>): (b: Blacklist)
    ensures data.None? ==> b == EmptyBlacklist
    ensures data.Some? ==>
              (forall x :: x in b.authors <==> exists a :: a in data.value.authors.GetOr([]) && Lower(a) == x)
              && (forall x :: x in b.categories <==> exists c :: c in data.value.categories.GetOr([]) && Lower(c) == x)
              && (forall x :: x in b.keywords <==> exists k :: k in data.value.keywords.GetOr([]) && Lower(k) == x)
    ensures data.Some? ==> var kws := data.value.keywords.GetOr([]);
              |b.keywords| == |kws| && forall i :: 0 <= i < |kws| ==> b.keywords[i] == Lower(kws[i])
  {
    match data
    case None => EmptyBlacklist
    case Some(raw) =>
      Blacklist(LowerAll(raw.authors.GetOr([])), LowerAll(raw.categories.GetOr([])),
                LowerAll(raw.keywords.GetOr([])))
  }

  /** Every entry of a loaded blacklist is already in lower case. */
  lemma LoadedIsLower(data: Option<RawBlacklist>)
    ensures var b := LoadBlacklist(data);
      (forall i :: 0 <= i < |b.authors| ==> Lower(b.authors[i]) == b.authors[i])
      && (forall i :: 0 <= i < |b.categories| ==> Lower(b.categories[i]) == b.categories[i])
      && (forall i :: 0 <= i < |b.keywords| ==> Lower(b.keywords[i]) == b.keywords[i])
  {
    var b := LoadBlacklist(data);
    forall i | 0 <= i < |b.authors| ensures Lower(b.authors[i]) == b.authors[i] {
      LowerIdempotent(data.value.authors.GetOr([])[i]);
    }
    forall i | 0 <= i < |b.categories| ensures Lower(b.categories[i]) == b.categories[i] {
      LowerIdempotent(data.value.categories.GetOr([])[i]);
    }
    forall i | 0 <= i < |b.keywords| ensures Lower(b.keywords[i]) == b.keywords[i] {
      LowerIdempotent(data.value.keywords.GetOr([])[i]);
    }
  }

  /** The first keyword, in list order, that occurs in `text`. */
  function FirstKeyword(keywords: seq<string>, text: string): (r: Option<nat>)
    ensures r.Some? ==> r.value < |keywords| && Contains(text, keywords[r.value])
                        && forall j :: 0 <= j < r.value ==> !Contains(text, keywords[j])
    ensures r.None? <==> forall j :: 0 <= j < |keywords| ==> !Contains(text, keywords[j])
    decreases |keywords|
  {
    if keywords == [] then None
    else if Contains(text, keywords[0]) then Some(0)
    else
      match FirstKeyword(keywords[1..], text)
      case None => None
      case Some(i) => Some(i + 1)
  }

  /** The text the keywords are searched in: name and description joined by a space, lower-cased. */
  function Combined(skillName: string, description: string): string {
    Lower(skillName + " " + description)
  }

  /** `check_blacklist`. */
  function CheckBlacklist(b: Blacklist, author: string, category: string, skillName: string, description: string)
    : (v: Verdict)
    ensures v.blacklisted <==> v.reason != ""
  {
    if Lower(author) in b.authors then Verdict(true, "blacklisted author: " + author)
    else if Lower(category) in b.categories then Verdict(true, "blacklisted category: " + category)
    else
      match FirstKeyword(b.keywords, Combined(skillName, description))
      case Some(i) => Verdict(true, "blacklisted keyword: " + b.keywords[i])
      case None => Verdict(false, "")
  }

  /**
   The precedence of the checks: the author, then the category, then the first listed keyword
   found in the combined text; a skill is let through, with an empty reason, exactly when none
   of the three matches.
   */
  lemma CheckBlacklistSpec(b: Blacklist, author: string, category: string, skillName: string, description: string)
    ensures var v := CheckBlacklist(b, author, category, skillName, description);
      var text := Combined(skillName, description);
      (Lower(author) in b.authors ==> v == Verdict(true, "blacklisted author: " + author))
      && (Lower(author) !in b.authors && Lower(category) in b.categories ==>
            v == Verdict(true, "blacklisted category: " + category))
      && (Lower(author) !in b.authors && Lower(category) !in b.categories ==>
            forall k :: 0 <= k < |b.keywords| && Contains(text, b.keywords[k])
                        && (forall j :: 0 <= j < k ==> !Contains(text, b.keywords[j])) ==>
              v == Verdict(true, "blacklisted keyword: " + b.keywords[k]))
      && (v == Verdict(false, "") <==>
            Lower(author) !in b.authors && Lower(category) !in b.categories
            && forall j :: 0 <= j < |b.keywords| ==> !Contains(text, b.keywords[j]))
  {
    var text := Combined(skillName, description);
    var first := FirstKeyword(b.keywords, text);
    forall k | 0 <= k < |b.keywords| && Contains(text, b.keywords[k])
               && (forall j :: 0 <= j < k ==> !Contains(text, b.keywords[j]))
      ensures first == Some(k)
    {
      assert first.Some?;
    }
  }

  /** The empty blacklist lets everything through. */
  lemma EmptyLetsThrough(author: string, category: string, skillName: string, description: string)
    ensures CheckBlacklist(EmptyBlacklist, author, category, skillName, description) == Verdict(false, "")
  {
  }
}
