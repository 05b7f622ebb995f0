/**
 The inline tag list of a SKILL.md frontmatter, `tags: [a, "b", 'c']`: the text between the
 brackets is split on commas, blank pieces are dropped, and each remaining piece is stripped
 of whitespace and then of quote characters.
 */
module Frontmatter {
  import opened Text

  /** The quote characters `strip('"\'')` removes. */
  predicate IsQuote(c: char) {
    c == '"' || c == '\''
  }

  /** `v.strip().strip('"\'')`: the clean-up applied to tags (and to the name and version). */
  function CleanValue(v: string): string {
    StripChars(Strip(v), IsQuote)
  }

  /** Cleaning a value adds no character to it. */
  lemma CleanValueKeepsOut(v: string, c: char)
    requires c !in v
    ensures c !in CleanValue(v)
  {
    StripCharsKeepsOut(v, IsSpace, c);
    StripCharsKeepsOut(Strip(v), IsQuote, c);
  }

  /** The pieces that are not blank, in order. */
  function NonBlank(pieces: seq<string>): (kept: seq<string>)
    ensures |kept| <= |pieces|
    ensures forall k :: 0 <= k < |kept| ==> kept[k] in pieces && Strip(kept[k]) != ""
    decreases |pieces|
  {
    if pieces == [] then []
    else
      var rest := NonBlank(pieces[1..]);
      assert forall x :: x in rest ==> x in pieces;
      if Strip(pieces[0]) != "" then [pieces[0]] + rest else rest
  }

  /** `[t.strip().strip('"\'') for t in tags_raw.split(',') if t.strip()]`. */
  function InlineTags(tagsRaw: string): (tags: seq<string>)
    ensures forall k :: 0 <= k < |tags| ==> ',' !in tags[k]
  {
    var kept := NonBlank(Split(tagsRaw, ','));
    var tags := seq(|kept|, i requires 0 <= i < |kept| => CleanValue(kept[i]));
    forall k | 0 <= k < |tags| ensures ',' !in tags[k] {
      CleanValueKeepsOut(kept[k], ',');
    }
    tags
  }

  /**
   A tag that the inline list writes back unchanged: non-empty, free of the `,` that separates
   tags and of the `]` that ends the list, and with no padding or quotes at its ends.
   */
  predicate CleanTag(t: string) {
    t != [] && ',' !in t && ']' !in t && !IsSpace(t[0]) && !IsSpace(t[|t| - 1]) && !IsQuote(t[0]) && !IsQuote(t[|t| - 1])
  }

  lemma CleanTagIsFixed(t: string)
    requires CleanTag(t)
    ensures Strip(t) == t && CleanValue(t) == t
  {
    StripCharsUnchanged(t, IsSpace);
    StripCharsUnchanged(t, IsQuote);
  }

  /** Writing clean tags as `a,b,c` and reading the list back gives the same tags. */
  lemma InlineTagsRoundTrip(ts: seq<string>)
    requires forall k :: 0 <= k < |ts| ==> CleanTag(ts[k])
    ensures InlineTags(Join(ts, ',')) == ts
  {
    if ts == [] {
      assert Split("", ',') == [""];
      assert Strip("") == "";
      assert NonBlank([""]) == [];
    } else {
      SplitJoin(ts, ',');
      forall k | 0 <= k < |ts| ensures Strip(ts[k]) != "" && CleanValue(ts[k]) == ts[k] {
        CleanTagIsFixed(ts[k]);
      }
      NonBlankOfNonBlank(ts);
      var tags := InlineTags(Join(ts, ','));
      assert |tags| == |ts|;
      assert forall k :: 0 <= k < |ts| ==> tags[k] == CleanValue(ts[k]);
    }
  }

  lemma {:induction false} NonBlankOfNonBlank(ts: seq<string>)
    requires forall k :: 0 <= k < |ts| ==> Strip(ts[k]) != ""
    ensures NonBlank(ts) == ts
    decreases |ts|
  {
    if ts != [] {
      assert forall k :: 0 <= k < |ts[1..]| ==> ts[1..][k] == ts[k + 1];
      NonBlankOfNonBlank(ts[1..]);
      assert [ts[0]] + ts[1..] == ts;
    }
  }
}
