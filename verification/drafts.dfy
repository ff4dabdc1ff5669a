/** The draft flag of a listed post: the text between the first and second
    `---` of the content, searched for the leftmost match of
    `draft:\s*(true|false)`; the flag is set iff that match captures "true".
    A content without any `---` has no such text, and reading it throws. */
module Drafts {
  import opened Basics
  import opened Strings

  /** Every character of `s` is white space. */
  predicate AllSpace(s: string) {
    forall k :: 0 <= k < |s| ==> IsSpace(s[k])
  }

  /** `draft:\s*word` matches in `s` starting at `i`: the key, any number of
      white-space characters, then `word`. */
  ghost predicate MatchesAt(s: string, i: int, word: string) {
    && OccursAt(s, "draft:", i)
    && exists k :: i + 6 <= k <= |s| && AllSpace(s[i + 6..k]) && OccursAt(s, word, k)
  }

  /** Some alternative of the pattern matches at `i`. */
  ghost predicate MatchAt(s: string, i: int) {
    MatchesAt(s, i, "true") || MatchesAt(s, i, "false")
  }

  /** The end of the run of white space that starts at `from`. */
  function SkipSpaces(s: string, from: nat): (k: nat)
    requires from <= |s|
    ensures from <= k <= |s| && AllSpace(s[from..k])
    ensures k < |s| ==> !IsSpace(s[k])
    decreases |s| - from
  {
    if from < |s| && IsSpace(s[from]) then
      var k := SkipSpaces(s, from + 1);
      assert s[from..k] == [s[from]] + s[from + 1..k];
      k
    else from
  }

  /** A word that does not start with white space can only follow the whole
      run of white space. */
  lemma {:induction false} WordAfterSpaces(s: string, from: nat, k: nat)
    requires from <= k < |s| && AllSpace(s[from..k]) && !IsSpace(s[k])
    ensures SkipSpaces(s, from) == k
    decreases k - from
  {
    if from < k {
      assert s[from] == s[from..k][0];
      assert s[from + 1..k] == s[from..k][1..];
      WordAfterSpaces(s, from + 1, k);
    }
  }

  lemma WordStart(s: string, word: string, k: int)
    requires word in {"true", "false"} && OccursAt(s, word, k)
    ensures k < |s| && s[k] == word[0] && !IsSpace(s[k])
  {
    assert s[k..k + |word|][0] == s[k];
  }

  /** The value the pattern captures when it matches at `i`. */
  function DraftAt(s: string, i: nat): (r: Option<bool>)
    ensures r == Some(true) <==> MatchesAt(s, i, "true")
    ensures r == Some(false) <==> MatchesAt(s, i, "false")
  {
    if !OccursAt(s, "draft:", i) then None
    else
      var k := SkipSpaces(s, i + 6);
      Only(s, i, "true");
      Only(s, i, "false");
      if OccursAt(s, "true", k) then
        assert s[k] == 't';
        Some(true)
      else if OccursAt(s, "false", k) then Some(false)
      else None
  }

  /** Where a word of the pattern matches after `draft:` at `i`, it starts
      where the white space ends. */
  lemma Only(s: string, i: nat, word: string)
    requires word in {"true", "false"} && OccursAt(s, "draft:", i)
    ensures MatchesAt(s, i, word) <==> OccursAt(s, word, SkipSpaces(s, i + 6))
  {
    if MatchesAt(s, i, word) {
      var k :| i + 6 <= k <= |s| && AllSpace(s[i + 6..k]) && OccursAt(s, word, k);
      WordStart(s, word, k);
      WordAfterSpaces(s, i + 6, k);
    }
  }

  /** The leftmost match at or after `from`, scanning as the regular
      expression engine does. */
  function FirstMatch(s: string, from: nat): (r: Option<bool>)
    ensures r.None? ==> forall i :: from <= i ==> !MatchAt(s, i)
    ensures r.Some? ==> exists i :: from <= i && DraftAt(s, i) == r && forall j :: from <= j < i ==> !MatchAt(s, j)
    decreases |s| + 1 - from
  {
    if from > |s| then None
    else
      match DraftAt(s, from)
      case Some(b) => Some(b)
      case None => FirstMatch(s, from + 1)
  }

  /** `frontMatter.match(/draft:\s*(true|false)/)`, then `draftMatch[1] ===
      "true"`, with `false` when nothing matches: the flag is set iff the
      leftmost match is the `true` alternative. */
  function Draft(front: string): (r: bool)
    ensures r <==> exists i :: MatchesAt(front, i, "true") && forall j :: 0 <= j < i ==> !MatchAt(front, j)
  {
    TrueFirst(front);
    FirstMatch(front, 0) == Some(true)
  }

  /** When the leftmost match is the `true` alternative, the scan reports `true`. */
  lemma TrueFirst(front: string)
    ensures (exists i :: MatchesAt(front, i, "true") && forall j :: 0 <= j < i ==> !MatchAt(front, j))
            ==> FirstMatch(front, 0) == Some(true)
  {
    if i :| MatchesAt(front, i, "true") && forall j :: 0 <= j < i ==> !MatchAt(front, j) {
      var m := FirstMatch(front, 0);
      assert MatchAt(front, i);
      var i' :| 0 <= i' && DraftAt(front, i') == m && forall j :: 0 <= j < i' ==> !MatchAt(front, j);
      assert MatchAt(front, i');
      assert i <= i' <= i;
      assert DraftAt(front, i) == Some(true);
    }
  }

  /** `content.split("---")[1]`: the text after the first `---` up to the
      next one, or to the end; nothing when the content has no `---`. */
  function FrontSection(text: string): (r: Option<string>)
    ensures r.None? <==> !Contains(text, "---")
    ensures forall i :: IndexOf(text, "---", 0) == Some(i) ==>
              r == Some(match IndexOf(text, "---", i + 3)
                        case None => text[i + 3..]
                        case Some(j) => text[i + 3..j])
  {
    var parts := Split(text, "---");
    match IndexOf(text, "---", 0)
    case None =>
      assert parts == [text];
      None
    case Some(i) =>
      SplitSecond(text, "---", i);
      Some(parts[1])
  }

  /** The draft flag of a fetched content, or nothing when reading it throws. */
  function DraftFlag(text: string): (r: Option<bool>)
    ensures r.None? <==> !Contains(text, "---")
    ensures r.Some? ==> r.value == Draft(FrontSection(text).value)
  {
    match FrontSection(text)
    case None => None
    case Some(front) => Some(Draft(front))
  }
}
