/** The JavaScript and Kotlin string primitives the client relies on
    (`indexOf`, `includes`, `startsWith`, `endsWith`, `replace` with a string
    pattern, `split`, `join`, `trim`, `toLowerCase`, `removeSuffix`), plus the
    leftmost-lazy matcher that the two front-matter regular expressions
    `---[\s\S]*?---\n\n` and `---\n([\s\S]*?)\n---` amount to. */
module Strings {
  import opened Basics

  /** `pat` occurs in `s` starting at index `i`. */
  predicate OccursAt(s: string, pat: string, i: int) {
    0 <= i && i + |pat| <= |s| && s[i..i + |pat|] == pat
  }

  /** `s.indexOf(pat, from)`: the first index at or after `from` where `pat` occurs. */
  function IndexOf(s: string, pat: string, from: nat): (r: Option<nat>)
    ensures r.Some? ==> from <= r.value && OccursAt(s, pat, r.value)
    ensures r.Some? ==> forall j :: from <= j < r.value ==> !OccursAt(s, pat, j)
    ensures r.None? ==> forall j :: from <= j ==> !OccursAt(s, pat, j)
    decreases |s| - from
  {
    if from + |pat| > |s| then None
    else if s[from..from + |pat|] == pat then Some(from)
    else IndexOf(s, pat, from + 1)
  }

  /** An occurrence with nothing earlier from `from` on is what `IndexOf` finds. */
  lemma IndexOfIs(s: string, pat: string, from: nat, k: nat)
    requires from <= k && OccursAt(s, pat, k)
    requires forall j :: from <= j < k ==> !OccursAt(s, pat, j)
    ensures IndexOf(s, pat, from) == Some(k)
  {
  }

  /** `s.includes(pat)`. */
  function Contains(s: string, pat: string): (r: bool)
    ensures r <==> exists i :: OccursAt(s, pat, i)
  {
    IndexOf(s, pat, 0).Some?
  }

  /** `s.startsWith(p)`. */
  predicate StartsWith(s: string, p: string) {
    |p| <= |s| && s[..|p|] == p
  }

  /** `s.endsWith(p)`. */
  predicate EndsWith(s: string, p: string) {
    |p| <= |s| && s[|s| - |p|..] == p
  }

  /** An occurrence inside a prefix of `s` is an occurrence in `s`. */
  lemma OccursInPrefix(s: string, pat: string, n: nat)
    requires n <= |s|
    ensures forall j :: OccursAt(s[..n], pat, j) ==> OccursAt(s, pat, j)
  {
    forall j | OccursAt(s[..n], pat, j)
      ensures OccursAt(s, pat, j)
    {
      assert s[..n][j..j + |pat|] == s[j..j + |pat|];
    }
  }

  /** A one-character pattern occurs exactly where that character is. */
  lemma CharOccurs(s: string, c: char)
    ensures forall j :: OccursAt(s, [c], j) <==> 0 <= j < |s| && s[j] == c
  {
    forall j | 0 <= j < |s|
      ensures OccursAt(s, [c], j) <==> s[j] == c
    {
      assert s[j..j + 1] == [s[j]];
    }
  }

  /** `s.replace(pat, rep)` with a string pattern: only the first occurrence is replaced. */
  function ReplaceFirst(s: string, pat: string, rep: string): (r: string)
    ensures !Contains(s, pat) ==> r == s
    ensures forall i :: OccursAt(s, pat, i) && (forall j :: 0 <= j < i ==> !OccursAt(s, pat, j))
                        ==> r == s[..i] + rep + s[i + |pat|..]
  {
    match IndexOf(s, pat, 0)
    case None => s
    case Some(i) => s[..i] + rep + s[i + |pat|..]
  }

  /** Kotlin `s.removeSuffix(suffix)`: strips the suffix once, and only when present. */
  function RemoveSuffix(s: string, suffix: string): (r: string)
    ensures EndsWith(s, suffix) ==> r + suffix == s
    ensures !EndsWith(s, suffix) ==> r == s
  {
    if EndsWith(s, suffix) then s[..|s| - |suffix|] else s
  }

  /** `parts.join(sep)`. */
  function Join(parts: seq<string>, sep: string): string {
    if |parts| == 0 then ""
    else if |parts| == 1 then parts[0]
    else parts[0] + sep + Join(parts[1..], sep)
  }

  /** Joining two non-empty lists of parts one after the other puts one
      separator between their joins. */
  lemma {:induction false} JoinAppend(a: seq<string>, b: seq<string>, sep: string)
    requires |a| >= 1 && |b| >= 1
    ensures Join(a + b, sep) == Join(a, sep) + sep + Join(b, sep)
    decreases |a|
  {
    if |a| == 1 {
      assert (a + b)[1..] == b;
    } else {
      assert (a + b)[1..] == a[1..] + b;
      JoinAppend(a[1..], b, sep);
    }
  }

  /** `s.split(sep)` for a non-empty string separator: the pieces between the
      non-overlapping occurrences found scanning left to right. Joining them
      back gives `s`; where the cuts fall is stated by `SplitCuts`. */
  function Split(s: string, sep: string): (r: seq<string>)
    requires sep != []
    ensures |r| >= 1
    ensures Join(r, sep) == s
    decreases |s|
  {
    match IndexOf(s, sep, 0)
    case None => [s]
    case Some(i) =>
      var rest := Split(s[i + |sep|..], sep);
      assert s == s[..i] + sep + s[i + |sep|..];
      [s[..i]] + rest
  }

  /** Pieces that join back to `s` with every cut at the first occurrence
      of `sep` after the previous one (no piece followed by its separator
      holds an earlier occurrence), and none in the last piece. */
  predicate CutAtFirst(r: seq<string>, sep: string, s: string)
    requires sep != []
  {
    && |r| >= 1 && Join(r, sep) == s
    && (forall k :: 0 <= k < |r| - 1 ==> !Contains(r[k] + sep[..|sep| - 1], sep))
    && !Contains(r[|r| - 1], sep)
  }

  /** Every cut of a split is at the first occurrence after the previous
      one, and the last piece holds no separator. */
  lemma {:induction false} SplitCuts(s: string, sep: string)
    requires sep != []
    ensures CutAtFirst(Split(s, sep), sep, s)
    decreases |s|
  {
    match IndexOf(s, sep, 0)
    case None =>
      assert Split(s, sep) == [s];
    case Some(i) =>
      var rest := Split(s[i + |sep|..], sep);
      SplitCuts(s[i + |sep|..], sep);
      CutStep(s, sep, i, rest);
      SplitCons(s, sep, i);
  }

  /** Putting the text before the first occurrence in front of the pieces
      of the text after it keeps what `Split` promises. */
  lemma CutStep(s: string, sep: string, i: nat, rest: seq<string>)
    requires sep != []
    requires IndexOf(s, sep, 0) == Some(i)
    requires CutAtFirst(rest, sep, s[i + |sep|..])
    ensures CutAtFirst([s[..i]] + rest, sep, s)
  {
    var t := s[i + |sep|..];
    assert s == s[..i] + sep + t by {
      assert OccursAt(s, sep, i);
    }
    FirstCut(s, sep, i);
    ConsCut(s[..i], sep, t, rest);
  }

  /** A piece with no occurrence before its separator can be put in front
      of pieces cut at first occurrences. */
  lemma ConsCut(p: string, sep: string, t: string, rest: seq<string>)
    requires sep != []
    requires !Contains(p + sep[..|sep| - 1], sep)
    requires CutAtFirst(rest, sep, t)
    ensures CutAtFirst([p] + rest, sep, p + sep + t)
  {
    var r := [p] + rest;
    assert r[1..] == rest;
    assert Join(r, sep) == p + sep + Join(rest, sep);
    forall k | 1 <= k < |r| - 1
      ensures !Contains(r[k] + sep[..|sep| - 1], sep)
    {
      assert r[k] == rest[k - 1];
    }
    assert r[|r| - 1] == rest[|rest| - 1];
  }

  /** The text before the first occurrence, followed by all but the last
      character of the separator, holds no occurrence. */
  lemma FirstCut(s: string, sep: string, i: nat)
    requires sep != []
    requires IndexOf(s, sep, 0) == Some(i)
    ensures !Contains(s[..i] + sep[..|sep| - 1], sep)
  {
    var n := i + |sep| - 1;
    assert s[..i] + sep[..|sep| - 1] == s[..n] by {
      assert s[i..i + |sep|] == sep;
    }
    forall j | 0 <= j && j + |sep| <= n
      ensures !OccursAt(s[..n], sep, j)
    {
      assert s[..n][j..j + |sep|] == s[j..j + |sep|];
      assert !OccursAt(s, sep, j);
    }
  }

  /** The pieces `Split` produces are the only ones that join back to `s`
      with every cut at the first occurrence and none in the last piece. */
  lemma {:induction false} SplitUnique(s: string, sep: string, r: seq<string>)
    requires sep != []
    requires CutAtFirst(r, sep, s)
    ensures r == Split(s, sep)
    decreases |r|
  {
    if |r| == 1 {
      assert s == r[0];
      assert IndexOf(s, sep, 0).None?;
    } else {
      var n := |r[0]|;
      var rest := Join(r[1..], sep);
      UniqueHead(s, sep, r);
      SplitUnique(rest, sep, r[1..]);
      SplitCons(s, sep, n);
      assert r == [r[0]] + r[1..];
    }
  }

  /** The first piece of such a list ends at the first occurrence, and the
      remaining pieces are again such a list for the text after it. */
  lemma UniqueHead(s: string, sep: string, r: seq<string>)
    requires sep != [] && |r| >= 2
    requires CutAtFirst(r, sep, s)
    ensures IndexOf(s, sep, 0) == Some(|r[0]|)
    ensures s[..|r[0]|] == r[0]
    ensures s[|r[0]| + |sep|..] == Join(r[1..], sep)
    ensures CutAtFirst(r[1..], sep, Join(r[1..], sep))
  {
    var rest := Join(r[1..], sep);
    assert s == r[0] + sep + rest;
    FirstAt(r[0], sep, rest);
    assert s[..|r[0]|] == r[0];
    assert s[|r[0]| + |sep|..] == rest;
    forall k | 0 <= k < |r[1..]| - 1
      ensures !Contains(r[1..][k] + sep[..|sep| - 1], sep)
    {
      assert r[1..][k] == r[k + 1];
    }
  }

  /** When `p` followed by all but the last character of `sep` holds no
      occurrence, the first occurrence in `p + sep + rest` is right after `p`. */
  lemma FirstAt(p: string, sep: string, rest: string)
    requires sep != []
    requires !Contains(p + sep[..|sep| - 1], sep)
    ensures IndexOf(p + sep + rest, sep, 0) == Some(|p|)
  {
    var s := p + sep + rest;
    var n := |p|;
    assert OccursAt(s, sep, n) by {
      assert s[n..n + |sep|] == sep;
    }
    var t := p + sep[..|sep| - 1];
    assert t == s[..n + |sep| - 1];
    forall j | 0 <= j < n
      ensures !OccursAt(s, sep, j)
    {
      assert !OccursAt(t, sep, j);
      assert t[j..j + |sep|] == s[j..j + |sep|];
    }
    IndexOfIs(s, sep, 0, n);
  }

  /** No piece of a split contains the separator. */
  lemma {:induction false} SplitPiecesFree(s: string, sep: string)
    requires sep != []
    ensures forall k :: 0 <= k < |Split(s, sep)| ==> !Contains(Split(s, sep)[k], sep)
    decreases |s|
  {
    match IndexOf(s, sep, 0)
    case None =>
    case Some(i) =>
      OccursInPrefix(s, sep, i);
      SplitPiecesFree(s[i + |sep|..], sep);
      assert Split(s, sep) == [s[..i]] + Split(s[i + |sep|..], sep);
  }

  /** Splitting at a single character undoes joining with it, provided no
      part contains that character. */
  lemma {:induction false} SplitJoin(parts: seq<string>, c: char)
    requires |parts| >= 1
    requires forall k :: 0 <= k < |parts| ==> c !in parts[k]
    ensures Split(Join(parts, [c]), [c]) == parts
    decreases |parts|
  {
    var s := Join(parts, [c]);
    if |parts| == 1 {
      CharOccurs(s, c);
      assert s == parts[0];
    } else {
      var p0 := parts[0];
      JoinCharHead(parts, c);
      SplitJoin(parts[1..], c);
      SplitCons(s, [c], |p0|);
      assert parts == [p0] + parts[1..];
    }
  }

  /** Joined with a character no part holds, the first occurrence of that
      character ends the first part. */
  lemma JoinCharHead(parts: seq<string>, c: char)
    requires |parts| >= 2
    requires c !in parts[0]
    ensures IndexOf(Join(parts, [c]), [c], 0) == Some(|parts[0]|)
    ensures Join(parts, [c])[..|parts[0]|] == parts[0]
    ensures Join(parts, [c])[|parts[0]| + 1..] == Join(parts[1..], [c])
  {
    var s := Join(parts, [c]);
    var p0 := parts[0];
    CharOccurs(s, c);
    assert s == p0 + [c] + Join(parts[1..], [c]);
    assert s[|p0|] == c;
    forall j | 0 <= j < |p0|
      ensures s[j] != c
    {
      assert s[j] == p0[j];
    }
    IndexOfIs(s, [c], 0, |p0|);
    assert s[..|p0|] == p0;
  }

  /** A split cuts at the first occurrence and splits the rest. */
  lemma SplitCons(s: string, sep: string, i: nat)
    requires sep != []
    requires IndexOf(s, sep, 0) == Some(i)
    ensures Split(s, sep) == [s[..i]] + Split(s[i + |sep|..], sep)
  {
  }

  /** Where the text after the first separator goes: everything after it,
      later separators included, is what the tail pieces join back to. */
  lemma SplitTail(s: string, sep: string, i: nat)
    requires sep != []
    requires IndexOf(s, sep, 0) == Some(i)
    ensures Split(s, sep)[0] == s[..i]
    ensures Join(Split(s, sep)[1..], sep) == s[i + |sep|..]
  {
    assert Split(s, sep)[1..] == Split(s[i + |sep|..], sep);
  }

  /** Searching a suffix of `s` finds the occurrences of `s` itself, shifted. */
  lemma IndexOfShift(s: string, pat: string, n: nat)
    requires n <= |s|
    ensures IndexOf(s[n..], pat, 0).None? <==> IndexOf(s, pat, n).None?
    ensures IndexOf(s, pat, n).Some? ==> IndexOf(s[n..], pat, 0) == Some(IndexOf(s, pat, n).value - n)
  {
    var t := s[n..];
    forall p | 0 <= p
      ensures OccursAt(t, pat, p) <==> OccursAt(s, pat, n + p)
    {
      if p + |pat| <= |t| {
        assert t[p..p + |pat|] == s[n + p..n + p + |pat|];
      }
    }
    match IndexOf(s, pat, n)
    case None =>
    case Some(j) =>
      IndexOfIs(t, pat, 0, j - n);
  }

  /** The first piece of a split is the text before the first separator,
      or the whole of `s` when there is none. */
  lemma SplitHead(s: string, sep: string)
    requires sep != []
    ensures IndexOf(s, sep, 0).None? ==> Split(s, sep)[0] == s
    ensures IndexOf(s, sep, 0).Some? ==> Split(s, sep)[0] == s[..IndexOf(s, sep, 0).value]
  {
  }

  /** The first piece of a split of a suffix of `s` ends where the next
      occurrence in `s` starts, or at the end of `s`. */
  lemma HeadOfSuffix(s: string, sep: string, n: nat)
    requires sep != [] && n <= |s|
    ensures IndexOf(s, sep, n).None? ==> Split(s[n..], sep)[0] == s[n..]
    ensures IndexOf(s, sep, n).Some? ==> n <= IndexOf(s, sep, n).value <= |s|
                                         && Split(s[n..], sep)[0] == s[n..IndexOf(s, sep, n).value]
  {
    IndexOfShift(s, sep, n);
    SplitHead(s[n..], sep);
    if IndexOf(s, sep, n).Some? {
      SliceOfSuffix(s, n, IndexOf(s, sep, n).value);
    }
  }

  /** The second piece of a split is the text between the first separator
      and the next one, or the end of `s` when there is no next one. */
  lemma SplitSecond(s: string, sep: string, i: nat)
    requires sep != []
    requires IndexOf(s, sep, 0) == Some(i)
    ensures |Split(s, sep)| >= 2
    ensures IndexOf(s, sep, i + |sep|).None? ==> Split(s, sep)[1] == s[i + |sep|..]
    ensures IndexOf(s, sep, i + |sep|).Some? ==> Split(s, sep)[1] == s[i + |sep|..IndexOf(s, sep, i + |sep|).value]
  {
    var n := i + |sep|;
    assert |Split(s, sep)| >= 2 && Split(s, sep)[1] == Split(s[n..], sep)[0] by {
      SplitCons(s, sep, i);
    }
    HeadOfSuffix(s, sep, n);
  }

  lemma SliceOfSuffix(s: string, n: nat, m: nat)
    requires n <= m <= |s|
    ensures s[n..][..m - n] == s[n..m]
  {
  }

  /** The span of a match of the regular expression `open[\s\S]*?close`
      (without flags): `open` at `start`, and `close` at `closeAt` no earlier
      than the end of `open`. */
  predicate MatchSpan(s: string, open: string, close: string, start: int, closeAt: int) {
    OccursAt(s, open, start) && start + |open| <= closeAt && OccursAt(s, close, closeAt)
  }

  /** The match a backtracking engine reports for `open[\s\S]*?close`: no
      match starts further left, and none from the same start closes sooner. */
  ghost predicate Leftmost(s: string, open: string, close: string, start: int, closeAt: int) {
    && MatchSpan(s, open, close, start, closeAt)
    && forall i, j :: MatchSpan(s, open, close, i, j) ==> start < i || (start == i && closeAt <= j)
  }

  /** There is at most one leftmost match. */
  lemma LeftmostUnique(s: string, open: string, close: string, i: int, j: int, i': int, j': int)
    requires Leftmost(s, open, close, i, j) && Leftmost(s, open, close, i', j')
    ensures i == i' && j == j'
  {
  }

  /** One mismatching character rules an occurrence out. */
  lemma Mismatch(s: string, pat: string, p: int, k: int)
    requires 0 <= k < |pat| && 0 <= p && p + k < |s| && s[p + k] != pat[k]
    ensures !OccursAt(s, pat, p)
  {
    if p + |pat| <= |s| {
      assert s[p..p + |pat|][k] == s[p + k];
    }
  }

  datatype Span = Span(start: nat, closeAt: nat)

  /** The match JavaScript's `String.prototype.match`/`replace` choose for
      `open[\s\S]*?close`: the leftmost start, and from it the nearest close. */
  function LazyMatch(s: string, open: string, close: string): (r: Option<Span>)
    ensures r.Some? ==> Leftmost(s, open, close, r.value.start, r.value.closeAt)
    ensures r.None? ==> forall i, j :: !MatchSpan(s, open, close, i, j)
  {
    match IndexOf(s, open, 0)
    case None => None
    case Some(i) =>
      match IndexOf(s, close, i + |open|)
      case None => None
      case Some(j) => Some(Span(i, j))
  }

  /** The characters `String.prototype.trim` strips and the regex class `\s`
      matches: ECMAScript WhiteSpace and LineTerminator. */
  predicate IsSpace(c: char) {
    || c == '\t' || c == '\n' || c == '\U{000B}' || c == '\U{000C}' || c == '\r' || c == ' '
    || c == '\U{00A0}' || c == '\U{1680}' || ('\U{2000}' <= c <= '\U{200A}')
    || c == '\U{2028}' || c == '\U{2029}' || c == '\U{202F}' || c == '\U{205F}'
    || c == '\U{3000}' || c == '\U{FEFF}'
  }

  /** No leading and no trailing white space. */
  predicate Trimmed(s: string) {
    s == [] || (!IsSpace(s[0]) && !IsSpace(s[|s| - 1]))
  }

  function TrimStart(s: string): (r: string)
    ensures |r| <= |s| && r == s[|s| - |r|..]
    ensures r == [] || !IsSpace(r[0])
    ensures forall k :: 0 <= k < |s| - |r| ==> IsSpace(s[k])
  {
    if s != [] && IsSpace(s[0]) then TrimStart(s[1..]) else s
  }

  function TrimEnd(s: string): (r: string)
    ensures |r| <= |s| && r == s[..|r|]
    ensures r == [] || !IsSpace(r[|r| - 1])
    ensures forall k :: |r| <= k < |s| ==> IsSpace(s[k])
  {
    if s != [] && IsSpace(s[|s| - 1]) then TrimEnd(s[..|s| - 1]) else s
  }

  /** `s.trim()`: the result is a slice of `s` with only white space around
      it, has no white space at either end, is empty exactly when `s` is all
      white space, and leaves a trimmed string alone. */
  function Trim(s: string): (r: string)
    ensures exists a, b :: SpaceAround(s, a, b, r)
    ensures Trimmed(r)
    ensures r == [] <==> forall k :: 0 <= k < |s| ==> IsSpace(s[k])
    ensures Trimmed(s) ==> r == s
  {
    var t := TrimStart(s);
    var r := TrimEnd(t);
    TrimSlice(s);
    assert r == [] ==> t == [];
    r
  }

  /** `r` is the slice `s[a..b]`, and only white space lies outside it. */
  predicate SpaceAround(s: string, a: int, b: int, r: string) {
    && 0 <= a <= b <= |s| && r == s[a..b]
    && (forall k :: 0 <= k < a ==> IsSpace(s[k]))
    && (forall k :: b <= k < |s| ==> IsSpace(s[k]))
  }

  /** Where the trimmed text sits in `s`. */
  lemma TrimSlice(s: string)
    ensures exists a, b :: SpaceAround(s, a, b, TrimEnd(TrimStart(s)))
  {
    var t := TrimStart(s);
    var r := TrimEnd(t);
    var a := |s| - |t|;
    var b := a + |r|;
    assert r == s[a..b];
    forall k | b <= k < |s|
      ensures IsSpace(s[k])
    {
      assert s[k] == t[k - a];
    }
    assert SpaceAround(s, a, b, r);
  }

  /** One leading space in front of a trimmed, non-empty string is trimmed away. */
  lemma TrimAfterSpace(v: string)
    requires v != [] && Trimmed(v)
    ensures Trim(" " + v) == v
  {
    assert (" " + v)[1..] == v;
    assert TrimStart(" " + v) == v;
  }

  function LowerChar(c: char): char {
    if 'A' <= c <= 'Z' then (c as int + 32) as char else c
  }

  /** `s.toLowerCase()`, on the ASCII letters. */
  function ToLower(s: string): (r: string)
    ensures |r| == |s|
    ensures forall k :: 0 <= k < |s| ==> r[k] == LowerChar(s[k])
  {
    seq(|s|, k requires 0 <= k < |s| => LowerChar(s[k]))
  }
}
