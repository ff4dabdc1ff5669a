/** The directory entry the contents listing returns (`PostDetail`), reduced
    to the fields the clients read, and the list row the web client derives
    from it (`PostExtend`). */
module Entries {
  import opened Basics
  import opened Strings

  /** `type` is a keyword here, so the entry's kind is `kind` ("file", "dir", ...). */
  datatype Entry = Entry(name: string, path: string, sha: string, kind: string)

  /** A listed post: the entry, its creation time (an integer timestamp in
      place of the ISO date text), its draft flag, and the fetched text when
      there is one. */
  datatype Post = Post(entry: Entry, createdAt: int, draft: bool, content: Option<string>)

  predicate IsDir(e: Entry) {
    e.kind == "dir"
  }

  /** `post.name.endsWith(".md")`. */
  predicate IsMarkdown(e: Entry) {
    EndsWith(e.name, ".md")
  }

  /** The entries of a list of rows, in order. */
  function EntriesOf(ps: seq<Post>): (es: seq<Entry>)
    ensures |es| == |ps|
    ensures forall k :: 0 <= k < |ps| ==> es[k] == ps[k].entry
  {
    seq(|ps|, k requires 0 <= k < |ps| => ps[k].entry)
  }

  lemma EntriesAppend(a: seq<Post>, b: seq<Post>)
    ensures EntriesOf(a + b) == EntriesOf(a) + EntriesOf(b)
  {
  }

  /** Dropping the element at `i` drops one copy of it. */
  lemma RemoveAt<T>(s: seq<T>, i: int)
    requires 0 <= i < |s|
    ensures multiset(s[..i] + s[i + 1..]) == multiset(s) - multiset{s[i]}
  {
    assert s == s[..i] + [s[i]] + s[i + 1..];
  }

  /** Dropping the row at `i` drops one copy of its entry. */
  lemma EntriesDrop(b: seq<Post>, i: int)
    requires 0 <= i < |b|
    ensures b[i].entry in multiset(EntriesOf(b))
    ensures multiset(EntriesOf(b[..i] + b[i + 1..])) == multiset(EntriesOf(b)) - multiset{b[i].entry}
  {
    var eb := EntriesOf(b);
    assert eb[i] == b[i].entry;
    assert EntriesOf(b[..i] + b[i + 1..]) == eb[..i] + eb[i + 1..];
    RemoveAt(eb, i);
  }

  /** An element of a sequence's multiset sits at some index. */
  lemma Occurrence<T>(s: seq<T>, x: T) returns (i: int)
    requires x in multiset(s)
    ensures 0 <= i < |s| && s[i] == x
  {
    assert x in s;
    i :| 0 <= i < |s| && s[i] == x;
  }

  /** Dropping the same element from two permutations of each other
      leaves permutations of each other. */
  lemma PermDrop<T>(a: seq<T>, b: seq<T>, i: int)
    requires multiset(a) == multiset(b) && a != []
    requires 0 <= i < |b| && b[i] == a[0]
    ensures multiset(a[1..]) == multiset(b[..i] + b[i + 1..])
  {
    assert a[..0] + a[1..] == a[1..];
    RemoveAt(a, 0);
    RemoveAt(b, i);
  }

  lemma Cancel<T>(m: multiset<T>, n: multiset<T>, x: T)
    requires x in m && x in n && m - multiset{x} == n - multiset{x}
    ensures m == n
  {
    assert m == (m - multiset{x}) + multiset{x};
    assert n == (n - multiset{x}) + multiset{x};
  }

  /** Rows that are a permutation of each other have entries that are. */
  lemma {:induction false} EntriesPerm(a: seq<Post>, b: seq<Post>)
    requires multiset(a) == multiset(b)
    ensures multiset(EntriesOf(a)) == multiset(EntriesOf(b))
    decreases |a|
  {
    if a == [] {
      assert |b| == |multiset(b)| == 0;
    } else {
      var x := a[0];
      var i := Occurrence(b, x);
      var b' := b[..i] + b[i + 1..];
      PermDrop(a, b, i);
      EntriesPerm(a[1..], b');
      var ma, mb := multiset(EntriesOf(a)), multiset(EntriesOf(b));
      assert ma - multiset{x.entry} == multiset(EntriesOf(a[1..])) by {
        EntriesDrop(a, 0);
        assert a[..0] + a[1..] == a[1..];
      }
      assert mb - multiset{x.entry} == multiset(EntriesOf(b')) by {
        EntriesDrop(b, i);
      }
      Cancel(ma, mb, x.entry);
    }
  }

  /** The row kept for a node whose processing threw: stamped `now`, not a
      draft, no content. One reading `now` serves the whole walk, where the
      client reads the clock anew for each such row. */
  function Fallback(e: Entry, now: int): (p: Post)
    ensures p.entry == e && p.createdAt == now && !p.draft && p.content.None?
  {
    Post(e, now, false, None)
  }
}
