/** The order of the post list: newest first by `createdAt`. The client
    sorts with the comparator `b - a` on the timestamps, and
    `Array.prototype.sort` is stable, so rows with the same timestamp keep
    the order the walk produced them in. */
module Sorting {
  import opened Entries

  /** No row is older than a row after it. */
  predicate NewestFirst(ps: seq<Post>) {
    forall i, j :: 0 <= i < j < |ps| ==> ps[i].createdAt >= ps[j].createdAt
  }

  /** The rows stamped `t`, in their order. */
  function StampedAt(ps: seq<Post>, t: int): seq<Post>
  {
    if ps == [] then []
    else (if ps[0].createdAt == t then [ps[0]] else []) + StampedAt(ps[1..], t)
  }

  /** A row no older than the first of a newest-first list can go in front. */
  lemma ConsNewest(x: Post, s: seq<Post>)
    requires NewestFirst(s)
    requires s != [] ==> x.createdAt >= s[0].createdAt
    ensures NewestFirst([x] + s)
  {
    var r := [x] + s;
    forall i, j | 0 <= i < j < |r|
      ensures r[i].createdAt >= r[j].createdAt
    {
      assert r[j] == s[j - 1];
      if i > 0 {
        assert r[i] == s[i - 1];
      } else if j > 1 {
        assert s[0].createdAt >= s[j - 1].createdAt;
      }
    }
  }

  /** Puts `p` in front of the first row that is not newer than it. */
  function Insert(p: Post, s: seq<Post>): (r: seq<Post>)
    requires NewestFirst(s)
    ensures NewestFirst(r)
    ensures multiset(r) == multiset(s) + multiset{p}
    ensures |r| == |s| + 1
    ensures r[0] == p || (s != [] && r[0] == s[0])
  {
    if s == [] || p.createdAt >= s[0].createdAt then
      ConsNewest(p, s);
      [p] + s
    else
      var rest := Insert(p, s[1..]);
      assert multiset(s) == multiset{s[0]} + multiset(s[1..]) by {
        assert s == [s[0]] + s[1..];
      }
      assert NewestFirst([s[0]] + rest) by {
        assert s[1..] != [] ==> s[0].createdAt >= s[1..][0].createdAt;
        ConsNewest(s[0], rest);
      }
      [s[0]] + rest
  }

  /** The sort of `getPostList`: a permutation of the rows, newest first. */
  function SortNewest(ps: seq<Post>): (r: seq<Post>)
    ensures NewestFirst(r)
    ensures multiset(r) == multiset(ps)
    decreases |ps|
  {
    if ps == [] then []
    else
      var r := Insert(ps[0], SortNewest(ps[1..]));
      assert ps == [ps[0]] + ps[1..];
      r
  }

  lemma StampedCons(p: Post, s: seq<Post>, t: int)
    ensures StampedAt([p] + s, t) == (if p.createdAt == t then [p] else []) + StampedAt(s, t)
  {
    assert ([p] + s)[0] == p && ([p] + s)[1..] == s;
  }

  /** Inserting a row adds it to the rows of its own stamp, in front, and
      leaves the rows of every other stamp as they were. */
  lemma {:induction false} InsertStamped(p: Post, s: seq<Post>, t: int)
    requires NewestFirst(s)
    ensures StampedAt(Insert(p, s), t) == (if p.createdAt == t then [p] else []) + StampedAt(s, t)
    decreases |s|
  {
    if s == [] || p.createdAt >= s[0].createdAt {
      StampedCons(p, s, t);
    } else {
      var rest := Insert(p, s[1..]);
      var tail := StampedAt(s[1..], t);
      var hp := if p.createdAt == t then [p] else [];
      var h0 := if s[0].createdAt == t then [s[0]] else [];
      assert hp == [] || h0 == [];
      assert StampedAt(Insert(p, s), t) == h0 + (hp + tail) by {
        assert Insert(p, s) == [s[0]] + rest;
        StampedCons(s[0], rest, t);
        InsertStamped(p, s[1..], t);
      }
      assert StampedAt(s, t) == h0 + tail by {
        StampedCons(s[0], s[1..], t);
        assert [s[0]] + s[1..] == s;
      }
      Swap(hp, h0, tail);
    }
  }

  /** Two rows of which at most one is kept can trade places. */
  lemma Swap(hp: seq<Post>, h0: seq<Post>, tail: seq<Post>)
    requires hp == [] || h0 == []
    ensures h0 + (hp + tail) == hp + (h0 + tail)
  {
    if hp == [] {
      assert hp + tail == tail;
      assert hp + (h0 + tail) == h0 + tail;
    } else {
      assert h0 + (hp + tail) == hp + tail;
      assert h0 + tail == tail;
    }
  }

  /** The sort is stable: the rows with any one stamp come out in the order
      they went in. */
  lemma {:induction false} SortStable(ps: seq<Post>, t: int)
    ensures StampedAt(SortNewest(ps), t) == StampedAt(ps, t)
    decreases |ps|
  {
    if ps != [] {
      SortStable(ps[1..], t);
      InsertStamped(ps[0], SortNewest(ps[1..]), t);
    }
  }

  /** Rows that are already newest first are left as they are. */
  lemma {:induction false} SortSorted(ps: seq<Post>)
    requires NewestFirst(ps)
    ensures SortNewest(ps) == ps
    decreases |ps|
  {
    if ps != [] {
      SortSorted(ps[1..]);
      assert SortNewest(ps[1..]) == ps[1..];
      assert ps == [ps[0]] + ps[1..];
    }
  }
}
