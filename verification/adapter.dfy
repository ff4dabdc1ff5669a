/** The Android list adapter (`PostsAdapter`): the list it shows, replacing
    it, removing one post by sha, and what a row shows. */
module Adapter {
  import opened Basics
  import opened Strings
  import opened Entries

  const ViewBase := "https://shinbun.vercel.app/posts/"

  /** The adapter's backing list. */
  datatype PostsAdapter = PostsAdapter(posts: seq<Entry>)

  /** `updatePosts`: the list becomes exactly the given posts, in order,
      whatever it held before. */
  function UpdatePosts(a: PostsAdapter, newPosts: seq<Entry>): (r: PostsAdapter)
    ensures r.posts == newPosts
  {
    PostsAdapter(newPosts)
  }

  /** `getItemCount`. */
  function ItemCount(a: PostsAdapter): (n: nat)
    ensures n == |a.posts|
  {
    |a.posts|
  }

  /** The first position holding `sha` is `i`. */
  predicate FirstWithSha(ps: seq<Entry>, sha: string, i: int) {
    0 <= i < |ps| && ps[i].sha == sha && forall j :: 0 <= j < i ==> ps[j].sha != sha
  }

  /** `removePost`: `indexOfFirst` finds the first post with the same sha and
      only that one is removed; without one the list is unchanged. */
  method RemovePost(a: PostsAdapter, post: Entry) returns (r: PostsAdapter)
    ensures (forall j :: 0 <= j < |a.posts| ==> a.posts[j].sha != post.sha) ==> r == a
    ensures forall i :: FirstWithSha(a.posts, post.sha, i) ==> r.posts == a.posts[..i] + a.posts[i + 1..]
    ensures |r.posts| == |a.posts| || |r.posts| == |a.posts| - 1
    ensures ItemCount(r) == ItemCount(a) - 1 <==> exists j :: 0 <= j < |a.posts| && a.posts[j].sha == post.sha
  {
    var position := -1;
    var k := 0;
    while k < |a.posts| && position == -1
      invariant 0 <= k <= |a.posts|
      invariant position == -1 ==> forall j :: 0 <= j < k ==> a.posts[j].sha != post.sha
      invariant position != -1 ==> FirstWithSha(a.posts, post.sha, position)
      decreases |a.posts| - k
    {
      if a.posts[k].sha == post.sha {
        position := k;
      }
      k := k + 1;
    }
    if position != -1 {
      r := PostsAdapter(a.posts[..position] + a.posts[position + 1..]);
    } else {
      r := a;
    }
  }

  /** After a replace the count is the number of posts handed over, and
      removing one of them that is listed brings it down by exactly one. */
  method UpdateThenRemove(a: PostsAdapter, ps: seq<Entry>, i: nat) returns (r: PostsAdapter)
    requires i < |ps|
    ensures ItemCount(UpdatePosts(a, ps)) == |ps|
    ensures ItemCount(r) == |ps| - 1
  {
    r := RemovePost(UpdatePosts(a, ps), ps[i]);
  }

  /** What a row shows: View and Edit when visible, and the View link. */
  datatype Row = Row(name: string, actionsVisible: bool, viewUrl: Option<string>)

  /** `onBindViewHolder`: View and Edit are visible exactly when the name ends
      with `.md`; the View link is the base and the name with that suffix
      removed once. */
  function Bind(e: Entry): (r: Row)
    ensures r.name == e.name
    ensures r.actionsVisible <==> EndsWith(e.name, ".md")
    ensures r.actionsVisible ==> r.viewUrl.Some? && r.viewUrl.value + ".md" == ViewBase + e.name
    ensures !r.actionsVisible ==> r.viewUrl.None?
  {
    if EndsWith(e.name, ".md") then Row(e.name, true, Some(ViewBase + RemoveSuffix(e.name, ".md")))
    else Row(e.name, false, None)
  }

  // ---------------------------------------------------------------------
  // Properties.

  /** Removing keeps every other post, in order: exactly one occurrence of
      the first matching post goes. */
  lemma RemoveKeepsTheRest(ps: seq<Entry>, sha: string, i: int)
    requires FirstWithSha(ps, sha, i)
    ensures multiset(ps[..i] + ps[i + 1..]) + multiset{ps[i]} == multiset(ps)
    ensures forall j :: 0 <= j < i ==> (ps[..i] + ps[i + 1..])[j] == ps[j]
    ensures forall j :: i < j < |ps| ==> (ps[..i] + ps[i + 1..])[j - 1] == ps[j]
  {
    var r := ps[..i] + ps[i + 1..];
    assert multiset(r) + multiset{ps[i]} == multiset(ps) by {
      assert ps == ps[..i] + [ps[i]] + ps[i + 1..];
    }
    forall j | i < j < |ps|
      ensures r[j - 1] == ps[j]
    {
      assert r[j - 1] == ps[i + 1..][j - 1 - i];
    }
  }

  /** Only the first of two posts sharing a sha goes; the web client instead
      drops every row with that sha. */
  method RemoveOnlyFirst(x: Entry, y: Entry) returns (r: PostsAdapter)
    requires x.sha == y.sha && x != y
    ensures r.posts == [y]
  {
    r := RemovePost(PostsAdapter([x, y]), x);
    assert FirstWithSha([x, y], x.sha, 0);
    assert [x, y][..0] + [x, y][1..] == [y];
  }

  /** The Android link of `<stem>.md` is the base and the stem, once. */
  lemma ViewUrlOfMarkdown(stem: string)
    ensures Bind(Entry(stem + ".md", "", "", "file")).viewUrl == Some(ViewBase + stem)
  {
    var name := stem + ".md";
    assert name[|name| - 3..] == ".md";
    assert name[..|name| - 3] == stem;
  }

  /** A name with `.md` in the middle gets no View or Edit here, although
      the web list offers both for it. */
  lemma MarkdownInMiddleHidden()
    ensures !Bind(Entry("a.md.txt", "", "", "file")).actionsVisible
  {
    assert "a.md.txt"[5..] != ".md";
  }
}
