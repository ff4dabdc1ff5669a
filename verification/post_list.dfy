/** The post list page of the web client: loading the list through the
    walk, searching it, deleting a post with confirmation, starting an edit
    from the content cache, and the view link of a row. */
module PostList {
  import opened Basics
  import opened Strings
  import opened Entries
  import Walker
  import Sorting

  const ViewBase := "https://shinbun.vercel.app/posts/"
  const PostsDir := "src/content/posts/"
  const FetchError := "Failed to fetch posts"
  const DeleteError := "Failed to delete post"

  /** The page state: the rows shown, the master list searches start from,
      the error message, the row awaiting delete confirmation, whether the
      first load is still running, and the content cache. */
  datatype Page = Page(
    shown: seq<Post>,
    master: seq<Post>,
    error: Option<string>,
    pending: Option<Post>,
    loading: bool,
    cache: Walker.Cache)

  /** What the request for the posts root gave: a status with the listing
      (each entry with its own replies), or an exception with its message
      when it was an `Error` and without one otherwise. */
  datatype RootReply = Answered(status: int, items: seq<Walker.Tree>) | Threw(message: Option<string>)

  /** `getPostList`: on status 200 both lists become the walked rows sorted
      newest first; an exception sets the error; loading ends either way. */
  function Load(page: Page, root: RootReply, now: int): (r: Page)
    ensures !r.loading && r.pending == page.pending
    ensures root.Answered? && root.status == 200 ==>
              var w := Walker.WalkAll(root.items, now, page.cache);
              && r.shown == r.master
              && Sorting.NewestFirst(r.master)
              && multiset(r.master) == multiset(w.posts)
              && r.cache == w.cache
              && r.error.None?
    ensures root.Answered? && root.status != 200 ==>
              r == page.(error := None, loading := false)
    ensures root.Threw? ==>
              r == page.(error := Some(root.message.GetOr(FetchError)), loading := false)
  {
    match root
    case Threw(message) => page.(error := Some(message.GetOr(FetchError)), loading := false)
    case Answered(status, items) =>
      if status == 200 then
        var w := Walker.WalkAll(items, now, page.cache);
        var sorted := Sorting.SortNewest(w.posts);
        page.(shown := sorted, master := sorted, error := None, loading := false, cache := w.cache)
      else page.(error := None, loading := false)
  }

  /** A row matches a search term when its lower-cased name contains the
      lower-cased term (the term is not trimmed for this). */
  predicate Hit(p: Post, term: string) {
    Contains(ToLower(p.entry.name), ToLower(term))
  }

  /** The rows that match `term`, in their order. */
  function Hits(ps: seq<Post>, term: string): (r: seq<Post>)
    ensures forall p :: p in r <==> p in ps && Hit(p, term)
    ensures |r| <= |ps|
  {
    if ps == [] then []
    else (if Hit(ps[0], term) then [ps[0]] else []) + Hits(ps[1..], term)
  }

  /** `handleSearch`: a term that trims to nothing restores the master list,
      any other term shows the master rows that match it. */
  function Search(page: Page, term: string): (r: Page)
    ensures r.master == page.master && r.cache == page.cache && r.error == page.error && r.pending == page.pending
    ensures Trim(term) == "" ==> r.shown == page.master
    ensures Trim(term) != "" ==> forall p :: p in r.shown <==> p in page.master && Hit(p, term)
    ensures Trim(term) != "" ==> r.shown == Hits(page.master, term)
  {
    if Trim(term) == "" then page.(shown := page.master)
    else page.(shown := Hits(page.master, term))
  }

  /** The rows of `ps` that do not carry `sha`. */
  function WithoutSha(ps: seq<Post>, sha: string): (r: seq<Post>)
    ensures forall p :: p in r <==> p in ps && p.entry.sha != sha
    ensures |r| <= |ps|
  {
    if ps == [] then []
    else (if ps[0].entry.sha != sha then [ps[0]] else []) + WithoutSha(ps[1..], sha)
  }

  /** The delete button: the row awaits confirmation. */
  function RequestDelete(page: Page, p: Post): (r: Page)
    ensures r.pending == Some(p)
    ensures r.(pending := page.pending) == page
  {
    page.(pending := Some(p))
  }

  /** The cancel button of the confirmation. */
  function CancelDelete(page: Page): (r: Page)
    ensures r.pending.None?
    ensures r.(pending := page.pending) == page
  {
    page.(pending := None)
  }

  /** What the delete request gave: a status, or an exception. */
  datatype DeleteReply = Status(code: int) | Failure(message: Option<string>)

  /** `handleDelete`: with nothing awaiting confirmation nothing happens.
      Otherwise, on status 200 every row with the deleted sha leaves both
      lists and the cache forgets the path; on an exception the error is set
      and nothing else changes. The confirmation is cleared in every case. */
  function ConfirmDelete(page: Page, reply: DeleteReply): (r: Page)
    ensures page.pending.None? ==> r == page
    ensures page.pending.Some? ==> r.pending.None? && r.loading == page.loading
    ensures page.pending.Some? && reply == Status(200) ==>
              var gone := page.pending.value.entry;
              && (forall p :: p in r.shown <==> p in page.shown && p.entry.sha != gone.sha)
              && (forall p :: p in r.master <==> p in page.master && p.entry.sha != gone.sha)
              && r.cache.Keys == page.cache.Keys - {gone.path}
              && (forall k :: k in r.cache ==> r.cache[k] == page.cache[k])
              && r.error.None?
    ensures page.pending.Some? && reply.Status? && reply.code != 200 ==>
              r == page.(error := None, pending := None)
    ensures page.pending.Some? && reply.Failure? ==>
              r == page.(error := Some(reply.message.GetOr(DeleteError)), pending := None)
  {
    match page.pending
    case None => page
    case Some(gone) =>
      match reply
      case Failure(message) => page.(error := Some(message.GetOr(DeleteError)), pending := None)
      case Status(code) =>
        if code == 200 then
          page.(shown := WithoutSha(page.shown, gone.entry.sha),
                master := WithoutSha(page.master, gone.entry.sha),
                cache := page.cache - {gone.entry.path},
                error := None,
                pending := None)
        else page.(error := None, pending := None)
  }

  /** The router state the editor is opened with; each field may be absent. */
  datatype NavState = NavState(markdown: Option<string>, title: Option<string>, path: Option<string>, sha: Option<string>)

  datatype Navigation = Navigation(route: string, state: NavState)

  /** The route of a post: `/posts/` and the path with its first
      `src/content/posts/` and then its first `.md` removed. */
  function EditRoute(path: string): (r: string)
    ensures !Contains(path, PostsDir) && !Contains(path, ".md") ==> r == "/posts/" + path
  {
    "/posts/" + ReplaceFirst(ReplaceFirst(path, PostsDir, ""), ".md", "")
  }

  /** `handleEditPost`: navigates only when the cache holds a non-empty text
      for the row's path, handing over that text, the name with its first
      `.md` removed, and the path; no sha is handed over. The error is
      cleared either way. */
  function EditPost(page: Page, p: Post): (r: (Page, Option<Navigation>))
    ensures r.0 == page.(error := None)
    ensures r.1.Some? <==> p.entry.path in page.cache && page.cache[p.entry.path] != ""
    ensures r.1.Some? ==>
              && r.1.value.route == EditRoute(p.entry.path)
              && r.1.value.state == NavState(Some(page.cache[p.entry.path]), Some(ReplaceFirst(p.entry.name, ".md", "")),
                                             Some(p.entry.path), None)
  {
    var cleared := page.(error := None);
    if p.entry.path in page.cache && page.cache[p.entry.path] != "" then
      (cleared, Some(Navigation(EditRoute(p.entry.path),
                                NavState(Some(page.cache[p.entry.path]), Some(ReplaceFirst(p.entry.name, ".md", "")),
                                         Some(p.entry.path), None))))
    else (cleared, None)
  }

  /** `post.name.slice(0, -3)`: the name without its last three characters,
      whatever they are; empty when the name is shorter. Characters are code
      points here; `slice` counts UTF-16 code units. */
  function Slug(name: string): (r: string)
    ensures |name| >= 3 ==> r + name[|name| - 3..] == name
    ensures |name| < 3 ==> r == ""
  {
    if |name| >= 3 then name[..|name| - 3] else ""
  }

  /** The View link of a row: for a markdown name, the base, the name
      without its `.md` suffix, a slash and that stem again. */
  function ViewUrl(name: string): (r: string)
    ensures EndsWith(name, ".md") ==> r == ViewBase + RemoveSuffix(name, ".md") + "/" + RemoveSuffix(name, ".md")
    ensures |name| < 3 ==> r == ViewBase + "/"
  {
    ViewBase + Slug(name) + "/" + Slug(name)
  }

  /** View and Edit are offered when `.md` occurs anywhere in the name, so
      in particular for every markdown name. */
  function ShowsActions(name: string): (r: bool)
    ensures r <==> exists i :: OccursAt(name, ".md", i)
    ensures EndsWith(name, ".md") ==> r
  {
    if EndsWith(name, ".md") then
      assert OccursAt(name, ".md", |name| - 3) by {
        assert name[|name| - 3..|name|] == name[|name| - 3..];
      }
      Contains(name, ".md")
    else Contains(name, ".md")
  }

  // ---------------------------------------------------------------------
  // Properties.

  /** After a load with status 200, every row shown comes from a reachable
      entry of the listing, the rows shown carry exactly the entries the
      walk is expected to keep (each as often), the cache holds the text of
      every row with content when no path is fetched twice, and rows with
      the same timestamp keep the order the walk produced them in. */
  lemma LoadedRows(page: Page, items: seq<Walker.Tree>, now: int, t: int)
    ensures var r := Load(page, Answered(200, items), now);
            var w := Walker.WalkAll(items, now, page.cache);
      && (forall p :: p in r.shown ==> Walker.RowFrom(p, Walker.ReachableAll(items), now, r.cache))
      && multiset(EntriesOf(r.shown)) == multiset(Walker.ExpectedAll(items))
      && (Walker.UniquePathsAll(items) ==>
            forall p :: p in r.shown && p.content.Some? ==> r.cache[p.entry.path] == p.content.value)
      && Sorting.StampedAt(r.shown, t) == Sorting.StampedAt(w.posts, t)
  {
    var w := Walker.WalkAll(items, now, page.cache);
    var sorted := Sorting.SortNewest(w.posts);
    Walker.WalkRowsAll(items, now, page.cache);
    Walker.WalkEntriesAll(items, now, page.cache);
    Walker.WalkCacheAll(items, now, page.cache);
    EntriesPerm(sorted, w.posts);
    Sorting.SortStable(w.posts, t);
    forall p | p in sorted
      ensures p in w.posts
    {
      assert p in multiset(sorted);
    }
  }

  /** Searching keeps the master order: the hits of two lists one after the
      other are the hits of the first, then those of the second. */
  lemma {:induction false} HitsAppend(ps: seq<Post>, qs: seq<Post>, term: string)
    ensures Hits(ps + qs, term) == Hits(ps, term) + Hits(qs, term)
    decreases |ps|
  {
    if ps == [] {
      assert ps + qs == qs;
    } else {
      assert (ps + qs)[0] == ps[0] && (ps + qs)[1..] == ps[1..] + qs;
      HitsAppend(ps[1..], qs, term);
    }
  }

  /** A search depends only on the master list and the term, never on an
      earlier search; in particular repeating a search changes nothing. */
  lemma SearchForgetsEarlier(page: Page, earlier: string, term: string)
    ensures Search(Search(page, earlier), term) == Search(page, term)
    ensures Search(Search(page, term), term) == Search(page, term)
  {
  }

  /** Deleting keeps the order of the rows that stay. */
  lemma {:induction false} WithoutShaAppend(ps: seq<Post>, qs: seq<Post>, sha: string)
    ensures WithoutSha(ps + qs, sha) == WithoutSha(ps, sha) + WithoutSha(qs, sha)
    decreases |ps|
  {
    if ps == [] {
      assert ps + qs == qs;
    } else {
      assert (ps + qs)[0] == ps[0] && (ps + qs)[1..] == ps[1..] + qs;
      WithoutShaAppend(ps[1..], qs, sha);
    }
  }

  /** Rows without the sha are left exactly as they were. */
  lemma {:induction false} WithoutAbsentSha(ps: seq<Post>, sha: string)
    requires forall p :: p in ps ==> p.entry.sha != sha
    ensures WithoutSha(ps, sha) == ps
    decreases |ps|
  {
    if ps != [] {
      assert ps[0] in ps;
      assert forall p :: p in ps[1..] ==> p in ps;
      WithoutAbsentSha(ps[1..], sha);
      assert ps == [ps[0]] + ps[1..];
    }
  }

  /** After a confirmed delete the deleted row can no longer be edited: its
      path is no longer cached, so the edit does not navigate. */
  lemma DeletedPostCannotBeEdited(page: Page, gone: Post)
    requires page.pending == Some(gone)
    ensures EditPost(ConfirmDelete(page, Status(200)), gone).1.None?
  {
  }

  /** The first occurrence of `.md` in `stem + ".md"` is the appended one
      when the stem has none of its own. */
  lemma StripExtension(stem: string)
    requires !Contains(stem, ".md")
    ensures ReplaceFirst(stem + ".md", ".md", "") == stem
  {
    var s := stem + ".md";
    var n := |stem|;
    assert s[n..] == ".md";
    OccursInPrefix(s, ".md", n);
    assert s[..n] == stem;
    forall j | 0 <= j < n
      ensures !OccursAt(s, ".md", j)
    {
      if j + 3 <= n {
        assert s[..n][j..j + 3] == s[j..j + 3];
        assert !OccursAt(stem, ".md", j);
      } else if j == n - 1 {
        Mismatch(s, ".md", j, 1);
      } else {
        Mismatch(s, ".md", j, 2);
      }
    }
    IndexOfIs(s, ".md", 0, n);
    assert s[..n] + "" + s[n + 3..] == stem;
  }

  /** The route of `src/content/posts/<slug>.md` is `/posts/<slug>`. */
  lemma EditRouteOfPath(slug: string)
    requires !Contains(slug, ".md")
    ensures EditRoute(PostsDir + slug + ".md") == "/posts/" + slug
  {
    var path := PostsDir + slug + ".md";
    IndexOfIs(path, PostsDir, 0, 0);
    assert path[..0] + "" + path[|PostsDir|..] == slug + ".md";
    StripExtension(slug);
  }

  /** Edit on a post stored as `src/content/posts/<slug>.md` navigates to
      `/posts/<slug>`, handing over the title `<name>` without `.md`. */
  lemma EditRouteOfPost(page: Page, p: Post, slug: string, stem: string)
    requires p.entry.path == PostsDir + slug + ".md" && !Contains(slug, ".md")
    requires p.entry.name == stem + ".md" && !Contains(stem, ".md")
    requires p.entry.path in page.cache && page.cache[p.entry.path] != ""
    ensures var nav := EditPost(page, p).1;
      && nav.Some?
      && nav.value.route == "/posts/" + slug
      && nav.value.state.title == Some(stem)
      && nav.value.state.sha.None?
  {
    EditRouteOfPath(slug);
    StripExtension(stem);
  }

  /** The View link of `<stem>.md` is the base, the stem, a slash and the
      stem again. */
  lemma ViewUrlOfMarkdown(stem: string)
    ensures ViewUrl(stem + ".md") == ViewBase + stem + "/" + stem
    ensures ShowsActions(stem + ".md")
  {
    var name := stem + ".md";
    assert name[..|name| - 3] == stem;
    assert OccursAt(name, ".md", |stem|);
  }

  /** `.md` anywhere in the name is enough for View and Edit, and the slug
      then simply drops the last three characters: `a.md.txt` links to
      `a.md.`. */
  lemma ViewOfMarkdownInMiddle()
    ensures ShowsActions("a.md.txt")
    ensures Slug("a.md.txt") == "a.md."
  {
    assert OccursAt("a.md.txt", ".md", 1);
  }
}
