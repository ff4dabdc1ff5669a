/** The directory walk behind the post list (`getPostExtendProps`): a
    directory contributes its children's rows in listing order, a markdown
    file one row with its timestamp and draft flag, any other file nothing,
    and a node whose processing throws exactly one fallback row.

    The remote is given rather than called: every node of the tree carries
    the reply its requests received. The content cache is threaded through
    the walk in listing order; the client fills it from concurrent requests,
    which agree with this order whenever no path is listed twice. */
module Walker {
  import opened Basics
  import opened Strings
  import opened Entries
  import opened Drafts

  /** The content cache: path to raw content text. */
  type Cache = map<string, string>

  /** What the remote answered for a node: a directory listing (each child
      with its own replies), the newest commit date (none when the file has
      no commit) together with the file's text, or a request that threw. A
      reply of the wrong shape for the node throws as well. */
  datatype Reply =
    | Listing(children: seq<Tree>)
    | Content(commitDate: Option<int>, text: string)
    | Failed

  datatype Tree = Node(entry: Entry, reply: Reply)

  /** The rows produced, in order, and the cache after the walk. */
  datatype Walked = Walked(posts: seq<Post>, cache: Cache)

  /** Every entry of the tree reachable through listings that succeeded. */
  ghost function Reachable(t: Tree): set<Entry>
    decreases t
  {
    {t.entry} + if IsDir(t.entry) && t.reply.Listing? then ReachableAll(t.reply.children) else {}
  }

  ghost function ReachableAll(ts: seq<Tree>): set<Entry>
    decreases ts
  {
    if ts == [] then {} else Reachable(ts[0]) + ReachableAll(ts[1..])
  }

  /** The paths whose content the walk fetches: the markdown files, reached
      through listings that succeeded, whose requests succeeded. */
  ghost function Fetched(t: Tree): set<string>
    decreases t
  {
    if IsDir(t.entry) then
      if t.reply.Listing? then FetchedAll(t.reply.children) else {}
    else if IsMarkdown(t.entry) && t.reply.Content? then {t.entry.path}
    else {}
  }

  ghost function FetchedAll(ts: seq<Tree>): set<string>
    decreases ts
  {
    if ts == [] then {} else Fetched(ts[0]) + FetchedAll(ts[1..])
  }

  /** The entries the walk is to list, in order: one per markdown file
      reached through listings that succeeded, one for a directory whose
      listing failed, and none for any other file or for an empty
      directory. */
  ghost function Expected(t: Tree): seq<Entry>
    decreases t
  {
    if IsDir(t.entry) then
      if t.reply.Listing? then ExpectedAll(t.reply.children) else [t.entry]
    else if IsMarkdown(t.entry) then [t.entry]
    else []
  }

  ghost function ExpectedAll(ts: seq<Tree>): seq<Entry>
    decreases ts
  {
    if ts == [] then [] else Expected(ts[0]) + ExpectedAll(ts[1..])
  }

  /** No path is fetched at two places of the walk. */
  ghost predicate UniquePaths(t: Tree)
    decreases t
  {
    IsDir(t.entry) && t.reply.Listing? ==> UniquePathsAll(t.reply.children)
  }

  ghost predicate UniquePathsAll(ts: seq<Tree>)
    decreases ts
  {
    ts != [] ==> UniquePaths(ts[0]) && UniquePathsAll(ts[1..]) && Fetched(ts[0]) !! FetchedAll(ts[1..])
  }

  /** What every row of the walk satisfies: it comes from a reachable entry;
      a directory only ever yields a fallback row; a row without content is a
      fallback stamped `now`; a row with content is a markdown file whose
      text is cached under its path. */
  ghost predicate RowFrom(p: Post, reach: set<Entry>, now: int, cache: Cache) {
    && p.entry in reach
    && (IsDir(p.entry) ==> p == Fallback(p.entry, now))
    && (p.content.None? ==> p == Fallback(p.entry, now))
    && (p.content.Some? ==> !IsDir(p.entry) && IsMarkdown(p.entry) && p.entry.path in cache)
  }

  /** `getPostExtendProps` on one node. */
  function WalkNode(t: Tree, now: int, cache: Cache): (w: Walked)
    ensures !IsDir(t.entry) && !IsMarkdown(t.entry) ==> w == Walked([], cache)
    decreases t
  {
    if IsDir(t.entry) then
      match t.reply
      case Listing(cs) => WalkAll(cs, now, cache)
      case _ => Walked([Fallback(t.entry, now)], cache)
    else if !IsMarkdown(t.entry) then Walked([], cache)
    else
      match t.reply
      case Content(date, text) =>
        var cached := cache[t.entry.path := text];
        match DraftFlag(text) {
          case None => Walked([Fallback(t.entry, now)], cached)
          case Some(draft) => Walked([Post(t.entry, date.GetOr(now), draft, Some(text))], cached)
        }
      case _ => Walked([Fallback(t.entry, now)], cache)
  }

  /** The children of a listing, walked in listing order and flattened. */
  function WalkAll(ts: seq<Tree>, now: int, cache: Cache): (w: Walked)
    decreases ts
  {
    if ts == [] then Walked([], cache)
    else
      var first := WalkNode(ts[0], now, cache);
      var rest := WalkAll(ts[1..], now, first.cache);
      Walked(first.posts + rest.posts, rest.cache)
  }

  /** The cache after the walk holds the old keys and the fetched paths,
      nothing else, and an old key that was not fetched keeps its text. A
      row with content is for a fetched path, and when no path is fetched
      twice the cache holds exactly that content under it. */
  lemma {:induction false} WalkCache(t: Tree, now: int, cache: Cache)
    ensures var w := WalkNode(t, now, cache);
      && w.cache.Keys == cache.Keys + Fetched(t)
      && (forall k :: k in cache && k !in Fetched(t) ==> w.cache[k] == cache[k])
      && (forall p :: p in w.posts && p.content.Some? ==> p.entry.path in Fetched(t))
      && (UniquePaths(t) ==> forall p :: p in w.posts && p.content.Some? ==> w.cache[p.entry.path] == p.content.value)
    decreases t
  {
    if IsDir(t.entry) && t.reply.Listing? {
      WalkCacheAll(t.reply.children, now, cache);
    }
  }

  lemma {:induction false} WalkCacheAll(ts: seq<Tree>, now: int, cache: Cache)
    ensures var w := WalkAll(ts, now, cache);
      && w.cache.Keys == cache.Keys + FetchedAll(ts)
      && (forall k :: k in cache && k !in FetchedAll(ts) ==> w.cache[k] == cache[k])
      && (forall p :: p in w.posts && p.content.Some? ==> p.entry.path in FetchedAll(ts))
      && (UniquePathsAll(ts) ==> forall p :: p in w.posts && p.content.Some? ==> w.cache[p.entry.path] == p.content.value)
    decreases ts
  {
    if ts != [] {
      var first := WalkNode(ts[0], now, cache);
      var rest := WalkAll(ts[1..], now, first.cache);
      WalkCache(ts[0], now, cache);
      WalkCacheAll(ts[1..], now, first.cache);
      assert WalkAll(ts, now, cache) == Walked(first.posts + rest.posts, rest.cache);
      if UniquePathsAll(ts) {
        forall p | p in first.posts && p.content.Some?
          ensures rest.cache[p.entry.path] == p.content.value
        {
          assert p.entry.path !in FetchedAll(ts[1..]);
        }
      }
    }
  }

  /** Keys are only ever added to the cache. */
  lemma {:induction false} CacheGrows(ts: seq<Tree>, now: int, cache: Cache)
    ensures cache.Keys <= WalkAll(ts, now, cache).cache.Keys
  {
    WalkCacheAll(ts, now, cache);
  }

  /** Every row comes from a reachable entry and has the shape `RowFrom`
      describes. */
  lemma {:induction false} WalkRows(t: Tree, now: int, cache: Cache)
    ensures forall p :: p in WalkNode(t, now, cache).posts ==> RowFrom(p, Reachable(t), now, WalkNode(t, now, cache).cache)
    decreases t
  {
    if IsDir(t.entry) && t.reply.Listing? {
      WalkRowsAll(t.reply.children, now, cache);
    }
  }

  lemma {:induction false} WalkRowsAll(ts: seq<Tree>, now: int, cache: Cache)
    ensures forall p :: p in WalkAll(ts, now, cache).posts ==> RowFrom(p, ReachableAll(ts), now, WalkAll(ts, now, cache).cache)
    decreases ts
  {
    if ts != [] {
      var first := WalkNode(ts[0], now, cache);
      var rest := WalkAll(ts[1..], now, first.cache);
      WalkRows(ts[0], now, cache);
      WalkRowsAll(ts[1..], now, first.cache);
      CacheGrows(ts[1..], now, first.cache);
      forall p | p in first.posts + rest.posts
        ensures RowFrom(p, ReachableAll(ts), now, rest.cache)
      {
        if p in first.posts {
          assert RowFrom(p, Reachable(ts[0]), now, first.cache);
        } else {
          assert RowFrom(p, ReachableAll(ts[1..]), now, rest.cache);
        }
      }
    }
  }

  /** The walk lists exactly the expected entries, in order. */
  lemma {:induction false} WalkEntries(t: Tree, now: int, cache: Cache)
    ensures EntriesOf(WalkNode(t, now, cache).posts) == Expected(t)
    decreases t
  {
    if IsDir(t.entry) && t.reply.Listing? {
      WalkEntriesAll(t.reply.children, now, cache);
    }
  }

  lemma {:induction false} WalkEntriesAll(ts: seq<Tree>, now: int, cache: Cache)
    ensures EntriesOf(WalkAll(ts, now, cache).posts) == ExpectedAll(ts)
    decreases ts
  {
    if ts != [] {
      var first := WalkNode(ts[0], now, cache);
      var rest := WalkAll(ts[1..], now, first.cache);
      WalkEntries(ts[0], now, cache);
      WalkEntriesAll(ts[1..], now, first.cache);
      EntriesAppend(first.posts, rest.posts);
    }
  }

  /** The rows never depend on what the cache already held: the walk only
      writes to it. */
  lemma {:induction false} RowsIgnoreCache(t: Tree, now: int, c1: Cache, c2: Cache)
    ensures WalkNode(t, now, c1).posts == WalkNode(t, now, c2).posts
    decreases t
  {
    if IsDir(t.entry) && t.reply.Listing? {
      RowsIgnoreCacheAll(t.reply.children, now, c1, c2);
    }
  }

  lemma {:induction false} RowsIgnoreCacheAll(ts: seq<Tree>, now: int, c1: Cache, c2: Cache)
    ensures WalkAll(ts, now, c1).posts == WalkAll(ts, now, c2).posts
    decreases ts
  {
    if ts != [] {
      RowsIgnoreCache(ts[0], now, c1, c2);
      RowsIgnoreCacheAll(ts[1..], now, WalkNode(ts[0], now, c1).cache, WalkNode(ts[0], now, c2).cache);
    }
  }

  /** A listing walks its first child, then the rest from the cache the
      first left behind. */
  lemma WalkCons(ts: seq<Tree>, now: int, cache: Cache)
    requires ts != []
    ensures var first := WalkNode(ts[0], now, cache);
            var rest := WalkAll(ts[1..], now, first.cache);
            WalkAll(ts, now, cache) == Walked(first.posts + rest.posts, rest.cache)
  {
  }

  /** Walking two listings one after the other is walking their
      concatenation: rows keep listing order. */
  lemma {:induction false} WalkAppend(ts: seq<Tree>, us: seq<Tree>, now: int, cache: Cache)
    ensures var a := WalkAll(ts, now, cache);
            var b := WalkAll(us, now, a.cache);
            WalkAll(ts + us, now, cache) == Walked(a.posts + b.posts, b.cache)
    decreases ts
  {
    if ts == [] {
      assert ts + us == us;
    } else {
      var n := WalkNode(ts[0], now, cache);
      var a := WalkAll(ts[1..], now, n.cache);
      var b := WalkAll(us, now, a.cache);
      assert WalkAll(ts + us, now, cache) == Walked(n.posts + (a.posts + b.posts), b.cache) by {
        WalkCons(ts + us, now, cache);
        assert (ts + us)[0] == ts[0];
        assert (ts + us)[1..] == ts[1..] + us;
        WalkAppend(ts[1..], us, now, n.cache);
      }
      assert WalkAll(ts, now, cache) == Walked(n.posts + a.posts, a.cache) by {
        WalkCons(ts, now, cache);
      }
      assert n.posts + (a.posts + b.posts) == (n.posts + a.posts) + b.posts;
    }
  }

  /** A markdown file whose requests succeeded is cached with its text
      before its draft flag is read: when reading throws (no `---` in the
      text) the row is the fallback, yet the text stays cached. */
  lemma CachedBeforeParse(e: Entry, date: Option<int>, text: string, now: int, cache: Cache)
    requires !IsDir(e) && IsMarkdown(e)
    ensures var w := WalkNode(Node(e, Content(date, text)), now, cache);
      && w.cache == cache[e.path := text]
      && (!Contains(text, "---") ==> w.posts == [Fallback(e, now)])
      && (Contains(text, "---") ==> w.posts == [Post(e, date.GetOr(now), DraftFlag(text).value, Some(text))])
  {
  }

  /** A node whose processing throws yields exactly one fallback row and
      leaves the cache alone: a directory whose listing failed, or a
      markdown file whose requests failed. */
  lemma FailureYieldsFallback(t: Tree, now: int, cache: Cache)
    requires (IsDir(t.entry) && !t.reply.Listing?) || (!IsDir(t.entry) && IsMarkdown(t.entry) && !t.reply.Content?)
    ensures WalkNode(t, now, cache) == Walked([Fallback(t.entry, now)], cache)
  {
  }

  /** A markdown file with a front-matter delimiter yields its row and
      caches its text. */
  lemma MarkdownRow(e: Entry, date: Option<int>, text: string, now: int, cache: Cache)
    requires !IsDir(e) && IsMarkdown(e) && Contains(text, "---")
    ensures WalkNode(Node(e, Content(date, text)), now, cache)
         == Walked([Post(e, date.GetOr(now), DraftFlag(text).value, Some(text))], cache[e.path := text])
  {
    CachedBeforeParse(e, date, text, now, cache);
  }

  lemma ExampleNames()
    ensures EndsWith("a.md", ".md") && EndsWith("b.md", ".md") && !EndsWith("notes.txt", ".md")
  {
    assert "notes.txt"[6..] == ".txt"[1..];
  }

  /** The tail of the example listing: a directory holding one markdown
      file, then a file that is not markdown. */
  lemma DirThenOther(sub: Entry, b: Entry, notes: Entry, tb: string, db: Option<int>, now: int, c1: Cache)
    requires IsDir(sub) && !IsDir(b) && IsMarkdown(b) && !IsDir(notes) && !IsMarkdown(notes)
    requires Contains(tb, "---")
    ensures WalkAll([Node(sub, Listing([Node(b, Content(db, tb))])), Node(notes, Failed)], now, c1)
         == Walked([Post(b, db.GetOr(now), DraftFlag(tb).value, Some(tb))], c1[b.path := tb])
  {
    var pb := Post(b, db.GetOr(now), DraftFlag(tb).value, Some(tb));
    var nb, nn := Node(b, Content(db, tb)), Node(notes, Failed);
    var ns := Node(sub, Listing([nb]));
    var c2 := c1[b.path := tb];
    assert WalkAll([nn], now, c2) == Walked([], c2) by {
      WalkCons([nn], now, c2);
      assert [nn][1..] == [];
    }
    assert WalkAll([nb], now, c1) == Walked([pb], c2) by {
      MarkdownRow(b, db, tb, now, c1);
      WalkCons([nb], now, c1);
      assert [nb][1..] == [];
    }
    WalkCons([ns, nn], now, c1);
    assert [ns, nn][1..] == [nn];
  }

  /** A listing holding `a.md`, a directory `sub` holding `b.md`, and
      `notes.txt` yields two rows, `a.md` then `b.md`, each with the draft
      flag of its own content; `notes.txt` contributes nothing. */
  lemma ThreeFileListing(a: Entry, sub: Entry, b: Entry, notes: Entry, ta: string, tb: string,
                         da: Option<int>, db: Option<int>, now: int, cache: Cache)
    requires a.name == "a.md" && b.name == "b.md" && notes.name == "notes.txt" && sub.name == "sub"
    requires a.kind == "file" && b.kind == "file" && notes.kind == "file" && sub.kind == "dir"
    requires Contains(ta, "---") && Contains(tb, "---")
    ensures var root := [Node(a, Content(da, ta)),
                         Node(sub, Listing([Node(b, Content(db, tb))])),
                         Node(notes, Failed)];
            var w := WalkAll(root, now, cache);
      && w.posts == [Post(a, da.GetOr(now), DraftFlag(ta).value, Some(ta)),
                     Post(b, db.GetOr(now), DraftFlag(tb).value, Some(tb))]
      && w.cache == cache[a.path := ta][b.path := tb]
  {
    ExampleNames();
    var na, nb, nn := Node(a, Content(da, ta)), Node(b, Content(db, tb)), Node(notes, Failed);
    var ns := Node(sub, Listing([nb]));
    MarkdownRow(a, da, ta, now, cache);
    DirThenOther(sub, b, notes, tb, db, now, cache[a.path := ta]);
    WalkCons([na, ns, nn], now, cache);
    assert [na, ns, nn][1..] == [ns, nn];
  }
}
