/** The editor page of the web client: what it starts from (the router
    state, the route's title and the fetched post), submitting the metadata
    dialog, and the request the Upload button sends. */
module Editor {
  import opened Basics
  import opened Strings
  import PostMeta
  import FrontMatter
  import PostList
  import Entries

  const UploadDir := "/contents/src/content/posts/"
  const UpdatePrefix := "Update post: "
  const AddPrefix := "Add new post: "

  /** The editor's state: the markdown, the title, the metadata, the sha the
      router state carried, and the sha of the post fetched for the route. */
  datatype EditorState = EditorState(
    markdown: string,
    title: string,
    meta: FrontMatter.Meta,
    navSha: Option<string>,
    fetchedSha: Option<string>)

  /** The metadata before anything is read: the eight fields, all empty. */
  function BlankMeta(): (m: FrontMatter.Meta)
    ensures forall k :: k in m <==> k in PostMeta.Fields
    ensures forall k :: k in m ==> m[k] == ""
  {
    map k | k in PostMeta.Fields :: ""
  }

  /** Opening the editor. The router state's markdown and title are used
      when present; otherwise the example markdown and the route's title (or
      nothing). Metadata is read from a non-empty markdown. The post named by
      the route is fetched unless the route says `new`; `fetched` is the sha
      of that reply, absent when the request failed. */
  function Open(nav: Option<PostList.NavState>, routeTitle: Option<string>, example: string,
                fetched: Option<string>): (st: EditorState)
    ensures nav.Some? && nav.value.markdown.Some? ==> st.markdown == nav.value.markdown.value
    ensures (nav.None? || nav.value.markdown.None?) ==> st.markdown == example
    ensures nav.Some? && nav.value.title.Some? ==> st.title == nav.value.title.value
    ensures (nav.None? || nav.value.title.None?) ==> st.title == routeTitle.GetOr("")
    ensures st.navSha == if nav.Some? then nav.value.sha else None
    ensures routeTitle == Some("new") ==> st.fetchedSha.None?
    ensures routeTitle != Some("new") ==> st.fetchedSha == fetched
    ensures st.markdown == "" ==> st.meta == BlankMeta()
    ensures st.markdown != "" ==> st.meta == FrontMatter.ExtractMeta(st.markdown, BlankMeta())
  {
    var state := nav.GetOr(PostList.NavState(None, None, None, None));
    var markdown := state.markdown.GetOr(example);
    var title := state.title.GetOr(routeTitle.GetOr(""));
    var meta := if markdown != "" then FrontMatter.ExtractMeta(markdown, BlankMeta()) else BlankMeta();
    EditorState(markdown, title, meta, state.sha, if routeTitle == Some("new") then None else fetched)
  }

  /** `handleMetaSubmit`: the dialog's data becomes the metadata and its
      block replaces the first block of the markdown. */
  function SubmitMeta(st: EditorState, d: FrontMatter.Meta): (r: EditorState)
    ensures r.meta == d
    ensures StartsWith(r.markdown, FrontMatter.Block(d))
    ensures r.markdown[|FrontMatter.Block(d)|..] == FrontMatter.StripFirstBlock(st.markdown)
    ensures r.title == st.title && r.navSha == st.navSha && r.fetchedSha == st.fetchedSha
  {
    var block := FrontMatter.Block(d);
    var markdown := FrontMatter.SubmitBody(d, st.markdown);
    assert markdown[..|block|] == block;
    assert markdown[|block|..] == FrontMatter.StripFirstBlock(st.markdown);
    st.(markdown := markdown, meta := d)
  }

  /** The body of the request that writes a post. */
  datatype Request = Request(path: string, message: string, content: string, sha: Option<string>)

  /** A JavaScript string is truthy when it is present and not empty. */
  predicate Truthy(s: Option<string>) {
    s.Some? && s.value != ""
  }

  /** A message made of one of the two prefixes and the title starts with
      that prefix, not with the other, and ends with the title. */
  lemma Announce(prefix: string, other: string, title: string)
    requires prefix in {UpdatePrefix, AddPrefix} && other in {UpdatePrefix, AddPrefix} && prefix != other
    ensures StartsWith(prefix + title, prefix)
    ensures !StartsWith(prefix + title, other)
    ensures EndsWith(prefix + title, title)
  {
    var m := prefix + title;
    assert m[..|prefix|] == prefix;
    assert m[|m| - |title|..] == title;
    if |other| <= |m| {
      assert m[..|other|][0] == m[0] == prefix[0] != other[0];
    }
  }

  /** `handleUpload` with `mutationFn`: the trimmed title names the file and
      the message; the message says "Update" exactly when the router state
      carried a sha; the content is the encoded markdown; the sha sent is
      the fetched post's, not the router state's. */
  function Upload(st: EditorState, encode: string -> string): (r: Request)
    ensures r.path == UploadDir + Trim(st.title) + ".md"
    ensures StartsWith(r.message, UpdatePrefix) <==> Truthy(st.navSha)
    ensures StartsWith(r.message, AddPrefix) <==> !Truthy(st.navSha)
    ensures EndsWith(r.message, Trim(st.title))
    ensures r.content == encode(st.markdown)
    ensures r.sha == st.fetchedSha
  {
    var title := Trim(st.title);
    var message := (if Truthy(st.navSha) then UpdatePrefix else AddPrefix) + title;
    Announce(UpdatePrefix, AddPrefix, title);
    Announce(AddPrefix, UpdatePrefix, title);
    Request(UploadDir + title + ".md", message, encode(st.markdown), st.fetchedSha)
  }

  // ---------------------------------------------------------------------
  // Properties.

  /** Uploading with no prior sha adds a post, with one updates it. */
  lemma UploadMessages(st: EditorState, encode: string -> string)
    ensures st.navSha.None? ==> Upload(st, encode).message == AddPrefix + Trim(st.title)
    ensures Truthy(st.navSha) ==> Upload(st, encode).message == UpdatePrefix + Trim(st.title)
  {
  }

  /** An edit started from the post list hands the editor no sha, so its
      upload is announced as a new post, even though the post exists; the
      sha sent with it is still the one fetched for the route. The route
      itself is not modelled: `routeTitle` and `fetched` are free. */
  lemma EditFromListUploadsAsNew(page: PostList.Page, p: Entries.Post, routeTitle: Option<string>,
                                 example: string, fetched: Option<string>, encode: string -> string)
    requires p.entry.path in page.cache && page.cache[p.entry.path] != ""
    ensures var st := Open(Some(PostList.EditPost(page, p).1.value.state), routeTitle, example, fetched);
            var req := Upload(st, encode);
      && st.markdown == page.cache[p.entry.path]
      && req.message == AddPrefix + Trim(ReplaceFirst(p.entry.name, ".md", ""))
      && req.sha == (if routeTitle == Some("new") then None else fetched)
  {
  }

  /** Submitting the dialog a second time with the same data changes
      nothing, provided no value contains a line break; a later submission
      with other data replaces the earlier block instead of stacking on it. */
  lemma SubmitMetaTwice(st: EditorState, d: FrontMatter.Meta, e: FrontMatter.Meta)
    requires FrontMatter.NoBreaks(d)
    ensures SubmitMeta(SubmitMeta(st, d), d) == SubmitMeta(st, d)
    ensures SubmitMeta(SubmitMeta(st, d), e) == SubmitMeta(st, e)
  {
    FrontMatter.SubmitReplaces(d, d, st.markdown);
    FrontMatter.SubmitReplaces(e, d, st.markdown);
  }

  /** Opening the editor on a body the metadata dialog produced reads the
      submitted values back, for values that are non-empty, have no white
      space at their ends and no line break. */
  lemma OpenReadsSubmittedMeta(d: FrontMatter.Meta, body: string, title: Option<string>,
                               routeTitle: Option<string>, example: string, fetched: Option<string>)
    requires forall i :: 0 <= i < |PostMeta.Fields| ==> FrontMatter.Readable(FrontMatter.Lookup(d, PostMeta.Fields[i]))
    ensures var nav := PostList.NavState(Some(FrontMatter.SubmitBody(d, body)), title, None, None);
            var st := Open(Some(nav), routeTitle, example, fetched);
      && (forall k :: k in st.meta <==> k in PostMeta.Fields)
      && (forall k :: k in PostMeta.Fields ==> st.meta[k] == FrontMatter.Lookup(d, k))
  {
    var s := FrontMatter.SubmitBody(d, body);
    assert s[0] == '-';
    FrontMatter.SubmitRoundTrip(d, body, BlankMeta());
  }
}
