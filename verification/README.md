# shinbun-bo core, modelled in Dafny

shinbun-bo is a small back office for a markdown blog. Its posts are kept in a
GitHub repository under `src/content/posts/`. The React web client lists
the posts, searches them, deletes them and opens them in an editor. The
Android list adapter shows the listed posts, removes a deleted one, and
offers View and Edit buttons on markdown rows. The web editor writes a YAML-like front-matter block (`---` … `---`) at
the head of a post and commits the post back.

This project models the pure rules behind those screens and proves
properties of them:

- **The metadata dialog** (`PostMeta`): the per-field validator of the eight
  front-matter fields, the single-field update run on every keystroke, and
  the submit gate.
- **Front-matter text handling** (`FrontMatter`):
  - writing the fixed-order block and splicing it over the first block of the body;
  - reading `key: value` pairs back out of the first `---` block;
  - the round trip and the idempotence these two give together.
- **The editor page** (`Editor`): the state it opens with (router state, route
  title, fetched post), submitting the dialog, and the path, message, content
  and sha of the upload request.
- **The post list walk** (`Walker`, `Drafts`, `Entries`): flattening the
  remote tree, keeping only `.md` files, the draft flag read from the first
  `---` section, the one-row fallback for a node whose processing throws, and
  the content cache.
- **The post list page** (`Sorting`, `PostList`): the newest-first stable
  sort, search over the master list, delete by sha with cache eviction, the
  edit route, and the view link.
- **The Android list adapter** (`Adapter`): replace-all, item count,
  remove-first-by-sha, and the visibility and link of a row.

JavaScript and Kotlin string primitives are modelled with their own
semantics in `Strings`:

- `indexOf`, `includes`, `startsWith`, `endsWith` and `split`/`join`;
- `trim`, with the ECMAScript white-space set;
- `replace` with a string pattern, which replaces the first occurrence only;
- Kotlin's `removeSuffix`;
- the leftmost, lazy `[\s\S]*?` match of the two regular expressions.

The network is not called. Every node of the remote tree carries the reply
its requests received. Timestamps are integers, and "now" is a parameter.
`Base64.encode` and `JSON.parse` are function parameters.

## Model

| member | source | states |
|---|---|---|
| PostMeta.ValidateField | web/src/components/PostMeta.tsx:40-108 | For each known field, the value passes (empty message) exactly when its rule holds. `title`: double quotes at both ends, so a lone `"` passes. `published`: exactly `dddd-dd-dd`. `description`/`category`: single or double quotes at both ends. `image`: double quotes, then `https://` anywhere. `tags`: the parse of the text with `'` turned into `"` is an array. `draft`: true/false. `lang`: en/vi/jp. A failure carries that field's own message, and the image quoting message comes before the URL message. An unknown field always passes. |
| PostMeta.HandleChange | web/src/components/PostMeta.tsx:110-122 | The named field takes the new value and its error entry takes the validator's verdict. Every other field and every other error entry is unchanged. |
| PostMeta.HandleSubmit | web/src/components/PostMeta.tsx:124-141 | The data is unchanged. The new error map holds exactly the fields present in the form that fail, each with its message. The form is handed on if and only if every present field passes. |
| PostMeta.AcceptedFormIsWellFormed | web/src/components/PostMeta.tsx:40-141 | A form that passes the gate has each of the eight known fields it holds in the required shape: a double-quoted title, a `dddd-dd-dd` date, a description and a category quoted with `'` or `"`, a double-quoted image holding `https://`, tags that parse as an array once `'` becomes `"`, a `true`/`false` draft and an `en`/`vi`/`jp` language. |
| PostMeta.TitleNeedsDoubleQuotes | web/src/components/PostMeta.tsx:42-45 | An unquoted title gets the title message. A quoted title passes, and so does a lone `"`. |
| PostMeta.MissingFieldsPassTheGate | web/src/components/PostMeta.tsx:128-139 | The gate validates only the keys the form holds, so a form with just a good title is handed on. |
| FrontMatter.MetaLines | web/src/pages/MarkdownPreview.tsx:110-119 | There are eight lines, `key: value` in the order title, published, description, image, tags, category, draft, lang. A missing key prints as `undefined`. |
| FrontMatter.Block | web/src/pages/MarkdownPreview.tsx:110-119 | The block opens with a `---` line and closes with a `---` line and one blank line. |
| FrontMatter.BlockLines | web/src/pages/MarkdownPreview.tsx:110-119 | When no value holds a line break, the block's lines are exactly `---`, the eight field lines in order, `---`, and two empty pieces. |
| FrontMatter.StripFirstBlock | web/src/pages/MarkdownPreview.tsx:121 | Without a match of `---…---\n\n` the body is unchanged. Otherwise exactly the leftmost lazy match is cut out, wherever it sits in the body. |
| FrontMatter.SubmitBody | web/src/pages/MarkdownPreview.tsx:110-121 | The new body is the block followed by the old body. When the old body holds a match of `---…---\n\n`, exactly the leftmost lazy match is cut from it first. |
| FrontMatter.SubmitReplaces | web/src/pages/MarkdownPreview.tsx:110-121 | Submitting over a body that an earlier submit produced replaces the earlier block. The result is as if only the later data had been submitted, provided the earlier values hold no line break. |
| FrontMatter.ParseLine | web/src/pages/MarkdownPreview.tsx:131-136 | A line that counts gives a key and a value with no white space at their ends, and a non-empty value. |
| FrontMatter.ParseLineAt | web/src/pages/MarkdownPreview.tsx:131-136 | A line with no colon gives nothing. Otherwise the line is split at its first colon. The key is the trimmed text before the colon, and the value is the trimmed text after it, later colons included. The pair counts when the untrimmed key and the trimmed value are non-empty. |
| FrontMatter.AssignAll | web/src/pages/MarkdownPreview.tsx:129-137 | Every key of the result was assigned by a parsed pair with that value, or was already there. Keys are never dropped. Every pair that counts is recorded, and for a key assigned more than once the last pair wins. A key no pair assigns keeps its old value. |
| FrontMatter.ReadLines | web/src/pages/MarkdownPreview.tsx:128-137 | Starting from an empty object, every key was read with its value from some line, every line that counts is recorded, and the last line for a key supplies its value. |
| FrontMatter.ExtractMeta | web/src/pages/MarkdownPreview.tsx:125-141 | Without a match of `---\n…\n---` the metadata is left as it was. Otherwise it is replaced by exactly what `ReadLines` reads from the lines that the leftmost lazy match captures. |
| FrontMatter.ParseFieldLine | web/src/pages/MarkdownPreview.tsx:110-119 | A written line `key: value` reads back as that key and value, when the key has no colon and no white space at its ends and the value is non-empty, trimmed and without a line break. |
| FrontMatter.AssignDistinct | web/src/pages/MarkdownPreview.tsx:131-137 | Assigning pairs with distinct keys binds each key to its own value and leaves other keys alone. |
| FrontMatter.StripAfterBlock | web/src/pages/MarkdownPreview.tsx:110-121 | A written block whose lines contain no line break is exactly the first match that the splice cuts from the block followed by any text. |
| FrontMatter.CaptureAfterBlock | web/src/pages/MarkdownPreview.tsx:110-126 | The leftmost lazy match of the extraction pattern on a written block followed by any text captures exactly the joined field lines. |
| FrontMatter.SubmitRoundTrip | web/src/pages/MarkdownPreview.tsx:108-141 | Extracting from a body produced by submitting `d` yields exactly the eight fields, each with its submitted value. This holds when every value is non-empty, has no white space at its ends and has no line break. |
| FrontMatter.SubmitTwice | web/src/pages/MarkdownPreview.tsx:108-123 | Submitting the same data twice gives the same body as submitting it once, when no value contains a line break. |
| Editor.BlankMeta | web/src/pages/MarkdownPreview.tsx:47-56 | The initial metadata has exactly the eight fields, all empty. |
| Editor.Open | web/src/pages/MarkdownPreview.tsx:99-168 | The router state's markdown and title are used when present. Otherwise the example markdown is used, and the route title or the empty text. The sha comes from the router state only. No post is fetched for the route `new`. The metadata is extracted from a non-empty markdown. |
| Editor.SubmitMeta | web/src/pages/MarkdownPreview.tsx:108-123 | The metadata becomes the dialog's data. The markdown is the block followed by the old markdown with its first `---…---\n\n` match cut out. Title and shas are unchanged. |
| Editor.SubmitMetaTwice | web/src/pages/MarkdownPreview.tsx:108-123 | Submitting the dialog twice gives the same editor state as submitting it once. A second submit with other data gives the state of submitting only that data. Both hold when the first data holds no line break. |
| Editor.Upload | web/src/pages/MarkdownPreview.tsx:172-211 | The request path is the posts directory, the trimmed title and `.md`. The message starts with "Update post: " exactly when the router state carried a non-empty sha, and with "Add new post: " otherwise, and it ends with the trimmed title. The content is the encoded markdown. The sha sent is the fetched post's. |
| Editor.UploadMessages | web/src/pages/MarkdownPreview.tsx:183-185 | With no sha the message is "Add new post: " and the title. With a non-empty sha it is "Update post: " and the title. |
| Editor.EditFromListUploadsAsNew | web/src/pages/Posts.tsx:192-197 | An editor opened with the state an edit from the list hands over (the cached text, no sha) announces its upload as a new post, while the sha sent is still the fetched one. |
| Editor.OpenReadsSubmittedMeta | web/src/pages/MarkdownPreview.tsx:164-168 | Opening the editor on a submitted body reads back exactly the submitted values. |
| Entries.Fallback | web/src/pages/Posts.tsx:100-110 | The fallback row keeps the entry, is stamped now, is not a draft and has no content. |
| Drafts.SkipSpaces | web/src/pages/Posts.tsx:86 | `\s*` consumes the longest run of white space. |
| Drafts.DraftAt | web/src/pages/Posts.tsx:86 | At one position, `draft:\s*(true\|false)` matches capturing `true` (respectively `false`) exactly when the text there is `draft:`, white space, then that word. |
| Drafts.FirstMatch | web/src/pages/Posts.tsx:86 | No match means no position matches. Otherwise the result is the capture at the first position that matches. |
| Drafts.Draft | web/src/pages/Posts.tsx:86-87 | The flag is true exactly when the leftmost match of the pattern captures `true`. No match gives false. |
| Drafts.FrontSection | web/src/pages/Posts.tsx:85 | With no `---` in the text there is no second piece, and the line throws. Otherwise the section is the text between the first `---` and the next one, or the end. |
| Drafts.DraftFlag | web/src/pages/Posts.tsx:85-87 | There is no flag, because parsing throws, exactly when the text has no `---`. Otherwise the flag is `Draft` of the first section. |
| Walker.WalkNode | web/src/pages/Posts.tsx:67-70 | A file that is neither a directory nor named `*.md` gives no rows and leaves the cache alone. |
| Walker.WalkCache | web/src/pages/Posts.tsx:72-83 | After the walk the cache holds the old keys plus the paths of the markdown files whose requests succeeded, and nothing else. An old key not fetched keeps its text. Every row with content was fetched. When no path is fetched twice, the cache holds each such row's text under its path. |
| Walker.WalkRows | web/src/pages/Posts.tsx:52-111 | Every row comes from an entry reachable through successful listings. A directory only yields a fallback row. A row without content is a fallback. A row with content is a markdown file whose path is cached. |
| Walker.WalkRowsAll | web/src/pages/Posts.tsx:57-65 | The same holds for the rows of a whole listing. |
| Walker.WalkEntries | web/src/pages/Posts.tsx:52-111 | The entries of the rows are exactly the expected ones, in order. A directory with a listing gives the entries of its children. A directory whose listing failed gives itself. A markdown file gives itself, whether or not its requests succeeded. Any other file gives nothing. |
| Walker.WalkEntriesAll | web/src/pages/Posts.tsx:57-65 | The rows of a whole listing carry exactly the expected entries of its nodes, one after the other. |
| Walker.RowsIgnoreCache | web/src/pages/Posts.tsx:82-83 | The rows never depend on what the cache held before, because the walk only writes to it. |
| Walker.WalkAppend | web/src/pages/Posts.tsx:61-64 | Walking two listings in turn is walking their concatenation, so rows keep listing order. |
| Walker.CachedBeforeParse | web/src/pages/Posts.tsx:83-87 | A markdown file's text is cached before its draft flag is read. Text with no `---` gives the fallback row but stays cached. |
| Walker.FailureYieldsFallback | web/src/pages/Posts.tsx:100-110 | A directory whose listing failed, or a markdown file whose requests failed, gives exactly one fallback row and leaves the cache alone. |
| Walker.ThreeFileListing | web/src/pages/Posts.tsx:57-99 | A listing of `a.md`, a directory holding `b.md`, and `notes.txt` gives the rows for `a.md` then `b.md`, and caches both texts. |
| Sorting.Insert | web/src/pages/Posts.tsx:127-132 | Inserting into a newest-first list keeps it newest first, and adds exactly the one row. |
| Sorting.SortNewest | web/src/pages/Posts.tsx:127-132 | The sorted rows are a permutation of the walked rows, newest first. |
| Sorting.SortStable | web/src/pages/Posts.tsx:127-132 | Rows with the same timestamp keep their walk order. |
| Sorting.SortSorted | web/src/pages/Posts.tsx:127-132 | Rows already newest first are left as they are. |
| PostList.Load | web/src/pages/Posts.tsx:113-145 | On status 200 both lists become the walked rows, newest first and permuted, the cache is the walk's, and the error is cleared. On another status only the error is cleared. On an exception the error is its message or "Failed to fetch posts". Loading ends in every case. |
| PostList.LoadedRows | web/src/pages/Posts.tsx:52-135 | After a successful load every shown row comes from a reachable entry. The shown rows carry exactly the expected entries of the listing, each as often. When no path is fetched twice, the cache holds each shown row's text. Rows with the same timestamp keep walk order. Rows stamped with the clock (fallbacks and files with no commit) all share one reading here, so they tie. In the client each one reads the clock when its node settles. |
| PostList.Hits | web/src/pages/Posts.tsx:222-224 | A row is kept exactly when its lower-cased name contains the lower-cased term. |
| PostList.Search | web/src/pages/Posts.tsx:212-232 | A term that trims to nothing restores the master list. Any other term shows exactly the master rows that match it, in master order (`Hits`). The master list is never changed. |
| PostList.HitsAppend | web/src/pages/Posts.tsx:222-224 | The hits keep the master order. |
| PostList.SearchForgetsEarlier | web/src/pages/Posts.tsx:219-226 | A search does not depend on an earlier search, and repeating it changes nothing. |
| PostList.WithoutSha | web/src/pages/Posts.tsx:163-168 | The rows kept are exactly those without the deleted sha. |
| PostList.WithoutShaAppend | web/src/pages/Posts.tsx:163-168 | Deleting keeps the order of the rows that stay. |
| PostList.WithoutAbsentSha | web/src/pages/Posts.tsx:163-168 | When no row carries the sha, nothing is removed. |
| PostList.RequestDelete | web/src/pages/Posts.tsx:269 | The row awaits confirmation and nothing else changes. |
| PostList.CancelDelete | web/src/pages/Posts.tsx:447-453 | The confirmation is cleared and nothing else changes. |
| PostList.ConfirmDelete | web/src/pages/Posts.tsx:147-179 | With nothing pending nothing happens. On status 200 every row with the sha leaves both lists and the cache forgets exactly that path. On an exception only the error is set. The confirmation is cleared in every case. |
| PostList.EditPost | web/src/pages/Posts.tsx:181-210 | Edit navigates exactly when the cache holds non-empty text for the path. It hands over that text, the name with its first `.md` removed, and the path, but no sha. |
| PostList.DeletedPostCannotBeEdited | web/src/pages/Posts.tsx:169-187 | After a confirmed delete, the deleted row's path is no longer cached, so editing it does not navigate. |
| PostList.EditRoute | web/src/pages/Posts.tsx:188-192 | A path that holds neither `src/content/posts/` nor `.md` is routed at `/posts/` and the path itself. |
| PostList.EditRouteOfPath | web/src/pages/Posts.tsx:188-192 | The path `src/content/posts/<slug>.md` is routed at `/posts/<slug>` when the slug holds no `.md`. |
| PostList.EditRouteOfPost | web/src/pages/Posts.tsx:189-192 | Edit on a post stored as `src/content/posts/<slug>.md` navigates to `/posts/<slug>`, handing over its name without `.md` as the title and no sha. Whether a route matches is not modelled. |
| PostList.Slug | web/src/pages/Posts.tsx:237 | The slug is the name without its last three characters, whatever they are, and empty for shorter names. Characters are code points here, not the UTF-16 code units `slice` counts. |
| PostList.ViewUrl | web/src/pages/Posts.tsx:237-249 | For a name ending in `.md`, the link is the base, the name without that suffix, a slash and that stem again. A name shorter than three characters links to the base and a slash. |
| PostList.ShowsActions | web/src/pages/Posts.tsx:238-243 | View and Edit are shown exactly when `.md` occurs somewhere in the name, so always for a name ending in `.md`. |
| PostList.ViewUrlOfMarkdown | web/src/pages/Posts.tsx:237-249 | The link of `<stem>.md` is the base, the stem, a slash and the stem again, and View/Edit are shown for it. |
| PostList.ViewOfMarkdownInMiddle | web/src/pages/Posts.tsx:237-238 | `.md` anywhere in a name shows View and Edit, and the slug then just drops the last three characters. |
| Adapter.UpdatePosts | android/app/src/main/java/com/shinbun/bo/PostsAdapter.kt:60-64 | The list becomes exactly the given posts, in order. |
| Adapter.ItemCount | android/app/src/main/java/com/shinbun/bo/PostsAdapter.kt:58 | The item count is the list length. |
| Adapter.RemovePost | android/app/src/main/java/com/shinbun/bo/PostsAdapter.kt:66-72 | Only the first post with the sha is removed. Without one the list is unchanged. The item count drops by one exactly when some post has the sha. |
| Adapter.UpdateThenRemove | android/app/src/main/java/com/shinbun/bo/PostsAdapter.kt:58-72 | After replacing the list, the item count is the number of given posts. Removing one of them then leaves one fewer. |
| Adapter.RemoveKeepsTheRest | android/app/src/main/java/com/shinbun/bo/PostsAdapter.kt:66-72 | Removal takes exactly one occurrence away, and the posts before and after keep their order. |
| Adapter.RemoveOnlyFirst | android/app/src/main/java/com/shinbun/bo/PostsAdapter.kt:67-69 | Of two posts sharing a sha only the first goes. |
| Adapter.Bind | android/app/src/main/java/com/shinbun/bo/PostsAdapter.kt:31-56 | View and Edit are visible exactly when the name ends with `.md`. The link is then the base and the name with that suffix removed once. |
| Adapter.ViewUrlOfMarkdown | android/app/src/main/java/com/shinbun/bo/PostsAdapter.kt:39-41 | The Android link of `<stem>.md` is the base and the stem. |
| Adapter.MarkdownInMiddleHidden | android/app/src/main/java/com/shinbun/bo/PostsAdapter.kt:35 | A name with `.md` only in the middle gets no View or Edit on Android. |
| Strings.Split | web/src/pages/MarkdownPreview.tsx:131-133 | `split` gives at least one piece, and joining the pieces with the separator gives back the text. |
| Strings.SplitCuts | web/src/pages/MarkdownPreview.tsx:131-133 | Every cut of `split` is at the first occurrence of the separator after the previous cut, and the last piece holds none. |
| Strings.SplitUnique | web/src/pages/MarkdownPreview.tsx:131-133 | The pieces of `split` are the only ones that join back to the text with every cut at a first occurrence and no separator in the last piece. |
| Strings.SplitPiecesFree | web/src/pages/MarkdownPreview.tsx:131-132 | No piece of `split` contains the separator. |
| Strings.LazyMatch | web/src/pages/MarkdownPreview.tsx:126 | The result is the leftmost occurrence of the opening text, closed by the first closing text at or after its end. There is none exactly when no such span exists. |
| Strings.Trim | web/src/pages/MarkdownPreview.tsx:133 | The result is a slice of the text with only white space outside it, and no white space at its own ends. It is empty exactly when the text is all white space. Trimmed text is left alone. |
| Strings.ReplaceFirst | web/src/pages/Posts.tsx:189-195 | `replace` with a text pattern replaces only the first occurrence, or nothing when there is none. |

## Left out

- HTTP and concurrency: every GitHub request is replaced by the reply it
  received, carried by the tree or given as a parameter. The `Promise.all`
  fan-out is walked sequentially in listing order. That is the order in which
  the cache is filled, which agrees with the concurrent order whenever no path
  is listed twice.
- A reply of the wrong shape for its node (a listing where a file was
  expected, or the reverse) is treated as a request that threw.
- The 300 ms search delay and the loading flags of search and delete.
- UI and routing: React state and effects, dialogs, rendering, MUI and
  Android views, `notifyDataSetChanged`/`notifyItemRemoved`, the router and
  `ProtectedRoute`. The effects are folded into `Editor.Open`.
- `marked`/`hljs` preview rendering, and the scroll synchronisation, which
  uses floating-point ratios and timers.
- `Base64.encode` and `JSON.parse` are opaque function parameters. The parse
  is reduced to throws / not an array / an array.
- Dates: `Date` parsing, `toISOString` and the `b - a` comparator on parsed
  dates are replaced by integer timestamps compared directly. An unparseable
  date (`NaN` in the comparator) is not modelled.
- `getPostContent` is not part of this model. Its result is the given text of
  a `Content` reply.
- Error messages: `err instanceof Error ? err.message : …` is an optional
  message that falls back to the fixed text.
- `toLowerCase` folds ASCII letters only. Unicode case mapping is not modelled.
- Authentication (the admin/admin checks and the localStorage flag), the other
  Android and backend files, the older `src/` variants of the pages, and the
  layout-only components.
- Strings.Split: its own contract states only the piece count and the
  join. The cuts are stated by the lemmas `SplitCuts` and `SplitUnique`,
  because putting them in the function's contract made every caller's
  proof too costly.
- Strings.ReplaceFirst: the replacement text is inserted literally. The
  `$&`, `` $` ``, `$'` and `$$` patterns are not expanded. No call
  site passes a replacement containing `$`.
- Walker.WalkNode: one clock reading `now` stands for every `new Date()`
  call. The client reads the clock separately for each fallback row and
  for each file without a commit date, when that node's request settles
  (web/src/pages/Posts.tsx:94 and :105). In the model those rows all carry
  the same timestamp, so the stable sort keeps them in walk order. The `b - a`
  sort in the client puts the one that settled last first. `Entries.Fallback`,
  `PostList.Load` and `PostList.LoadedRows` inherit this.
- PostList.LoadedRows: the order among rows stamped with the clock is not
  promised by the client. The stable-order clause holds for them only because
  of the single clock reading above.
- PostList.Slug: strings are sequences of Unicode code points, not of UTF-16
  code units. `slice(0, -3)` and `length` count code units, so they differ
  whenever a name holds a character outside the Basic Multilingual Plane.
  For example, `x.md😀` gets the link stem `x.m` in the client and `x.`
  here. Lone surrogates cannot be represented. The same applies to every
  length and slice in `Strings`.
- FrontMatter.AssignAll: the JavaScript object `meta` is modelled as a map.
  In the client, assigning the key `__proto__` goes through the prototype
  setter, which ignores a string value and records no key. The model records
  `__proto__` like any other key, so for a line `__proto__: x` the model's
  metadata holds that key and the client's does not. `FrontMatter.ReadLines`
  and `FrontMatter.ExtractMeta` inherit this.
- PostList.EditRouteOfPost: the router is not modelled. The route table
  (web/src/App.tsx:58-65) mounts the editor only at
  `/posts/:postDirectory/:postTitle`, with no catch-all, so the one-segment
  `/posts/<slug>` that Edit produces for a post directly under
  `src/content/posts/` matches no route and no editor opens. For a nested
  `src/content/posts/<dir>/<name>.md` the editor does open, but it takes its
  title from the last route segment only (web/src/pages/MarkdownPreview.tsx:42)
  and ignores the handed-over path: it fetches and uploads
  `src/content/posts/<name>.md` (:148, :183), not the listed path. In the model
  `Editor.Open` takes the route title and the fetched post as free parameters,
  unconnected to `PostList.EditPost`'s route, so
  `Editor.EditFromListUploadsAsNew` holds only under that unmodelled router.
- `Walker.WalkAll` carries no contract of its own. Its properties are the
  lemmas `WalkCacheAll`, `WalkRowsAll`, `RowsIgnoreCacheAll` and `WalkAppend`.
