# blackblog core, modelled in Dafny

Blackblog turns a directory of Markdown posts into a blog. It can serve the blog
over HTTP or write it out as static HTML. This project models the core of that
program and proves properties of the model:

- **Posts** (`post.go`). A post's `~~key: value` front matter and its three read
  modes: lazy, reload-metadata and contents. The MD5 checksum decides whether a
  post is stale. The module also covers the URL built from the metadata (a slug,
  then `year/month/`), permalinks, `GetDate` and the sort order.
- **RenderTree** (`rendertree.go`). The render tree: a root directory holding
  `feed.xml`, one post node per post at the `/`-pieces of its URL, and an
  `index.html` redirect to the root in every directory the build creates. It also
  covers the depth and relative root path of a node, and the traversal that
  collects the posts.
- **Blogs** (`blog.go`). Locating the configuration file, resolving configured
  directories against it, and turning the Markdown option names into flag masks.
- **Server** (`server.go`). `ServeHTTP`'s slash trimming and tree walk, the
  response `serveNode` gives for each kind of node, and `buildPosts`' decision to
  rebuild.
- **Writer** (`writer.go`). `WriteStaticBlog`'s stages and `writeRenderTree`.
  Every directory made and file written is recorded as an `Action`.
- **Strs** and **Paths**. The parts of Go's `strings`, `strconv` and `path`
  packages that the core calls, written out so that their results can be reasoned
  about.

The file system, MD5, `time.Parse`, the template renderers and JSON decoding are
parameters of the model: maps and function values that any implementation may
fill in. Every theorem holds for all of them.

Some behaviour of the source looks unintended. The model keeps it as written and
states it as a theorem:

- A lazily parsed stale post stores the digest of the empty text. The staleness
  test has already read the file to its end.
- The writer joins every entry name directly onto the output directory, however
  deep the entry sits.
- The writer has no case for the feed node, so writing a built tree always fails.
- The server answers `feed.xml` with a 500 for the same reason.

TestDepthPath (`rendertree_test.go:203-225`) expects "../" for a child of the root
and "../../" for a grandchild. `depthPath` (`rendertree.go:176-182`) gives one
"../" fewer: "" and "../". The model follows the code, which gives a post three
levels down the "../../" it needs to reach the root (RenderTree.DepthPathChain,
RenderTree.PlacedDepthPath).

`writer.go` builds its not-a-directory error from `blog.OutputDir`, which `Blog`
does not declare. The model uses the configured output directory there.

## Model

| member | source | states |
|---|---|---|
| Strs.Split | server.go:82 | strings.Split on one separator: at least one piece, no piece holds the separator, and joining the pieces with it gives the input back |
| Strs.SplitJoin | rendertree.go:105 | splitting a join of separator-free pieces gives back exactly those pieces |
| Strs.SplitAppend | rendertree.go:105 | appending a separator and a separator-free piece appends that piece to the split |
| Strs.LastSplitIsAfterLast | rendertree.go:95 | the last piece of a split is the text after the last separator |
| Strs.TrimSpace | post.go:193 | strings.TrimSpace: the result is a slice of the input framed by white space only, and neither starts nor ends with white space |
| Strs.ToLower | post.go:218 | lower-casing keeps the length and maps every character on its own |
| Strs.IntToString | post.go:229 | strconv.FormatInt: a '-' exactly for a negative number, followed by the printed digits of its magnitude |
| Strs.NatToString | post.go:229 | strconv.Itoa of a month: a non-empty string of digits, without a leading zero, whose decimal value is the number |
| Strs.NatToStringUnique | post.go:229 | every digit string without a leading zero is the one Itoa prints for its value, so the printed form is unique |
| Strs.StrLessTransitive | post.go:295 | Go's string ordering is transitive |
| Strs.StrLessAsymmetric | post.go:295 | Go's string ordering never holds both ways round |
| Strs.RepeatAdd | rendertree.go:181 | repeating a times and then b times is repeating a + b times |
| Paths.CleanOfNormalPath | post.go:229 | a relative path made only of normal segments is already clean |
| Paths.CleanKeepsNormalLast | post.go:229 | cleaning keeps a normal final segment as the final segment |
| Paths.BaseIsLastSegment | rendertree.go:95 | path.Base of a path not ending in '/' is the last piece of its '/'-split |
| Paths.SplitDirsAndBase | rendertree.go:95-110 | the directory pieces insertPost walks, followed by the Base it stores under, are the whole split |
| Paths.JoinEndsWithName | blog.go:101-103 | joining a directory with a plain name ends with that name as the last segment |
| Posts.ParseMetadataLine | post.go:182-203 | a metadata line never touches the file name, checksum or cached date; a non-"~~" line or one without ':' changes nothing; at most one of title, url and date changes |
| Posts.MetadataLineFields | post.go:186-202 | for "~~key:value" the split is at the first ':' only, the key's case and surrounding space are ignored, and an unknown key changes nothing |
| Posts.ApplyAllLastWins | post.go:153-165 | over a whole file each field ends up with the value of the last line naming it |
| Posts.ApplyAllKeepsChecksum | post.go:182-203 | metadata lines never change the checksum, file name or cached date |
| Posts.LeadingMeta | post.go:161-169 | the lines reload mode applies: the leading run of "~~" lines, stopping at the first other line |
| Posts.ReadLine | post.go:154 | ReadString('\n') returns the text from the position up to and including the first '\n' after it, or, at end of file, all the rest, which holds no '\n' |
| Posts.ReadLineIsFirstLine | post.go:153-178 | the line read at a position is the first of the remaining lines, and reading continues with the rest |
| Posts.ConcatLines | post.go:172 | concatenating the lines gives the text back: no byte is lost or added |
| Posts.ReadLoopFull | post.go:153-179 | outside reload mode the loop applies every metadata line and returns every other line as the body |
| Posts.ReadLoopReload | post.go:161-169 | reload mode applies only the leading metadata lines and returns no contents |
| Posts.ParseContents | post.go:137-180 | contents mode stores the checksum of the whole file, applies every metadata line and returns the body without them |
| Posts.ParseReload | post.go:137-169 | reload mode stores the file's checksum and applies only the leading metadata lines |
| Posts.IsUpToDateInternal | post.go:100-111 | a post is current exactly when its checksum is set and equals the digest of what is left to read; a nil checksum reads nothing |
| Posts.IsUpToDate | post.go:91-98 | a post is up to date exactly when its file opens and its stored checksum is that file's digest |
| Posts.LazyParseCurrentIsNoOp | post.go:144-146 | lazy parsing of a current post changes nothing |
| Posts.LazyParseFirstLoad | post.go:137-180 | lazy parsing of a never-loaded post is a full parse |
| Posts.LazyParseStaleStoresEmptyDigest | post.go:144-148 | lazy parsing of a stale post stores the digest of the empty text, because the staleness test consumed the reader |
| Posts.StaleRefreshStaysStale | post.go:119-121 | so after UpdateMetadata a stale post is still stale, unless its file digests like the empty text |
| Posts.LoadedChecksum | post.go:75-81 | loading sets the checksum to the file's digest when the file opens and leaves it nil otherwise |
| Posts.NewPostFromPath | post.go:75-82 | a post is created exactly when its file opens, with that file's digest; otherwise the error is "Could not checksum blog post" |
| Posts.NewPostLoadsAllMetadata | post.go:75-82 | a new post holds the metadata of every "~~" line of its file and is up to date |
| Posts.ReplaceNonWord | post.go:210 | every character outside [A-Za-z0-9_] becomes '_' and every other one is kept |
| Posts.CollapseUnderscores | post.go:211 | no two '_' remain adjacent, emptiness and a leading '_' are kept, and no new character appears |
| Posts.CollapseKeepsLetters | post.go:211 | every character other than '_' is kept, in order, and the result ends in '_' exactly when the input does |
| Posts.CollapseMatchesReference | post.go:211 | the rewrite equals a left-to-right scan that drops each '_' following a '_' |
| Posts.SlugWordChars | post.go:210-211 | a title's slug holds word characters only |
| Posts.LowerSlug | post.go:218 | lower-casing a slug keeps word characters, leaves no upper-case letter and keeps '_' exactly where it was |
| Posts.LeafOfTitle | post.go:208-224 | with no url fragment and a title, the leaf is the lower-cased slug less one trailing '_', then ".html" |
| Posts.TitleLeafShape | post.go:208-224 | a title-derived leaf has only lower-case word characters, no "__", no '_' before ".html", and ends in ".html" |
| Posts.BaseName | post.go:207-216 | the basename is the URL fragment when set, else the slug of the title when set, else the file's last element without its extension |
| Posts.LeafOfFragment | post.go:208-224 | a set URL fragment alone decides the leaf, whatever the title and file name; a fragment ending in neither '_' nor '/' gives its lower-case form plus ".html" |
| Posts.LeafOfFileName | post.go:212-224 | with neither fragment nor title the leaf is the file's last element without the extension, lower-cased, less one trailing '_', plus ".html" |
| Posts.LeafEndings | post.go:218-224 | a lower-cased basename ending in '/' gets "index.html", one ending in '_' loses that '_' before ".html", any other gets ".html" |
| Posts.TitleLeafClean | post.go:208-233 | a title-derived leaf is one normal path segment, so a dated post's URL is "year/month/leaf" |
| Posts.Leaf | post.go:224 | every leaf name ends in ".html" |
| Posts.CreateURLUndated | post.go:226-232 | without a parseable date the URL is just the leaf |
| Posts.CreateURLDated | post.go:226-232 | with a date and a clean relative leaf the URL is "year/month/leaf" |
| Posts.URLLastSegment | post.go:206-233 | the last segment of every post URL is a normal name ending in ".html" |
| Posts.URLEndsInHtml | post.go:206-233 | every post URL ends in ".html", so it is never empty and never ends in '/' |
| Posts.CreatePermalink | post.go:235-242 | the permalink is the blog URL, then a '/' only if it lacked one, then the post URL |
| Posts.GetDateAfterCreateURL | post.go:226-249 | after CreateURL cached the date, GetDate is nil exactly for an empty date string and otherwise the parsed date; that date is non-zero exactly when the URL got "year/month/", with its year and month; caching leaves the URL unchanged |
| Posts.LessIrreflexive | post.go:287-296 | no post sorts before itself |
| Posts.LessAsymmetric | post.go:287-296 | two posts never sort before each other both ways |
| Posts.LessTransitiveUniform | post.go:287-296 | among posts that are all dated, or all undated, the order is transitive |
| PostExamples.FileNameURL | post_test.go:109 | an undated post named "/some/test/test_post.md" gets "test_post.html", whatever time.Parse does |
| PostExamples.TitleURL | post_test.go:110 | an undated post titled "Test tEsT TEST" gets "test_test_test.html" |
| PostExamples.FragmentURL | post_test.go:111 | an undated post with fragment "foobar" gets "foobar.html" |
| PostExamples.DatedFragmentURL | post_test.go:104 | fragment "test" dated "25 January 2012" gets "2012/1/test.html" |
| PostExamples.DottedFragmentURL | post_test.go:105 | fragment "test.html" dated "12 December 2012" gets "2012/12/test.html.html" |
| PostExamples.DatedTitleURL | post_test.go:106 | title "Foobar" dated "1 January 2012" gets "2012/1/foobar.html" |
| PostExamples.SpacedTitleURL | post_test.go:107 | title "Some Post" dated "4 April 2012" gets "2012/4/some_post.html" |
| PostExamples.DatedFileNameURL | post_test.go:108 | file "some/path/a_post.md" dated "March 3, 2012" gets "2012/3/a_post.html" |
| PostExamples.SortedPostsOrder | blackblog_test.go:44-84 | the six test posts have the expected URLs; in the expected order each sorts before every later one and after none, and the reverse order is the reversed list |
| PostExamples.LessCycle | post.go:287-296 | three posts, two dated and one undated, each sort before the next in a cycle, so the order is not transitive |
| RenderTree.DepthPathChain | rendertree.go:176-182 | the root and its child render with "" and the grandchild with "../", one "../" fewer than TestDepthPath expects for both |
| RenderTree.PutFind | rendertree.go:96-100 | after assignment the key holds the new node, every other key keeps its node, and a new key goes at the end |
| RenderTree.FindNone | rendertree.go:112 | lookup finds nothing exactly when no entry carries the key |
| RenderTree.CacheAllKeeps | rendertree.go:78-82 | caching keeps each post's URL and every field but the cached date, and GetDate on the copy is the parsed date string, or nil for an empty one |
| RenderTree.InsertPostTarget | rendertree.go:89-100 | insertPost stores a post at the '/'-pieces of its URL |
| RenderTree.LeafIsNotFeed | rendertree.go:74-100 | no post is ever stored under "feed.xml", since every leaf ends in ".html" |
| RenderTree.InsertAtError | rendertree.go:112-118 | a failed insertion reports the URL and the non-directory it met |
| RenderTree.InsertAtVisit | rendertree.go:104-143 | insertion adds the post and drops exactly the posts stored at its path before |
| RenderTree.InsertAtPlaces | rendertree.go:104-143 | after insertion the post is found at its path, whatever was there before |
| RenderTree.InsertAtFrame | rendertree.go:104-143 | insertion leaves every node whose path is unrelated to the post's path as it was |
| RenderTree.InsertAtPaths | rendertree.go:104-143 | insertion adds at most the post's own path to the tree's post paths |
| RenderTree.InsertAtWellFormed | rendertree.go:119-138 | insertion keeps every stored depth consistent and every created directory's index redirect in place |
| RenderTree.KeepsIndex | rendertree.go:129-138 | a successful insertion keeps the directory's index entry intact |
| RenderTree.NewDirOk | rendertree.go:129-138 | a created directory is well formed: its index redirects "../" once per level |
| RenderTree.WalkDepth | rendertree.go:166-173 | in a well-formed tree a node's depth is the length of its path |
| RenderTree.PutVisit | rendertree.go:96-100 | assigning a node under a name trades the posts of the old node for those of the new |
| RenderTree.VisitComplete | rendertree.go:145-164 | the traversal reaches every post found at any path |
| RenderTree.InsertPostVisit | rendertree.go:88-102 | one insertion at a path with nothing at or below it adds exactly its post |
| RenderTree.InsertAllError | rendertree.go:78-82 | a failed build reports the URL of one of the posts |
| RenderTree.InsertAllVisit | rendertree.go:78-82 | with prefix-free paths the insertions add exactly the posts, as a multiset |
| RenderTree.InsertAllFrame | rendertree.go:78-82 | a placed node stays put while later, unrelated posts are inserted |
| RenderTree.InsertAllPlaces | rendertree.go:78-82 | with prefix-free paths every post ends up at its own path |
| RenderTree.BuiltRoot | rendertree.go:69-84 | a built tree is a well-formed root directory whose "feed.xml" is the feed of all posts |
| RenderTree.BuildError | rendertree.go:69-84 | a failed build reports the URL of one of the posts |
| RenderTree.RoundTrip | rendertree.go:69-84 | with prefix-free paths the built tree visits exactly the input posts, as a multiset |
| RenderTree.Placement | rendertree.go:69-143 | with prefix-free paths each post sits at the pieces of its URL, as many levels below the root as there are pieces |
| RenderTree.PostAtDepth | rendertree.go:166-182 | in a well-formed tree a post reached by a path sits as many levels down as the path has pieces, and renders with "../" one time fewer |
| RenderTree.SlashFreeTarget | post.go:206-233 | a post whose basename has no '/' has a URL of three pieces when dated and of one piece otherwise |
| RenderTree.PlacedDepthPath | rendertree.go:176-182 | a placed post renders with "../" once per URL piece above it: "../../" when such a post is dated and its basename has no '/', "" when it is undated and has none |
| Blogs.ConfigLocationSuffix | blog.go:116-118 | the located config path ends in "blackblog.json", equals the argument exactly when the argument already does, and locating twice changes nothing |
| Blogs.StaticFilesDirEmpty | blog.go:86-91 | the static directory is "" exactly when none is configured, and is resolved against the config path otherwise |
| Blogs.GetPathEndsWithPart | blog.go:101-103 | a plain configured name is the last segment of the resolved path |
| Blogs.ReadBlogOutcome | blog.go:115-141 | ReadBlog fails exactly when loading fails or an option name is unknown, and keeps the loaded config and the cleaned location |
| Blogs.ParseFlagsKnown | blog.go:159-168 | parsing succeeds exactly when every listed name is in the table |
| Blogs.ParseFlagsFirstUnknown | blog.go:160-164 | an error quotes the first unknown name, and every name before it is known |
| Blogs.ParseFlagsErrorIndependent | blog.go:159-168 | whether parsing fails, and its message, does not depend on the starting flags |
| Blogs.ParseFlagsBits | blog.go:159-168 | a successful parse ORs exactly the listed names' bits into the starting flags |
| Blogs.ParseFlagsSetOnly | blog.go:165 | the result depends only on the set of names listed, not on their order or repetitions |
| Blogs.LookupBitTable | blog.go:161 | a name is found exactly when it is in the table, with its own bit |
| Blogs.ExtensionExample | blog.go:171-185 | FOOTNOTES and NO_INTRA_EMPHASIS set their two bits and nothing else |
| Blogs.HTMLOptionExample | blog.go:187-204 | the three default HTML options plus SAFELINK and TOC set their five bits |
| Blogs.DefaultHTMLMask | blog.go:147-152 | the default HTML list adds SMARTYPANTS, XHTML and LATEX_DASHES to the starting flags |
| Blogs.ParseOptionsFromZero | blog.go:143-157 | an absent HTML list means the three defaults, an empty one means none |
| Blogs.ParseOptionsMasks | blog.go:143-157 | a successful parseOptions sets exactly the bits of the listed extensions and of the listed (or default) HTML options |
| Blogs.ParseOptionsError | blog.go:144-155 | an error carries the prefix of the list it came from, and an extension error leaves the HTML options alone |
| Server.TrimLeadingSlashes | server.go:72 | the result is a suffix of the input after slashes only, and does not start with '/' |
| Server.TrimSlashes | server.go:72 | strings.Trim(path, "/"): a slice of the path framed by slashes only that neither starts nor ends with '/' |
| Server.TrimSlashesEmpty | server.go:72-80 | a path trims to nothing exactly when it is all slashes |
| Server.TrimLeadingSlash | server.go:72 | a URL with no slash at either end is found again from "/" + URL |
| Server.ResolveWalk | server.go:82-93 | the request walk finds a node exactly where the tree's Walk does |
| Server.ResolveFailures | server.go:82-91 | the walk panics exactly when a prefix reaches a non-directory, and is a 404 exactly when a prefix reaches a directory without the next segment |
| Server.AnyStale | server.go:153-160 | the loop finds a stale post exactly when some stored post is not up to date |
| Server.ServeWithoutTree | server.go:77-93 | without a tree every request panics |
| Server.ServeRootIndex | server.go:110-120 | a path of slashes only gets the post index, or a 500 when creating it fails |
| Server.ServePlacedPost | server.go:96-107 | in a built tree a post's URL, with any slashes around it, serves that post's rendered contents, or a 404 with the read error |
| Server.ServeSubdirectory | server.go:122-129 | a request reaching a subdirectory moves to "../" once per level while its index is the redirect, and panics if a post replaced it |
| Server.ServeFeed | server.go:130-133 | in a built tree "feed.xml" is answered with a 500 "Unknown render" |
| Server.BuildScanFails | server.go:146-149 | a failed first scan changes nothing and reports the scan's error |
| Server.RebuildDecision | server.go:151-175 | a rebuild happens exactly when the count changed or a stored post is stale; otherwise nothing changes |
| Server.RebuildOutcome | server.go:163-175 | a failed second scan still replaces the posts; a failed build drops the tree and reports a post's URL; a successful one installs the tree |
| Server.EmptyBlogPanics | server.go:145-177 | an empty blog never gets a tree, so every request panics |
| Server.RebuildServesPosts | server.go:163-175 | after a successful rebuild with prefix-free paths every post is served at its URL |
| Writer.RedirectRoundTrip | render.go:173-175 | the target of a generated redirect page is recovered from the page |
| Writer.RedirectTargetSound | render.go:173-175 | a page with a recoverable target is exactly the redirect page for that target |
| Writer.Create | writer.go:98-103 | a file is recorded exactly when os.Create succeeds, with the content given; on failure nothing is recorded |
| Writer.WriteEntriesAppend | writer.go:67-116 | the writer stops at the first failing entry and otherwise carries on from where it got |
| Writer.WritePostPage | writer.go:80-103 | a post is read, rendered with "../" once per directory above it, and written at its output path; each failure stops the writer |
| Writer.WriteRedirectPage | writer.go:104-110 | a written redirect entry holds a page whose target is the redirect's link |
| Writer.FeedError | writer.go:111-113 | a feed entry stops the writer with the unknown-render error for its path, after the entries before it |
| Writer.FeedFailsWrite | writer.go:111-113 | a directory holding a feed entry is never written completely |
| Writer.BuiltTreeNotWritten | writer.go:67 | a built tree is never written out, in whatever order its root's entries are visited |
| Writer.StaticBlogFails | writer.go:31-57 | WriteStaticBlog never succeeds: scan and build errors carry their stage's prefix with nothing written, and otherwise writing the files fails |
| Writer.EntriesWriteFlat | writer.go:67-68 | every directory and file the writer makes is the output directory joined with a single entry name from the tree |
| Writer.NodeWriteFlat | writer.go:68-79 | a subdirectory's entries are written beside it, under the output directory, not inside it |
| Writer.LeafWriteFlat | writer.go:80-113 | a post, redirect or feed entry touches at most its own output path |

## Left out

- Reading files, walking directories, and the clock are not modelled. File contents are a map from path to text, and GetPostsInDirectory's result (post.go:56-71) is an input `Scan`.
- MD5, `time.Parse`, JSON decoding, the templates, RenderPost and CreateIndex are function parameters. Their bodies (render.go) are not part of this model.
- `os.Mkdir` and `os.Create` are a `Disk` oracle. Errors from `f.Write` and `f.Close` are ignored, as in the source.
- The locks, the polling goroutine, and the channel in visitPosts are not modelled. visitPosts is modelled as a sequential traversal.
- Go's map iteration order is random. The writer and the traversal use the stored entry order. BuiltTreeNotWritten covers every permutation of the root's entries.
- Read errors other than end-of-file are not modelled: the text is in memory.
- Post mutations made by GetContents inside serveNode and writeRenderTree (checksum, metadata) are not carried back into the tree.
- The dates cached on posts when a build fails part-way are not modelled: the posts of a failed build keep no cached dates.
- Strs.ToLower: lower-cases ASCII letters only. Go's strings.ToLower also folds non-ASCII letters.
- The path separator `os.PathSeparator` in rendertree.go:105 is taken to be '/'.
- Go's `%q` formatting is modelled as surrounding quotes without Go's escaping of special characters.
- The flag masks are sets of bit positions, numbered by the order of the table's entries. blackfriday's constant values are not part of this model.
- The `%v` rendering of a render node in server.go:132 is a parameter (`describe`).
- http.Redirect's resolution of a relative link against the request path is not modelled: the response carries the link.
- The source calls RenderPost and CreateIndex with different arguments in server.go and writer.go. The model gives each call site the arguments it passes.
- blackblog.go (command-line handling), copyDir (writer.go:120-159) and the static file server are not modelled.
- RenderTree.Placement: does not itself state the rendered "../" prefix, which would make the proof too expensive. PlacedDepthPath states it for every placed post, and PostAtDepth for any post a walk reaches.
- Posts.LessTransitiveUniform: states transitivity only among all-dated or all-undated posts. Across the two kinds the source's order mixes date and URL comparisons, which is not transitive: PostExamples.LessCycle gives three posts that sort in a cycle.

