/**
 * server.go: answering a request from the render tree, and the periodic rebuild
 * that replaces the posts and the tree when the posts directory changed.
 *
 * Responses are values; the page bodies come from the rendering collaborators,
 * which are parameters. A Go runtime panic (a nil pointer or a failed type
 * assertion) is the response `Panic`.
 */
module Server {
  import opened Wrappers
  import opened Strs
  import opened Posts
  import opened RenderTree
  import opened Paths

  datatype Response =
    | NotFound                       // http.NotFound
    | ContentError(message: string)  // status 404 with the text of a contents error
    | PostPage(body: string)
    | IndexPage(body: string)
    | Moved(link: string)            // status 301 to the link
    | ServerError(message: string)   // status 500 with a message
    | Panic

  /**
   * The collaborators the server calls: RenderPost, CreateIndex, and the text
   * `%v` prints for a node (it includes pointer values, so it is not modelled).
   */
  datatype Pages = Pages(
    renderPost: (Post, string) -> string,
    createIndex: seq<Post> -> Result<string>,
    describe: Node -> string)

  /** The server's posts and tree; the tree is nil until a build succeeds, and again after one fails. */
  datatype State = State(posts: seq<Post>, tree: Option<Node>)

  /** A freshly made server: no posts and no tree. */
  const Initial: State := State([], None)

  function TrimLeadingSlashes(s: string): (r: string)
    ensures HasSuffix(s, r) && OnlySlashes(s[..|s| - |r|])
    ensures r == "" || r[0] != '/'
  {
    if s != "" && s[0] == '/' then
      var r := TrimLeadingSlashes(s[1..]);
      LeadingStep(s, r);
      r
    else s
  }

  /**
   * strings.Trim(s, "/"): `s` without its leading and trailing slashes; the
   * result is a slice of `s` surrounded by slashes only and neither starts nor
   * ends with one.
   */
  function TrimSlashes(s: string): (r: string)
    ensures exists i :: 0 <= i <= |s| - |r| && s[i..i + |r|] == r && OnlySlashes(s[..i]) && OnlySlashes(s[i + |r|..])
    ensures r == "" || (r[0] != '/' && r[|r| - 1] != '/')
  {
    var l := TrimLeadingSlashes(s);
    var r := TrimTrailingSlashes(l);
    SlashSlices(s, l, r);
    r
  }

  lemma {:induction false} LeadingStep(s: string, r: string)
    requires s != "" && s[0] == '/'
    requires HasSuffix(s[1..], r) && OnlySlashes(s[1..][..|s[1..]| - |r|])
    ensures HasSuffix(s, r) && OnlySlashes(s[..|s| - |r|])
  {
    var front := s[1..][..|s[1..]| - |r|];
    assert s[..|s| - |r|] == [s[0]] + front;
    assert s[|s| - |r|..] == s[1..][|s[1..]| - |r|..];
    OnlySlashesConcat([s[0]], front);
  }

  /** Where the trailing-trimmed string sits inside the string the leading trim was given. */
  lemma {:induction false} SlashSlices(s: string, l: string, r: string)
    requires HasSuffix(s, l) && OnlySlashes(s[..|s| - |l|]) && (l == "" || l[0] != '/')
    requires |r| <= |l| && r == l[..|r|] && OnlySlashes(l[|r|..]) && (r == "" || r[|r| - 1] != '/')
    ensures exists i :: 0 <= i <= |s| - |r| && s[i..i + |r|] == r && OnlySlashes(s[..i]) && OnlySlashes(s[i + |r|..])
    ensures r == "" || (r[0] != '/' && r[|r| - 1] != '/')
  {
    var i := |s| - |l|;
    assert s[i..] == l;
    assert s[i..i + |r|] == l[..|r|];
    assert s[i + |r|..] == l[|r|..];
    assert r != "" ==> r[0] == l[0];
  }


  /** Where the walk of ServeHTTP stops. */
  datatype Lookup = Found(node: Node) | Missing | Crash

  /**
   * The walk of ServeHTTP: each segment is looked up among the current node's
   * children; a missing child stops the walk, and a current node that is not a
   * directory fails its type assertion.
   */
  function Resolve(n: Node, parts: seq<string>): Lookup
    decreases |parts|
  {
    if parts == [] then Found(n)
    else match n
      case Directory(children, _) =>
        (match Find(children, parts[0])
         case Some(child) => Resolve(child, parts[1..])
         case None => Missing)
      case _ => Crash
  }

  /**
   * serveNode. A post is rendered from its contents. A redirect moves to its
   * link. The root directory (the only one without a parent, depth 0) lists the
   * posts; any other directory moves to the link of its "index.html" child, and
   * panics when that child is missing or is not a redirect. Anything else is an
   * unknown render.
   */
  function ServeNode(env: Env, fs: FileSystem, pages: Pages, posts: seq<Post>, n: Node): Response
  {
    match n
    case PostNode(p, _) =>
      var (p', contents) := GetContents(env, fs, p);
      if contents.Failure? then ContentError(contents.error) else PostPage(pages.renderPost(p', contents.value))
    case RedirectNode(link) => Moved(link)
    case Directory(children, depth) =>
      if depth == 0 then
        (match pages.createIndex(posts)
         case Success(page) => IndexPage(page)
         case Failure(e) => ServerError(e))
      else
        (match Find(children, IndexName)
         case Some(RedirectNode(link)) => Moved(link)
         case _ => Panic)
    case FeedNode(_) => ServerError("Unknown render: " + pages.describe(n))
  }

  /** ServeHTTP: trim the slashes, serve the root for an empty path, otherwise walk the segments. */
  function Serve(env: Env, fs: FileSystem, pages: Pages, s: State, path: string): Response
  {
    var url := TrimSlashes(path);
    if s.tree.None? then Panic
    else if url == "" then ServeNode(env, fs, pages, s.posts, s.tree.value)
    else match Resolve(s.tree.value, Split(url, '/'))
      case Found(n) => ServeNode(env, fs, pages, s.posts, n)
      case Missing => NotFound
      case Crash => Panic
  }

  // ---------------------------------------------------------------------------
  // Rebuilding

  /** The loop of buildPosts over the stored posts: is some post out of date? */
  function AnyStale(env: Env, fs: FileSystem, posts: seq<Post>): (b: bool)
    ensures b <==> exists i :: 0 <= i < |posts| && !IsUpToDate(env, fs, posts[i])
    decreases |posts|
  {
    if posts == [] then false
    else if !IsUpToDate(env, fs, posts[0]) then true
    else
      var b := AnyStale(env, fs, posts[1..]);
      assert forall i :: 1 <= i < |posts| ==> posts[i] == posts[1..][i - 1];
      b
  }

  predicate NeedsRebuild(env: Env, fs: FileSystem, stored: seq<Post>, scanned: seq<Post>) {
    |scanned| != |stored| || AnyStale(env, fs, stored)
  }

  /**
   * buildPosts with the outcomes of its two directory scans as parameters. A
   * failed first scan changes nothing. A rebuild stores the second scan's posts
   * even when it failed (then the tree is kept), and stores the build's tree,
   * which is nil when the build failed. The built tree shares the post objects,
   * so the stored posts carry the dates the build cached.
   */
  function BuildPosts(env: Env, fs: FileSystem, s: State, first: Scan, second: Scan): (State, Option<string>)
  {
    if first.error.Some? then (s, first.error)
    else if !NeedsRebuild(env, fs, s.posts, first.posts) then (s, None)
    else if second.error.Some? then (s.(posts := second.posts), second.error)
    else match CreateRenderTree(env, second.posts)
      case Failure(e) => (State(second.posts, None), Some(e))
      case Success(root) => (State(CacheAll(env, second.posts), Some(root)), None)
  }

  // ---------------------------------------------------------------------------
  // Lemmas: paths and resolution

  /** A path trims to nothing exactly when it is made of slashes only. */
  lemma {:induction false} TrimSlashesEmpty(s: string)
    ensures TrimSlashes(s) == "" <==> OnlySlashes(s)
  {
    SlashFreeCore(s, TrimSlashes(s));
  }

  /** A slice of `s` framed by slashes and not starting with one is empty exactly when `s` is all slashes. */
  lemma {:induction false} SlashFreeCore(s: string, r: string)
    requires exists i :: 0 <= i <= |s| - |r| && s[i..i + |r|] == r && OnlySlashes(s[..i]) && OnlySlashes(s[i + |r|..])
    requires r == "" || r[0] != '/'
    ensures r == "" <==> OnlySlashes(s)
  {
    var i :| 0 <= i <= |s| - |r| && s[i..i + |r|] == r && OnlySlashes(s[..i]) && OnlySlashes(s[i + |r|..]);
    if r == "" {
      assert s == s[..i] + s[i + |r|..];
      OnlySlashesConcat(s[..i], s[i + |r|..]);
    } else {
      assert s[i] == r[0];
    }
  }



  /** A URL with no slash at either end is found again from "/" + URL. */
  lemma {:induction false} TrimLeadingSlash(url: string)
    requires url != "" && url[0] != '/' && url[|url| - 1] != '/'
    ensures TrimSlashes("/" + url) == url
  {
    var s := "/" + url;
    assert s[1..] == url;
    assert TrimLeadingSlashes(s) == TrimLeadingSlashes(url);
  }

  /** The walk finds a node exactly where the tree's Walk does. */
  lemma {:induction false} ResolveWalk(n: Node, parts: seq<string>)
    ensures Resolve(n, parts).Found? <==> Walk(n, parts).Some?
    ensures Resolve(n, parts).Found? ==> Resolve(n, parts).node == Walk(n, parts).value
    decreases |parts|
  {
    if parts != [] && n.Directory? && Find(n.entries, parts[0]).Some? {
      ResolveWalk(Find(n.entries, parts[0]).value, parts[1..]);
    }
  }

  /** Walking a prefix of the segments through a directory is walking the rest from the child. */
  lemma {:induction false} WalkPrefixStep(n: Node, parts: seq<string>, k: nat)
    requires n.Directory? && 1 <= k <= |parts|
    ensures Walk(n, parts[..k]) == (match Find(n.entries, parts[0])
                                    case Some(child) => Walk(child, parts[1..][..k - 1])
                                    case None => None)
  {
    assert parts[..k][0] == parts[0];
    assert parts[..k][1..] == parts[1..][..k - 1];
  }

  /**
   * The walk panics exactly when some prefix of the segments leads to a node
   * that is not a directory, and reports a missing page exactly when some prefix
   * leads to a directory without the next segment.
   */
  lemma {:induction false} ResolveFailures(n: Node, parts: seq<string>)
    ensures Resolve(n, parts) == Crash <==>
              exists k :: 0 <= k < |parts| && Walk(n, parts[..k]).Some? && !Walk(n, parts[..k]).value.Directory?
    ensures Resolve(n, parts) == Missing <==>
              exists k :: 0 <= k < |parts| && Walk(n, parts[..k]).Some? && Walk(n, parts[..k]).value.Directory?
                          && Find(Walk(n, parts[..k]).value.entries, parts[k]).None?
    decreases |parts|
  {
    if parts != [] {
      assert parts[..0] == [];
      if n.Directory? {
        forall k | 1 <= k <= |parts| {
          WalkPrefixStep(n, parts, k);
        }
        match Find(n.entries, parts[0])
        case None =>
        case Some(child) =>
          var rest := parts[1..];
          ResolveFailures(child, rest);
          forall k | 0 <= k < |rest|
            ensures Walk(n, parts[..k + 1]) == Walk(child, rest[..k]) && parts[k + 1] == rest[k]
          {
          }
          if Resolve(n, parts) == Crash {
            var k :| 0 <= k < |rest| && Walk(child, rest[..k]).Some? && !Walk(child, rest[..k]).value.Directory?;
            assert Walk(n, parts[..k + 1]) == Walk(child, rest[..k]);
          }
          if Resolve(n, parts) == Missing {
            var k :| 0 <= k < |rest| && Walk(child, rest[..k]).Some? && Walk(child, rest[..k]).value.Directory?
                     && Find(Walk(child, rest[..k]).value.entries, rest[k]).None?;
            assert Walk(n, parts[..k + 1]) == Walk(child, rest[..k]);
          }
      }
    }
  }

  // ---------------------------------------------------------------------------
  // Lemmas: responses

  /** Before any tree exists (or after a failed build) every request panics. */
  lemma {:induction false} ServeWithoutTree(env: Env, fs: FileSystem, pages: Pages, s: State, path: string)
    requires s.tree.None?
    ensures Serve(env, fs, pages, s, path) == Panic
  {
  }

  /** A path of slashes only is answered with the post list of the root, or a 500 when creating it fails. */
  lemma {:induction false} ServeRootIndex(env: Env, fs: FileSystem, pages: Pages, s: State, path: string)
    requires s.tree.Some? && s.tree.value.Directory? && s.tree.value.depth == 0
    requires OnlySlashes(path)
    ensures Serve(env, fs, pages, s, path) == (match pages.createIndex(s.posts)
                                              case Success(page) => IndexPage(page)
                                              case Failure(e) => ServerError(e))
  {
    TrimSlashesEmpty(path);
  }

  /**
   * In a built tree, a request for a post's URL (with any slashes around it)
   * serves that post's rendered contents, or a 404 with the contents error.
   */
  lemma {:induction false} ServePlacedPost(env: Env, fs: FileSystem, pages: Pages, stored: seq<Post>, posts: seq<Post>, i: nat, path: string)
    requires CreateRenderTree(env, posts).Success?
    requires PrefixFree(Targets(env, posts)) && i < |posts|
    requires TrimSlashes(path) == CreateURL(env, posts[i])
    ensures var served := GetContents(env, fs, CacheDate(env, posts[i]));
            Serve(env, fs, pages, State(stored, Some(CreateRenderTree(env, posts).value)), path)
            == if served.1.Failure? then ContentError(served.1.error) else PostPage(pages.renderPost(served.0, served.1.value))
  {
    var root := CreateRenderTree(env, posts).value;
    Placement(env, posts, i);
    URLEndsInHtml(env, posts[i]);
    ServeWalked(env, fs, pages, State(stored, Some(root)), path, CacheDate(env, posts[i]));
  }

  /** A non-empty request whose segments walk to a post node is answered with that post's rendered contents. */
  lemma {:induction false} ServeWalked(env: Env, fs: FileSystem, pages: Pages, s: State, path: string, p: Post)
    requires s.tree.Some? && TrimSlashes(path) != ""
    requires var w := Walk(s.tree.value, Split(TrimSlashes(path), '/')); w.Some? && w.value.PostNode? && w.value.post == p
    ensures var served := GetContents(env, fs, p);
            Serve(env, fs, pages, s, path)
            == if served.1.Failure? then ContentError(served.1.error) else PostPage(pages.renderPost(served.0, served.1.value))
  {
    ResolveWalk(s.tree.value, Split(TrimSlashes(path), '/'));
  }

  /**
   * In a well-formed tree, a request that reaches a directory other than the
   * root is answered from that directory's "index.html": a move to "../" once
   * per level when it is still the redirect, and a panic when a post has been
   * stored over it.
   */
  lemma {:induction false} ServeSubdirectory(env: Env, fs: FileSystem, pages: Pages, s: State, path: string)
    requires s.tree.Some? && s.tree.value.Directory? && s.tree.value.depth == 0
    requires WellFormed(s.tree.value.entries, 0)
    requires TrimSlashes(path) != ""
    requires var w := Walk(s.tree.value, Split(TrimSlashes(path), '/')); w.Some? && w.value.Directory?
    ensures var parts := Split(TrimSlashes(path), '/');
            var dir := Walk(s.tree.value, parts).value;
            && dir.depth == |parts|
            && (Find(dir.entries, IndexName).Some? && Find(dir.entries, IndexName).value.RedirectNode? ==>
                  Serve(env, fs, pages, s, path) == Moved(Up(|parts|)))
            && (Find(dir.entries, IndexName).Some? && Find(dir.entries, IndexName).value.PostNode? ==>
                  Serve(env, fs, pages, s, path) == Panic)
  {
    var root := s.tree.value;
    var parts := Split(TrimSlashes(path), '/');
    WalkNodeOk(root.entries, 0, parts);
    ResolveWalk(root, parts);
  }

  /** In a built tree "feed.xml" is answered with a 500: serveNode has no case for the feed. */
  lemma {:induction false} ServeFeed(env: Env, fs: FileSystem, pages: Pages, stored: seq<Post>, posts: seq<Post>, path: string)
    requires CreateRenderTree(env, posts).Success?
    requires TrimSlashes(path) == FeedName
    ensures Serve(env, fs, pages, State(stored, Some(CreateRenderTree(env, posts).value)), path)
            == ServerError("Unknown render: " + pages.describe(FeedNode(CacheAll(env, posts))))
  {
    BuiltRoot(env, posts);
    ServeFeedNode(env, fs, pages, stored, CreateRenderTree(env, posts).value, CacheAll(env, posts), path);
  }

  /** A root whose "feed.xml" entry is the feed answers that path with a 500. */
  lemma {:induction false} ServeFeedNode(env: Env, fs: FileSystem, pages: Pages, stored: seq<Post>, root: Node, feed: seq<Post>, path: string)
    requires root.Directory? && Find(root.entries, FeedName) == Some(FeedNode(feed))
    requires TrimSlashes(path) == FeedName
    ensures Serve(env, fs, pages, State(stored, Some(root)), path)
            == ServerError("Unknown render: " + pages.describe(FeedNode(feed)))
  {
    var n := FeedNode(feed);
    assert '/' !in FeedName;
    SplitWhole(FeedName, '/');
    assert [FeedName][1..] == [];
    assert Resolve(root, [FeedName]) == Resolve(n, []) == Found(n);
    assert ServeNode(env, fs, pages, stored, n) == ServerError("Unknown render: " + pages.describe(n));
  }

  // ---------------------------------------------------------------------------
  // Lemmas: rebuilding

  /** A failed first scan leaves posts and tree as they were and reports the scan's error. */
  lemma {:induction false} BuildScanFails(env: Env, fs: FileSystem, s: State, first: Scan, second: Scan)
    requires first.error.Some?
    ensures BuildPosts(env, fs, s, first, second) == (s, first.error)
  {
  }

  /**
   * A rebuild happens exactly when the scan found a different number of posts or
   * some stored post is not up to date; otherwise nothing changes.
   */
  lemma {:induction false} RebuildDecision(env: Env, fs: FileSystem, s: State, first: Scan, second: Scan)
    requires first.error.None?
    ensures var (s', err) := BuildPosts(env, fs, s, first, second);
            var rebuild := |first.posts| != |s.posts| || exists i :: 0 <= i < |s.posts| && !IsUpToDate(env, fs, s.posts[i]);
            && (!rebuild ==> s' == s && err.None?)
            && (rebuild ==> s'.posts == second.posts || s'.posts == CacheAll(env, second.posts))
  {
  }

  /**
   * The outcome of a rebuild: a failed second scan still replaces the posts; a
   * failed build drops the tree and reports a post's URL; a successful one
   * installs the built tree.
   */
  lemma {:induction false} RebuildOutcome(env: Env, fs: FileSystem, s: State, first: Scan, second: Scan)
    requires first.error.None? && NeedsRebuild(env, fs, s.posts, first.posts)
    ensures var (s', err) := BuildPosts(env, fs, s, first, second);
            && (second.error.Some? ==> s' == State(second.posts, s.tree) && err == second.error)
            && (second.error.None? && CreateRenderTree(env, second.posts).Failure? ==>
                  s'.tree.None? && s'.posts == second.posts
                  && exists i :: 0 <= i < |second.posts| && err == Some(NonDirError(CreateURL(env, second.posts[i]))))
            && (second.error.None? && CreateRenderTree(env, second.posts).Success? ==>
                  s'.tree == Some(CreateRenderTree(env, second.posts).value) && err.None?)
  {
    if second.error.None? && CreateRenderTree(env, second.posts).Failure? {
      BuildError(env, second.posts);
    }
  }

  /**
   * An empty blog never gets a tree: the first scan finds as many posts as are
   * stored (none), so nothing is built and every request panics.
   */
  lemma {:induction false} EmptyBlogPanics(env: Env, fs: FileSystem, pages: Pages, second: Scan, path: string)
    ensures BuildPosts(env, fs, Initial, Scan([], None), second) == (Initial, None)
    ensures Serve(env, fs, pages, BuildPosts(env, fs, Initial, Scan([], None), second).0, path) == Panic
  {
  }

  /**
   * After a rebuild whose scan succeeded and whose posts have prefix-free
   * paths, every post is served at its URL.
   */
  lemma {:induction false} RebuildServesPosts(env: Env, fs: FileSystem, pages: Pages, s: State, first: Scan, posts: seq<Post>, i: nat, path: string)
    requires first.error.None? && NeedsRebuild(env, fs, s.posts, first.posts)
    requires CreateRenderTree(env, posts).Success?
    requires PrefixFree(Targets(env, posts)) && i < |posts|
    requires TrimSlashes(path) == CreateURL(env, posts[i])
    ensures var s' := BuildPosts(env, fs, s, first, Scan(posts, None)).0;
            var served := GetContents(env, fs, CacheDate(env, posts[i]));
            Serve(env, fs, pages, s', path)
            == if served.1.Failure? then ContentError(served.1.error) else PostPage(pages.renderPost(served.0, served.1.value))
  {
    ServePlacedPost(env, fs, pages, CacheAll(env, posts), posts, i, path);
  }
}
