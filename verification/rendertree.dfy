/**
 * rendertree.go: the virtual directory tree a blog is rendered from. Every post
 * is placed under the path its URL names; directories made on the way get an
 * "index.html" redirect back to the root, and the root holds the feed.
 *
 * A directory's map is an association list; lookup and assignment act on the
 * first entry with the key, which is the map's behaviour whenever keys are
 * unique (and every list built here has unique keys). The parent pointer of
 * the original is replaced by the number of parent edges, `depth`.
 */
module RenderTree {
  import opened Wrappers
  import opened Strs
  import Paths
  import opened Posts

  datatype Node =
    | Directory(entries: seq<Entry>, depth: nat)
    | PostNode(post: Post, depth: nat)
    | RedirectNode(link: string)
    | FeedNode(posts: seq<Post>)

  /** One key of a directory and the node stored under it. */
  datatype Entry = Entry(name: string, node: Node)

  const FeedName: string := "feed.xml"
  const IndexName: string := "index.html"

  /** Map lookup: the node under `name`, if any. */
  function Find(es: seq<Entry>, name: string): Option<Node>
    decreases |es|
  {
    if es == [] then None
    else if es[0].name == name then Some(es[0].node)
    else Find(es[1..], name)
  }

  /** Map assignment: `name` now holds `n`; every other key keeps its node. */
  function Put(es: seq<Entry>, name: string, n: Node): seq<Entry>
    decreases |es|
  {
    if es == [] then [Entry(name, n)]
    else if es[0].name == name then [Entry(name, n)] + es[1..]
    else [es[0]] + Put(es[1..], name, n)
  }

  /** "../" once per level. */
  function Up(levels: nat): (r: string)
    ensures |r| == 3 * levels
  {
    RepeatLength("../", levels);
    Repeat("../", levels)
  }

  function NonDirError(url: string): string {
    "trying to find dir for " + Quote(url) + ", encountered non-directory node in path"
  }

  /** The redirect every new directory at `depth` starts with. */
  function IndexRedirect(depth: nat): Entry {
    Entry(IndexName, RedirectNode(Up(depth)))
  }

  /**
   * findOrCreateDirNode followed by the leaf assignment of insertPost, on the
   * directory `es` at `depth`: walk `parts`, reusing directories and creating
   * missing ones, fail on any other node, then store the post under `leaf`.
   */
  function InsertAt(es: seq<Entry>, depth: nat, parts: seq<string>, leaf: string, post: Post, url: string): Result<seq<Entry>>
    decreases |parts|
  {
    if parts == [] then Success(Put(es, leaf, PostNode(post, depth + 1)))
    else
      match Find(es, parts[0])
      case Some(Directory(children, d)) =>
        var children' :- InsertAt(children, d, parts[1..], leaf, post, url);
        Success(Put(es, parts[0], Directory(children', d)))
      case Some(_) => Failure(NonDirError(url))
      case None =>
        var children' :- InsertAt([IndexRedirect(depth + 1)], depth + 1, parts[1..], leaf, post, url);
        Success(Put(es, parts[0], Directory(children', depth + 1)))
  }

  /**
   * insertPost: the URL is computed (caching the parsed date in the post), its
   * '/'-pieces but the last name the directories, and path.Base names the leaf.
   */
  function InsertPost(env: Env, es: seq<Entry>, p: Post): Result<seq<Entry>>
  {
    var url := CreateURL(env, p);
    var parts := Split(url, '/');
    InsertAt(es, 0, parts[..|parts| - 1], Paths.Base(url), CacheDate(env, p), url)
  }

  function InsertAll(env: Env, es: seq<Entry>, posts: seq<Post>): Result<seq<Entry>>
    decreases |posts|
  {
    if posts == [] then Success(es)
    else
      var es' :- InsertPost(env, es, posts[0]);
      InsertAll(env, es', posts[1..])
  }

  /** The posts as they are once CreateURL has cached each one's parsed date. */
  function CacheAll(env: Env, posts: seq<Post>): (r: seq<Post>)
    ensures |r| == |posts|
    ensures forall i :: 0 <= i < |posts| ==> r[i] == CacheDate(env, posts[i])
  {
    seq(|posts|, i requires 0 <= i < |posts| => CacheDate(env, posts[i]))
  }

  /**
   * The cached copies are the same posts: each keeps its URL, its text fields and
   * its checksum, and GetDate on it gives the date its date string parses to.
   */
  lemma {:induction false} CacheAllKeeps(env: Env, posts: seq<Post>)
    ensures |CacheAll(env, posts)| == |posts|
    ensures forall i :: 0 <= i < |posts| ==>
              var c := CacheAll(env, posts)[i];
              && CreateURL(env, c) == CreateURL(env, posts[i])
              && c.(dateParsed := posts[i].dateParsed) == posts[i]
              && GetDate(c) == (if posts[i].date == "" then None else Some(ParseDate(env, posts[i].date)))
  {
    forall i | 0 <= i < |posts|
      ensures CreateURL(env, CacheAll(env, posts)[i]) == CreateURL(env, posts[i])
    {
      GetDateAfterCreateURL(env, posts[i]);
    }
  }

  lemma {:induction false} CacheAllCons(env: Env, posts: seq<Post>)
    requires |posts| > 0
    ensures CacheAll(env, posts) == [CacheDate(env, posts[0])] + CacheAll(env, posts[1..])
  {
  }

  /** The root's entries before any post is inserted: the feed of all posts. */
  function FeedOnly(env: Env, posts: seq<Post>): seq<Entry> {
    [Entry(FeedName, FeedNode(CacheAll(env, posts)))]
  }

  /**
   * createRenderTree: a root directory holding the feed of all posts, then every
   * post inserted in order; the first failure discards the tree. The feed shares
   * the post objects, so it sees the dates the insertions cached.
   */
  function CreateRenderTree(env: Env, posts: seq<Post>): Result<Node>
  {
    var es :- InsertAll(env, FeedOnly(env, posts), posts);
    Success(Directory(es, 0))
  }

  /** visitPosts as a sequential depth-first walk: posts in entry order, directories entered, redirects and feeds skipped. */
  function Visit(es: seq<Entry>): seq<Post>
    decreases es
  {
    if es == [] then [] else NodePosts(es[0].node) + Visit(es[1..])
  }

  function NodePosts(n: Node): seq<Post>
    decreases n
  {
    match n
    case Directory(children, _) => Visit(children)
    case PostNode(p, _) => [p]
    case _ => []
  }

  /** The posts under an optional node. */
  function Below(o: Option<Node>): seq<Post> {
    if o.None? then [] else NodePosts(o.value)
  }

  /** nodeDepth: the number of parent edges; redirects and feeds have no parent. */
  function NodeDepth(n: Node): nat {
    match n
    case Directory(_, d) => d
    case PostNode(_, d) => d
    case _ => 0
  }

  /** depthPath: "../" once per level above the node's directory. */
  function DepthPath(n: Node): (r: string)
    ensures r == Up(if NodeDepth(n) == 0 then 0 else NodeDepth(n) - 1)
  {
    var depth := NodeDepth(n) - 1;
    Repeat("../", if depth < 0 then 0 else depth)
  }

  /** The node reached from `n` by following `path` through directories. */
  function Walk(n: Node, path: seq<string>): Option<Node>
    decreases |path|
  {
    if path == [] then Some(n)
    else match n
      case Directory(children, _) =>
        (match Find(children, path[0])
         case Some(child) => Walk(child, path[1..])
         case None => None)
      case _ => None
  }

  /** The path of every post URL: its '/'-separated pieces. */
  function Target(env: Env, p: Post): seq<string> {
    Split(CreateURL(env, p), '/')
  }

  function Targets(env: Env, posts: seq<Post>): (r: seq<seq<string>>)
    ensures |r| == |posts|
    ensures forall i :: 0 <= i < |posts| ==> r[i] == Target(env, posts[i])
  {
    seq(|posts|, i requires 0 <= i < |posts| => Target(env, posts[i]))
  }

  /** No path is a prefix of (or equal to) another one. */
  predicate PrefixFree(paths: seq<seq<string>>) {
    forall i, j :: 0 <= i < |paths| && 0 <= j < |paths| && i != j ==> !(paths[i] <= paths[j])
  }

  // ---------------------------------------------------------------------------
  // Invariants

  /** A non-root directory's "index.html": the redirect it was made with, or a post stored over it. */
  predicate IndexOk(es: seq<Entry>, depth: nat) {
    match Find(es, IndexName)
    case Some(RedirectNode(link)) => link == Up(depth)
    case Some(PostNode(_, _)) => true
    case _ => false
  }

  /** Every child sits one level below its directory, and every subdirectory's index is intact. */
  predicate WellFormed(es: seq<Entry>, depth: nat)
    decreases es
  {
    es == [] || (NodeOk(es[0].node, depth) && WellFormed(es[1..], depth))
  }

  predicate NodeOk(n: Node, parentDepth: nat)
    decreases n
  {
    match n
    case Directory(children, d) => d == parentDepth + 1 && IndexOk(children, d) && WellFormed(children, d)
    case PostNode(_, d) => d == parentDepth + 1
    case _ => true
  }

  // ---------------------------------------------------------------------------
  // Lemmas: lookup, assignment and traversal

  /** Lookup finds nothing exactly when no entry carries the key. */
  lemma {:induction false} FindNone(es: seq<Entry>, name: string)
    ensures Find(es, name).None? <==> forall i :: 0 <= i < |es| ==> es[i].name != name
    decreases |es|
  {
    if es != [] {
      FindNone(es[1..], name);
      assert forall i :: 1 <= i < |es| ==> es[i] == es[1..][i - 1];
    }
  }

  /** After assignment the key holds the new node, every other key keeps its node, and a new key goes at the end. */
  lemma {:induction false} PutFind(es: seq<Entry>, name: string, n: Node, k: string)
    ensures Find(Put(es, name, n), name) == Some(n)
    ensures k != name ==> Find(Put(es, name, n), k) == Find(es, k)
    ensures Find(es, name).None? ==> Put(es, name, n) == es + [Entry(name, n)]
    decreases |es|
  {
    if es != [] {
      var r := Put(es, name, n);
      if es[0].name == name {
        assert r[1..] == es[1..];
      } else {
        PutFind(es[1..], name, n, k);
        assert r[1..] == Put(es[1..], name, n);
      }
    }
  }

  lemma {:induction false} VisitAppend(a: seq<Entry>, b: seq<Entry>)
    ensures Visit(a + b) == Visit(a) + Visit(b)
    decreases |a|
  {
    if a == [] {
      assert a + b == b;
    } else {
      assert (a + b)[1..] == a[1..] + b;
      VisitAppend(a[1..], b);
    }
  }

  lemma {:induction false} ConsMultiset<T>(h: seq<T>, a: seq<T>, b: seq<T>, g: multiset<T>, x: multiset<T>)
    requires multiset(a) + g == multiset(b) + x
    ensures multiset(h + a) + g == multiset(h + b) + x
  {
    calc {
      multiset(h + a) + g;
      multiset(h) + multiset(a) + g;
      multiset(h) + (multiset(a) + g);
      multiset(h) + (multiset(b) + x);
      multiset(h) + multiset(b) + x;
      multiset(h + b) + x;
    }
  }

  /** Assigning `n` under `name` trades the posts of the old node for those of `n`. */
  lemma {:induction false} PutVisit(es: seq<Entry>, name: string, n: Node)
    ensures multiset(Visit(Put(es, name, n))) + multiset(Below(Find(es, name)))
         == multiset(Visit(es)) + multiset(NodePosts(n))
    decreases |es|
  {
    var r := Put(es, name, n);
    if es == [] {
      assert r[1..] == [];
      assert Visit(r) == NodePosts(n) + Visit([]);
    } else if es[0].name == name {
      assert r[1..] == es[1..];
      assert Visit(r) == NodePosts(n) + Visit(es[1..]);
      assert Visit(es) == NodePosts(es[0].node) + Visit(es[1..]);
      assert Below(Find(es, name)) == NodePosts(es[0].node);
    } else {
      PutVisit(es[1..], name, n);
      assert r[1..] == Put(es[1..], name, n);
      assert Visit(r) == NodePosts(es[0].node) + Visit(Put(es[1..], name, n));
      assert Visit(es) == NodePosts(es[0].node) + Visit(es[1..]);
      assert Find(es, name) == Find(es[1..], name);
      ConsMultiset(NodePosts(es[0].node), Visit(Put(es[1..], name, n)), Visit(es[1..]),
                   multiset(Below(Find(es[1..], name))), multiset(NodePosts(n)));
    }
  }

  /** The posts under one entry are among the posts of the directory. */
  lemma {:induction false} FindBelow(es: seq<Entry>, name: string)
    ensures multiset(Below(Find(es, name))) <= multiset(Visit(es))
    decreases |es|
  {
    if es != [] && es[0].name != name {
      FindBelow(es[1..], name);
    }
  }

  lemma {:induction false} WalkBelow(n: Node, path: seq<string>)
    ensures multiset(Below(Walk(n, path))) <= multiset(NodePosts(n))
    decreases |path|
  {
    if path != [] && n.Directory? {
      var child := Find(n.entries, path[0]);
      FindBelow(n.entries, path[0]);
      if child.Some? {
        WalkBelow(child.value, path[1..]);
      }
    }
  }

  /** Every post reachable by a path is visited. */
  lemma {:induction false} VisitComplete(n: Node, path: seq<string>)
    requires Walk(n, path).Some? && Walk(n, path).value.PostNode?
    ensures Walk(n, path).value.post in NodePosts(n)
  {
    WalkBelow(n, path);
    assert Walk(n, path).value.post in Below(Walk(n, path));
  }

  // ---------------------------------------------------------------------------
  // Lemmas: the paths of the posts in a tree

  function Prefixed(name: string, paths: set<seq<string>>): set<seq<string>> {
    set q | q in paths :: [name] + q
  }

  /** The path of every post under `n`, relative to `n`. */
  function NodePaths(n: Node): set<seq<string>>
    decreases n
  {
    match n
    case Directory(children, _) => EntryPaths(children)
    case PostNode(_, _) => {[]}
    case _ => {}
  }

  function EntryPaths(es: seq<Entry>): set<seq<string>>
    decreases es
  {
    if es == [] then {} else Prefixed(es[0].name, NodePaths(es[0].node)) + EntryPaths(es[1..])
  }

  lemma {:induction false} PrefixedEmpty(name: string)
    ensures Prefixed(name, {[]}) == {[name]}
  {
    assert [name] + [] == [name];
  }

  lemma {:induction false} PutPaths(es: seq<Entry>, name: string, n: Node)
    ensures EntryPaths(Put(es, name, n)) <= EntryPaths(es) + Prefixed(name, NodePaths(n))
    decreases |es|
  {
    if es != [] {
      if es[0].name == name {
        assert Put(es, name, n)[1..] == es[1..];
      } else {
        PutPaths(es[1..], name, n);
        assert Put(es, name, n)[1..] == Put(es[1..], name, n);
      }
    }
  }

  lemma {:induction false} FindPaths(es: seq<Entry>, name: string)
    requires Find(es, name).Some?
    ensures Prefixed(name, NodePaths(Find(es, name).value)) <= EntryPaths(es)
    decreases |es|
  {
    if es[0].name != name {
      FindPaths(es[1..], name);
    }
  }

  lemma {:induction false} WalkPaths(n: Node, path: seq<string>)
    requires Walk(n, path).Some?
    ensures forall q :: q in NodePaths(Walk(n, path).value) ==> path + q in NodePaths(n)
    decreases |path|
  {
    if path != [] {
      var child := Find(n.entries, path[0]).value;
      WalkPaths(child, path[1..]);
      FindPaths(n.entries, path[0]);
      forall q | q in NodePaths(Walk(n, path).value)
        ensures path + q in NodePaths(n)
      {
        assert path[1..] + q in NodePaths(child);
        assert [path[0]] + (path[1..] + q) == path + q;
      }
    } else {
      assert forall q: seq<string> :: [] + q == q;
    }
  }

  /** A node with posts under it has at least one post path. */
  lemma {:induction false} PostsHavePaths(n: Node)
    ensures |NodePosts(n)| > 0 ==> NodePaths(n) != {}
    decreases n
  {
    if n.Directory? {
      EntriesHavePaths(n.entries);
    }
  }

  lemma {:induction false} EntriesHavePaths(es: seq<Entry>)
    ensures |Visit(es)| > 0 ==> EntryPaths(es) != {}
    decreases es
  {
    if es != [] {
      PostsHavePaths(es[0].node);
      EntriesHavePaths(es[1..]);
      if NodePaths(es[0].node) != {} {
        var q :| q in NodePaths(es[0].node);
        assert [es[0].name] + q in Prefixed(es[0].name, NodePaths(es[0].node));
      }
    }
  }

  /** Posts found at `path` imply a post path that extends `path`. */
  lemma {:induction false} BlockedPath(n: Node, path: seq<string>)
    ensures |Below(Walk(n, path))| > 0 ==> exists q :: q in NodePaths(n) && path <= q
  {
    if |Below(Walk(n, path))| > 0 {
      var m := Walk(n, path).value;
      PostsHavePaths(m);
      var q0 :| q0 in NodePaths(m);
      WalkPaths(n, path);
      assert path <= path + q0;
    }
  }

  // ---------------------------------------------------------------------------
  // Lemmas: insertion

  /** A failed insertion always reports the URL and the non-directory it met. */
  lemma {:induction false} InsertAtError(es: seq<Entry>, depth: nat, parts: seq<string>, leaf: string, post: Post, url: string)
    ensures InsertAt(es, depth, parts, leaf, post, url).Failure? ==> InsertAt(es, depth, parts, leaf, post, url).error == NonDirError(url)
    decreases |parts|
  {
    if parts != [] {
      match Find(es, parts[0])
      case Some(Directory(children, d)) =>
        InsertAtError(children, d, parts[1..], leaf, post, url);
      case Some(_) =>
      case None =>
        InsertAtError([IndexRedirect(depth + 1)], depth + 1, parts[1..], leaf, post, url);
    }
  }

  /**
   * Insertion adds the post and drops whatever posts were stored at its path
   * (an overwritten post, or a whole directory replaced by the leaf).
   */
  lemma {:induction false} InsertAtVisit(es: seq<Entry>, depth: nat, parts: seq<string>, leaf: string, post: Post, url: string)
    requires InsertAt(es, depth, parts, leaf, post, url).Success?
    ensures multiset(Visit(InsertAt(es, depth, parts, leaf, post, url).value))
            + multiset(Below(Walk(Directory(es, depth), parts + [leaf])))
         == multiset(Visit(es)) + multiset{post}
    decreases |parts|
  {
    var es' := InsertAt(es, depth, parts, leaf, post, url).value;
    var target := parts + [leaf];
    if parts == [] {
      assert target == [leaf];
      assert Walk(Directory(es, depth), target) == Find(es, leaf);
      PutVisit(es, leaf, PostNode(post, depth + 1));
    } else {
      var k := parts[0];
      assert target[0] == k && target[1..] == parts[1..] + [leaf];
      match Find(es, k)
      case Some(Directory(children, d)) =>
        var children' := InsertAt(children, d, parts[1..], leaf, post, url).value;
        InsertAtVisit(children, d, parts[1..], leaf, post, url);
        assert Walk(Directory(es, depth), target) == Walk(Directory(children, d), parts[1..] + [leaf]);
        PutVisit(es, k, Directory(children', d));
        assert es' == Put(es, k, Directory(children', d));
        Exchange(multiset(Visit(es')), multiset(Visit(children)), multiset(Visit(es)), multiset(Visit(children')),
                 multiset(Below(Walk(Directory(children, d), parts[1..] + [leaf]))), multiset{post});
      case None =>
        var newDir := [IndexRedirect(depth + 1)];
        var children' := InsertAt(newDir, depth + 1, parts[1..], leaf, post, url).value;
        InsertAtVisit(newDir, depth + 1, parts[1..], leaf, post, url);
        NewDirHoldsOnlyPost(depth + 1, parts[1..] + [leaf], children', post);
        PutVisit(es, k, Directory(children', depth + 1));
        assert es' == Put(es, k, Directory(children', depth + 1));
        assert Below(Find(es, k)) == [] && Below(Walk(Directory(es, depth), target)) == [];
        assert NodePosts(Directory(children', depth + 1)) == Visit(children');
    }
  }

  /** Trading `b` for `a` and then `a` back for `b` plus `p` amounts to adding `p`. */
  lemma {:induction false} Exchange<T>(x: multiset<T>, b: multiset<T>, v: multiset<T>, a: multiset<T>, g: multiset<T>, p: multiset<T>)
    requires x + b == v + a && a + g == b + p
    ensures x + g == v + p
  {
    assert forall e :: (x + g)[e] == (v + p)[e] by {
      forall e ensures (x + g)[e] == (v + p)[e] {
        assert (x + b)[e] == (v + a)[e];
        assert (a + g)[e] == (b + p)[e];
      }
    }
  }

  /** A new directory starts with only its redirect, so after one insertion it holds just that post. */
  lemma {:induction false} NewDirHoldsOnlyPost(depth: nat, path: seq<string>, children': seq<Entry>, post: Post)
    requires multiset(Visit(children')) + multiset(Below(Walk(Directory([IndexRedirect(depth)], depth), path)))
          == multiset(Visit([IndexRedirect(depth)])) + multiset{post}
    ensures multiset(Visit(children')) == multiset{post}
  {
    var newDir := [IndexRedirect(depth)];
    assert newDir[1..] == [];
    assert Visit(newDir) == [];
    WalkBelow(Directory(newDir, depth), path);
    assert NodePosts(Directory(newDir, depth)) == [];
    var g := multiset(Below(Walk(Directory(newDir, depth), path)));
    assert g == multiset{};
    assert multiset(Visit(children')) + g == multiset(Visit(children'));
  }

  /** Insertion adds at most the post's own path to the tree's post paths. */
  lemma {:induction false} InsertAtPaths(es: seq<Entry>, depth: nat, parts: seq<string>, leaf: string, post: Post, url: string)
    requires InsertAt(es, depth, parts, leaf, post, url).Success?
    ensures EntryPaths(InsertAt(es, depth, parts, leaf, post, url).value) <= EntryPaths(es) + {parts + [leaf]}
    decreases |parts|
  {
    if parts == [] {
      PutPaths(es, leaf, PostNode(post, depth + 1));
      PrefixedEmpty(leaf);
      assert parts + [leaf] == [leaf];
    } else {
      var k := parts[0];
      var target := parts + [leaf];
      assert [k] + (parts[1..] + [leaf]) == target;
      match Find(es, k)
      case Some(Directory(children, d)) =>
        var children' := InsertAt(children, d, parts[1..], leaf, post, url).value;
        InsertAtPaths(children, d, parts[1..], leaf, post, url);
        PutPaths(es, k, Directory(children', d));
        FindPaths(es, k);
      case None =>
        var newDir := [IndexRedirect(depth + 1)];
        var children' := InsertAt(newDir, depth + 1, parts[1..], leaf, post, url).value;
        InsertAtPaths(newDir, depth + 1, parts[1..], leaf, post, url);
        assert EntryPaths(newDir) == {};
        PutPaths(es, k, Directory(children', depth + 1));
    }
  }

  /** After a successful insertion the post is stored at `parts + [leaf]`, whatever was there before. */
  lemma {:induction false} InsertAtPlaces(es: seq<Entry>, depth: nat, parts: seq<string>, leaf: string, post: Post, url: string)
    requires InsertAt(es, depth, parts, leaf, post, url).Success?
    ensures var w := Walk(Directory(InsertAt(es, depth, parts, leaf, post, url).value, depth), parts + [leaf]);
            w.Some? && w.value.PostNode? && w.value.post == post
    decreases |parts|
  {
    var es' := InsertAt(es, depth, parts, leaf, post, url).value;
    var target := parts + [leaf];
    if parts == [] {
      assert target == [leaf];
      PutFind(es, leaf, PostNode(post, depth + 1), leaf);
      assert Walk(Directory(es', depth), target) == Walk(PostNode(post, depth + 1), []);
    } else {
      var k := parts[0];
      assert target[0] == k && target[1..] == parts[1..] + [leaf];
      match Find(es, k)
      case Some(Directory(children, d)) =>
        InsertAtPlaces(children, d, parts[1..], leaf, post, url);
        PutFind(es, k, Directory(InsertAt(children, d, parts[1..], leaf, post, url).value, d), k);
      case None =>
        var newDir := [IndexRedirect(depth + 1)];
        InsertAtPlaces(newDir, depth + 1, parts[1..], leaf, post, url);
        PutFind(es, k, Directory(InsertAt(newDir, depth + 1, parts[1..], leaf, post, url).value, depth + 1), k);
    }
  }

  /** Insertion leaves every node alone whose path is unrelated to the post's path. */
  lemma {:induction false} InsertAtFrame(es: seq<Entry>, depth: nat, parts: seq<string>, leaf: string, post: Post, url: string, path: seq<string>)
    requires InsertAt(es, depth, parts, leaf, post, url).Success?
    requires Walk(Directory(es, depth), path).Some?
    requires !(path <= parts + [leaf]) && !(parts + [leaf] <= path)
    ensures Walk(Directory(InsertAt(es, depth, parts, leaf, post, url).value, depth), path)
         == Walk(Directory(es, depth), path)
    decreases |parts|
  {
    var es' := InsertAt(es, depth, parts, leaf, post, url).value;
    var target := parts + [leaf];
    assert path != [];
    assert path[..1] == [path[0]];
    if parts == [] {
      assert target == [leaf];
      PutFind(es, leaf, PostNode(post, depth + 1), path[0]);
    } else {
      var k := parts[0];
      assert target[0] == k && target[1..] == parts[1..] + [leaf];
      assert target[..1] == [k];
      if path[0] != k {
        match Find(es, k)
        case Some(Directory(children, d)) =>
          PutFind(es, k, Directory(InsertAt(children, d, parts[1..], leaf, post, url).value, d), path[0]);
        case None =>
          var newDir := [IndexRedirect(depth + 1)];
          PutFind(es, k, Directory(InsertAt(newDir, depth + 1, parts[1..], leaf, post, url).value, depth + 1), path[0]);
      } else {
        assert |path| >= 2;
        match Find(es, k)
        case Some(Directory(children, d)) =>
          var children' := InsertAt(children, d, parts[1..], leaf, post, url).value;
          assert !(path[1..] <= parts[1..] + [leaf]) && !(parts[1..] + [leaf] <= path[1..]) by {
            assert path == [k] + path[1..];
            assert target == [k] + (parts[1..] + [leaf]);
          }
          InsertAtFrame(children, d, parts[1..], leaf, post, url, path[1..]);
          PutFind(es, k, Directory(children', d), k);
      }
    }
  }

  /** Insertion keeps a non-directory entry, unless the post is stored under its key. */
  lemma {:induction false} KeepsLeafless(es: seq<Entry>, depth: nat, parts: seq<string>, leaf: string, post: Post, url: string, name: string)
    requires InsertAt(es, depth, parts, leaf, post, url).Success?
    requires Find(es, name).Some? && !Find(es, name).value.Directory?
    requires parts == [] ==> name != leaf
    ensures Find(InsertAt(es, depth, parts, leaf, post, url).value, name) == Find(es, name)
  {
    if parts == [] {
      PutFind(es, leaf, PostNode(post, depth + 1), name);
    } else {
      var k := parts[0];
      match Find(es, k)
      case Some(Directory(children, d)) =>
        PutFind(es, k, Directory(InsertAt(children, d, parts[1..], leaf, post, url).value, d), name);
      case None =>
        var newDir := [IndexRedirect(depth + 1)];
        PutFind(es, k, Directory(InsertAt(newDir, depth + 1, parts[1..], leaf, post, url).value, depth + 1), name);
    }
  }

  /** A successful insertion keeps the directory's index entry as the invariant wants it. */
  lemma {:induction false} KeepsIndex(es: seq<Entry>, depth: nat, parts: seq<string>, leaf: string, post: Post, url: string)
    requires InsertAt(es, depth, parts, leaf, post, url).Success?
    requires IndexOk(es, depth)
    ensures IndexOk(InsertAt(es, depth, parts, leaf, post, url).value, depth)
  {
    if parts == [] {
      PutFind(es, leaf, PostNode(post, depth + 1), IndexName);
    } else {
      KeepsLeafless(es, depth, parts, leaf, post, url, IndexName);
    }
  }

  /** A new directory is well formed: its index redirects "../" once per level. */
  lemma {:induction false} NewDirOk(depth: nat)
    ensures WellFormed([IndexRedirect(depth)], depth) && IndexOk([IndexRedirect(depth)], depth)
  {
    var newDir := [IndexRedirect(depth)];
    assert newDir[1..] == [];
    assert NodeOk(newDir[0].node, depth);
    assert WellFormed(newDir[1..], depth);
  }

  lemma {:induction false} PutWellFormed(es: seq<Entry>, depth: nat, name: string, n: Node)
    requires WellFormed(es, depth) && NodeOk(n, depth)
    ensures WellFormed(Put(es, name, n), depth)
    decreases |es|
  {
    if es != [] {
      if es[0].name == name {
        assert Put(es, name, n)[1..] == es[1..];
      } else {
        PutWellFormed(es[1..], depth, name, n);
        assert Put(es, name, n)[1..] == Put(es[1..], name, n);
      }
    }
  }

  lemma {:induction false} FindWellFormed(es: seq<Entry>, depth: nat, name: string)
    requires WellFormed(es, depth) && Find(es, name).Some?
    ensures NodeOk(Find(es, name).value, depth)
    decreases |es|
  {
    if es[0].name != name {
      FindWellFormed(es[1..], depth, name);
    }
  }

  /** Insertion keeps every depth consistent and every subdirectory's index intact. */
  lemma {:induction false} InsertAtWellFormed(es: seq<Entry>, depth: nat, parts: seq<string>, leaf: string, post: Post, url: string)
    requires InsertAt(es, depth, parts, leaf, post, url).Success?
    requires WellFormed(es, depth)
    ensures WellFormed(InsertAt(es, depth, parts, leaf, post, url).value, depth)
    decreases |parts|
  {
    if parts == [] {
      PutWellFormed(es, depth, leaf, PostNode(post, depth + 1));
    } else {
      var k := parts[0];
      match Find(es, k)
      case Some(Directory(children, d)) =>
        FindWellFormed(es, depth, k);
        var children' := InsertAt(children, d, parts[1..], leaf, post, url).value;
        InsertAtWellFormed(children, d, parts[1..], leaf, post, url);
        KeepsIndex(children, d, parts[1..], leaf, post, url);
        PutWellFormed(es, depth, k, Directory(children', d));
      case None =>
        var newDir := [IndexRedirect(depth + 1)];
        NewDirOk(depth + 1);
        var children' := InsertAt(newDir, depth + 1, parts[1..], leaf, post, url).value;
        InsertAtWellFormed(newDir, depth + 1, parts[1..], leaf, post, url);
        KeepsIndex(newDir, depth + 1, parts[1..], leaf, post, url);
        PutWellFormed(es, depth, k, Directory(children', depth + 1));
    }
  }

  /** In a well-formed tree a node's stored depth is the length of its path. */
  lemma {:induction false} WalkDepth(es: seq<Entry>, depth: nat, path: seq<string>)
    requires WellFormed(es, depth) && path != []
    requires Walk(Directory(es, depth), path).Some?
    ensures var n := Walk(Directory(es, depth), path).value;
            (n.Directory? || n.PostNode?) ==> n.depth == depth + |path|
    decreases |path|
  {
    var child := Find(es, path[0]).value;
    FindWellFormed(es, depth, path[0]);
    if |path| > 1 && child.Directory? {
      WalkDepth(child.entries, child.depth, path[1..]);
    }
  }

  /** In a well-formed tree every node reached by a non-empty path is well formed for the directory it sits in. */
  lemma {:induction false} WalkNodeOk(es: seq<Entry>, depth: nat, path: seq<string>)
    requires WellFormed(es, depth) && path != []
    requires Walk(Directory(es, depth), path).Some?
    ensures NodeOk(Walk(Directory(es, depth), path).value, depth + |path| - 1)
    decreases |path|
  {
    var child := Find(es, path[0]).value;
    FindWellFormed(es, depth, path[0]);
    if |path| > 1 {
      WalkNodeOk(child.entries, child.depth, path[1..]);
    }
  }

  // ---------------------------------------------------------------------------
  // Lemmas: building the whole tree

  /** insertPost stores the post at the '/'-pieces of its URL. */
  lemma {:induction false} InsertPostTarget(env: Env, p: Post)
    ensures var parts := Split(CreateURL(env, p), '/');
            parts[..|parts| - 1] + [Paths.Base(CreateURL(env, p))] == Target(env, p)
  {
    URLEndsInHtml(env, p);
    Paths.SplitDirsAndBase(CreateURL(env, p));
  }

  /** "feed.xml" can never be a leaf, because every leaf ends in ".html". */
  lemma {:induction false} LeafIsNotFeed(env: Env, p: Post)
    ensures Paths.Base(CreateURL(env, p)) != FeedName
  {
    var url := CreateURL(env, p);
    URLEndsInHtml(env, p);
    Paths.BaseIsLastSegment(url);
    URLLastSegment(env, p);
    var x := Last(Split(url, '/'));
    assert x[|x| - 1] == 'l';
  }

  lemma {:induction false} InsertAllError(env: Env, es: seq<Entry>, posts: seq<Post>)
    ensures InsertAll(env, es, posts).Failure? ==>
              exists i :: 0 <= i < |posts| && InsertAll(env, es, posts).error == NonDirError(CreateURL(env, posts[i]))
    decreases |posts|
  {
    if posts != [] {
      var url := CreateURL(env, posts[0]);
      var parts := Split(url, '/');
      InsertAtError(es, 0, parts[..|parts| - 1], Paths.Base(url), CacheDate(env, posts[0]), url);
      var r := InsertPost(env, es, posts[0]);
      if r.Success? {
        InsertAllError(env, r.value, posts[1..]);
        if InsertAll(env, r.value, posts[1..]).Failure? {
          var i :| 0 <= i < |posts[1..]| && InsertAll(env, r.value, posts[1..]).error == NonDirError(CreateURL(env, posts[1..][i]));
          assert posts[1..][i] == posts[i + 1];
        }
      }
    }
  }

  /** One insertion keeps the root well formed and the feed in place. */
  lemma {:induction false} InsertPostKeeps(env: Env, es: seq<Entry>, p: Post)
    requires InsertPost(env, es, p).Success?
    requires WellFormed(es, 0)
    requires Find(es, FeedName).Some? && Find(es, FeedName).value.FeedNode?
    ensures WellFormed(InsertPost(env, es, p).value, 0)
    ensures Find(InsertPost(env, es, p).value, FeedName) == Find(es, FeedName)
  {
    var url := CreateURL(env, p);
    var parts := Split(url, '/');
    var leaf := Paths.Base(url);
    InsertAtWellFormed(es, 0, parts[..|parts| - 1], leaf, CacheDate(env, p), url);
    LeafIsNotFeed(env, p);
    KeepsLeafless(es, 0, parts[..|parts| - 1], leaf, CacheDate(env, p), url, FeedName);
  }

  /** One insertion at a path with no posts at or below it adds exactly its post and its path. */
  lemma {:induction false} InsertPostVisit(env: Env, es: seq<Entry>, p: Post)
    requires InsertPost(env, es, p).Success?
    requires forall q :: q in EntryPaths(es) ==> !(Target(env, p) <= q)
    ensures multiset(Visit(InsertPost(env, es, p).value)) == multiset(Visit(es)) + multiset{CacheDate(env, p)}
    ensures EntryPaths(InsertPost(env, es, p).value) <= EntryPaths(es) + {Target(env, p)}
  {
    var url := CreateURL(env, p);
    var parts := Split(url, '/');
    var dirs := parts[..|parts| - 1];
    var leaf := Paths.Base(url);
    var t := Target(env, p);
    InsertPostTarget(env, p);
    assert dirs + [leaf] == t;
    BlockedPath(Directory(es, 0), t);
    assert Below(Walk(Directory(es, 0), t)) == [];
    InsertAtVisit(es, 0, dirs, leaf, CacheDate(env, p), url);
    InsertAtPaths(es, 0, dirs, leaf, CacheDate(env, p), url);
  }

  /** One insertion leaves alone every node whose path is unrelated to the post's path. */
  lemma {:induction false} InsertPostFrame(env: Env, es: seq<Entry>, p: Post, path: seq<string>)
    requires InsertPost(env, es, p).Success?
    requires Walk(Directory(es, 0), path).Some?
    requires !(path <= Target(env, p)) && !(Target(env, p) <= path)
    ensures Walk(Directory(InsertPost(env, es, p).value, 0), path) == Walk(Directory(es, 0), path)
  {
    var url := CreateURL(env, p);
    var parts := Split(url, '/');
    InsertPostTarget(env, p);
    InsertAtFrame(es, 0, parts[..|parts| - 1], Paths.Base(url), CacheDate(env, p), url, path);
  }

  /** One insertion stores the post at its path. */
  lemma {:induction false} InsertPostPlaces(env: Env, es: seq<Entry>, p: Post)
    requires InsertPost(env, es, p).Success?
    ensures var w := Walk(Directory(InsertPost(env, es, p).value, 0), Target(env, p));
            w.Some? && w.value.PostNode? && w.value.post == CacheDate(env, p)
  {
    var url := CreateURL(env, p);
    var parts := Split(url, '/');
    InsertPostTarget(env, p);
    InsertAtPlaces(es, 0, parts[..|parts| - 1], Paths.Base(url), CacheDate(env, p), url);
  }

  lemma {:induction false} InsertAllKeeps(env: Env, es: seq<Entry>, posts: seq<Post>)
    requires InsertAll(env, es, posts).Success?
    requires WellFormed(es, 0)
    requires Find(es, FeedName).Some? && Find(es, FeedName).value.FeedNode?
    ensures WellFormed(InsertAll(env, es, posts).value, 0)
    ensures Find(InsertAll(env, es, posts).value, FeedName) == Find(es, FeedName)
    decreases |posts|
  {
    if posts != [] {
      InsertPostKeeps(env, es, posts[0]);
      InsertAllKeeps(env, InsertPost(env, es, posts[0]).value, posts[1..]);
    }
  }

  /**
   * With prefix-free paths no insertion finds posts at its own path, so every
   * insertion adds exactly its post.
   */
  lemma {:induction false} InsertAllVisit(env: Env, es: seq<Entry>, posts: seq<Post>, done: seq<seq<string>>)
    requires InsertAll(env, es, posts).Success?
    requires PrefixFree(done + Targets(env, posts))
    requires forall q :: q in EntryPaths(es) ==> q in done
    ensures multiset(Visit(InsertAll(env, es, posts).value)) == multiset(Visit(es)) + multiset(CacheAll(env, posts))
    decreases |posts|
  {
    if posts == [] {
      assert CacheAll(env, posts) == [];
    } else {
      var ts := Targets(env, posts);
      NextPathFree(done, ts, EntryPaths(es));
      assert ts[0] == Target(env, posts[0]);
      InsertPostVisit(env, es, posts[0]);
      assert Targets(env, posts[1..]) == ts[1..];
      var es' := InsertPost(env, es, posts[0]).value;
      InsertAllVisit(env, es', posts[1..], done + [ts[0]]);
      assert InsertAll(env, es, posts) == InsertAll(env, es', posts[1..]);
      CacheAllCons(env, posts);
      MultisetShift(Visit(InsertAll(env, es, posts).value), Visit(es'), Visit(es), CacheDate(env, posts[0]), CacheAll(env, posts[1..]));
    }
  }

  lemma {:induction false} MultisetShift<T>(v: seq<T>, w: seq<T>, u: seq<T>, x: T, rest: seq<T>)
    requires multiset(v) == multiset(w) + multiset(rest)
    requires multiset(w) == multiset(u) + multiset{x}
    ensures multiset(v) == multiset(u) + multiset([x] + rest)
  {
  }

  /** The next path in a prefix-free list has no earlier path extending it. */
  lemma {:induction false} NextPathFree(done: seq<seq<string>>, ts: seq<seq<string>>, paths: set<seq<string>>)
    requires PrefixFree(done + ts) && |ts| > 0
    requires forall q :: q in paths ==> q in done
    ensures forall q :: q in paths ==> !(ts[0] <= q)
    ensures PrefixFree((done + [ts[0]]) + ts[1..])
    ensures forall q :: q in paths + {ts[0]} ==> q in done + [ts[0]]
  {
    var all := done + ts;
    assert all[|done|] == ts[0];
    forall q | q in paths
      ensures !(ts[0] <= q)
    {
      var j :| 0 <= j < |done| && done[j] == q;
      assert all[j] == q;
    }
    assert all == (done + [ts[0]]) + ts[1..];
  }

  /** A post already placed stays where it is while later, unrelated posts are inserted. */
  lemma {:induction false} InsertAllFrame(env: Env, es: seq<Entry>, posts: seq<Post>, path: seq<string>)
    requires InsertAll(env, es, posts).Success?
    requires Walk(Directory(es, 0), path).Some?
    requires forall j :: 0 <= j < |posts| ==> !(path <= Target(env, posts[j])) && !(Target(env, posts[j]) <= path)
    ensures Walk(Directory(InsertAll(env, es, posts).value, 0), path) == Walk(Directory(es, 0), path)
    decreases |posts|
  {
    if posts != [] {
      InsertPostFrame(env, es, posts[0], path);
      forall j | 0 <= j < |posts[1..]|
        ensures !(path <= Target(env, posts[1..][j])) && !(Target(env, posts[1..][j]) <= path)
      {
        assert posts[1..][j] == posts[j + 1];
      }
      InsertAllFrame(env, InsertPost(env, es, posts[0]).value, posts[1..], path);
    }
  }

  lemma {:induction false} PrefixFreeTail(paths: seq<seq<string>>)
    requires PrefixFree(paths) && |paths| > 0
    ensures PrefixFree(paths[1..])
  {
    forall i, j | 0 <= i < |paths[1..]| && 0 <= j < |paths[1..]| && i != j
      ensures !(paths[1..][i] <= paths[1..][j])
    {
      assert paths[1..][i] == paths[i + 1] && paths[1..][j] == paths[j + 1];
    }
  }

  /** The first of prefix-free paths is unrelated to every later one. */
  lemma {:induction false} PrefixFreeHead(paths: seq<seq<string>>)
    requires PrefixFree(paths) && |paths| > 0
    ensures forall j :: 0 <= j < |paths[1..]| ==> !(paths[0] <= paths[1..][j]) && !(paths[1..][j] <= paths[0])
  {
    forall j | 0 <= j < |paths[1..]|
      ensures !(paths[0] <= paths[1..][j]) && !(paths[1..][j] <= paths[0])
    {
      assert paths[1..][j] == paths[j + 1];
    }
  }

  /** Under prefix-free paths, every post ends up at its own path. */
  lemma {:induction false} InsertAllPlaces(env: Env, es: seq<Entry>, posts: seq<Post>, i: nat)
    requires InsertAll(env, es, posts).Success?
    requires PrefixFree(Targets(env, posts)) && i < |posts|
    ensures var w := Walk(Directory(InsertAll(env, es, posts).value, 0), Target(env, posts[i]));
            w.Some? && w.value.PostNode? && w.value.post == CacheDate(env, posts[i])
    decreases |posts|
  {
    if i == 0 {
      PlacedFirst(env, es, posts);
    } else {
      var es' := InsertAllStep(env, es, posts);
      TargetsTail(env, posts);
      PrefixFreeTail(Targets(env, posts));
      InsertAllPlaces(env, es', posts[1..], i - 1);
      assert posts[1..][i - 1] == posts[i];
      SamePlacement(Directory(InsertAll(env, es', posts[1..]).value, 0), Directory(InsertAll(env, es, posts).value, 0),
                    Target(env, posts[1..][i - 1]), Target(env, posts[i]),
                    CacheDate(env, posts[1..][i - 1]), CacheDate(env, posts[i]));
    }
  }

  /** One step of a successful InsertAll: the first post goes in, then the rest. */
  lemma {:induction false} SamePlacement(n: Node, n': Node, path: seq<string>, path': seq<string>, c: Post, c': Post)
    requires n == n' && path == path' && c == c'
    requires var w := Walk(n, path); w.Some? && w.value.PostNode? && w.value.post == c
    ensures var w := Walk(n', path'); w.Some? && w.value.PostNode? && w.value.post == c'
  {
  }

  lemma {:induction false} InsertAllStep(env: Env, es: seq<Entry>, posts: seq<Post>) returns (es': seq<Entry>)
    requires InsertAll(env, es, posts).Success? && posts != []
    ensures InsertPost(env, es, posts[0]) == Success(es')
    ensures InsertAll(env, es, posts) == InsertAll(env, es', posts[1..])
  {
    es' := InsertPost(env, es, posts[0]).value;
  }

  lemma {:induction false} TargetsTail(env: Env, posts: seq<Post>)
    requires posts != []
    ensures Targets(env, posts[1..]) == Targets(env, posts)[1..]
  {
    var ts := Targets(env, posts);
    assert forall k :: 0 <= k < |posts| - 1 ==> posts[1..][k] == posts[k + 1];
  }

  /** The first post inserted stays where it was put: no later post's path is related to its path. */
  lemma {:induction false} PlacedFirst(env: Env, es: seq<Entry>, posts: seq<Post>)
    requires InsertAll(env, es, posts).Success?
    requires PrefixFree(Targets(env, posts)) && posts != []
    ensures var w := Walk(Directory(InsertAll(env, es, posts).value, 0), Target(env, posts[0]));
            w.Some? && w.value.PostNode? && w.value.post == CacheDate(env, posts[0])
  {
    var es' := InsertPost(env, es, posts[0]).value;
    var ts := Targets(env, posts);
    var rest := Targets(env, posts[1..]);
    assert rest == ts[1..];
    InsertPostPlaces(env, es, posts[0]);
    PrefixFreeHead(ts);
    forall j | 0 <= j < |posts[1..]|
      ensures !(ts[0] <= Target(env, posts[1..][j])) && !(Target(env, posts[1..][j]) <= ts[0])
    {
      assert rest[j] == Target(env, posts[1..][j]);
    }
    InsertAllFrame(env, es', posts[1..], ts[0]);
  }


  // ---------------------------------------------------------------------------
  // Theorems about createRenderTree

  /** A built tree is a well-formed root directory holding the feed of all posts. */
  lemma {:induction false} BuiltRoot(env: Env, posts: seq<Post>)
    requires CreateRenderTree(env, posts).Success?
    ensures var root := CreateRenderTree(env, posts).value;
            && root.Directory? && root.depth == 0
            && Find(root.entries, FeedName) == Some(FeedNode(CacheAll(env, posts)))
            && WellFormed(root.entries, 0)
  {
    var start := FeedOnly(env, posts);
    assert start[1..] == [];
    assert NodeOk(start[0].node, 0) && WellFormed(start[1..], 0);
    assert WellFormed(start, 0);
    InsertAllKeeps(env, start, posts);
    assert CreateRenderTree(env, posts).value == Directory(InsertAll(env, start, posts).value, 0);
  }

  /** A failed build reports the URL of one of the posts. */
  lemma {:induction false} BuildError(env: Env, posts: seq<Post>)
    requires CreateRenderTree(env, posts).Failure?
    ensures exists i :: 0 <= i < |posts| && CreateRenderTree(env, posts).error == NonDirError(CreateURL(env, posts[i]))
  {
    InsertAllError(env, FeedOnly(env, posts), posts);
  }

  /**
   * Round trip: when no post's path is a prefix of (or equal to) another's, the
   * built tree visits exactly the input posts, as a multiset.
   */
  lemma {:induction false} RoundTrip(env: Env, posts: seq<Post>)
    requires CreateRenderTree(env, posts).Success?
    requires PrefixFree(Targets(env, posts))
    ensures multiset(NodePosts(CreateRenderTree(env, posts).value)) == multiset(CacheAll(env, posts))
  {
    var es := BuiltEntries(env, posts);
    StartHoldsNoPosts(env, posts);
    assert [] + Targets(env, posts) == Targets(env, posts);
    InsertAllVisit(env, FeedOnly(env, posts), posts, []);
    assert NodePosts(Directory(es, 0)) == Visit(es);
  }

  /** The starting root holds the feed and no post. */
  lemma {:induction false} StartHoldsNoPosts(env: Env, posts: seq<Post>)
    ensures Visit(FeedOnly(env, posts)) == []
    ensures EntryPaths(FeedOnly(env, posts)) == {}
  {
    var start := FeedOnly(env, posts);
    assert start[1..] == [];
    assert Visit(start) == NodePosts(start[0].node) + Visit([]);
  }

  /**
   * Placement: under the same condition each post sits at the '/'-pieces of its
   * URL, at that many levels below the root (PlacedDepthPath turns that into the
   * "../" prefix it renders with).
   */
  lemma {:induction false} Placement(env: Env, posts: seq<Post>, i: nat)
    requires CreateRenderTree(env, posts).Success?
    requires PrefixFree(Targets(env, posts)) && i < |posts|
    ensures var root := CreateRenderTree(env, posts).value;
            var path := Target(env, posts[i]);
            Walk(root, path) == Some(PostNode(CacheDate(env, posts[i]), |path|))
  {
    var es := BuiltEntries(env, posts);
    var path := Target(env, posts[i]);
    var c := CacheDate(env, posts[i]);
    InsertAllPlaces(env, FeedOnly(env, posts), posts, i);
    PostAtDepth(es, path, c);
  }

  /** The entries of a built root: the insertions into the feed-only directory. */
  lemma {:induction false} BuiltEntries(env: Env, posts: seq<Post>) returns (es: seq<Entry>)
    requires CreateRenderTree(env, posts).Success?
    ensures InsertAll(env, FeedOnly(env, posts), posts) == Success(es)
    ensures CreateRenderTree(env, posts) == Success(Directory(es, 0))
    ensures WellFormed(es, 0)
  {
    es := InsertAll(env, FeedOnly(env, posts), posts).value;
    BuiltRoot(env, posts);
  }

  /**
   * The relative root path a placed post renders with: "../" once per directory
   * above it, so that the link leads from the post's page back to the site root.
   * A post whose name has no '/' sits under "year/month/" when dated, giving
   * "../../", and at the root otherwise, giving "".
   */
  lemma {:induction false} PlacedDepthPath(env: Env, posts: seq<Post>, i: nat) returns (segments: nat)
    requires CreateRenderTree(env, posts).Success?
    requires PrefixFree(Targets(env, posts)) && i < |posts|
    ensures segments == |Target(env, posts[i])|
    ensures var w := Walk(CreateRenderTree(env, posts).value, Target(env, posts[i]));
            && w.Some? && w.value.PostNode?
            && DepthPath(w.value) == Up(segments - 1)
            && ('/' !in BaseName(posts[i]) ==>
                  DepthPath(w.value) == if Dated(env, posts[i]) then "../../" else "")
  {
    Placement(env, posts, i);
    segments := PlacedDepth(env, posts[i], Walk(CreateRenderTree(env, posts).value, Target(env, posts[i])));
  }

  /** The root path of a post node whose depth is the number of segments of the post's URL. */
  lemma {:induction false} PlacedDepth(env: Env, p: Post, w: Option<Node>) returns (segments: nat)
    requires w.Some? && w.value.PostNode? && w.value.depth == |Target(env, p)|
    ensures segments == |Target(env, p)|
    ensures w.Some? && w.value.PostNode?
            && DepthPath(w.value) == Up(segments - 1)
            && ('/' !in BaseName(p) ==>
                  DepthPath(w.value) == if Dated(env, p) then "../../" else "")
  {
    segments := SegmentCount(env, p);
    DepthOfPlaced(w.value, segments);
    if '/' !in BaseName(p) {
      SlashFreeDepth(env, p, w.value, segments);
    }
  }

  lemma {:induction false} SegmentCount(env: Env, p: Post) returns (k: nat)
    ensures k == |Target(env, p)| && k > 0
  {
    k := |Target(env, p)|;
  }

  /** The root path of a node at a slash-free post's place, written out. */
  lemma {:induction false} SlashFreeDepth(env: Env, p: Post, n: Node, k: nat)
    requires '/' !in BaseName(p) && k == |Target(env, p)| && k > 0 && DepthPath(n) == Up(k - 1)
    ensures DepthPath(n) == if Dated(env, p) then "../../" else ""
  {
    SlashFreeTarget(env, p);
    ShortDepthPath(n, k, Dated(env, p));
  }

  /**
   * The three nodes TestDepthPath (rendertree_test.go) builds: the root, its child
   * and its grandchild. The child's path is "" and the grandchild's "../", one
   * "../" fewer than that test expects; the root's is "" as it expects.
   */
  lemma {:induction false} DepthPathChain(es: seq<Entry>)
    ensures DepthPath(Directory(es, 0)) == ""
    ensures DepthPath(Directory(es, 1)) == ""
    ensures DepthPath(Directory(es, 2)) == "../"
  {
    assert Up(1) == "../";
  }

  lemma {:induction false} ShortDepthPath(n: Node, k: nat, dated: bool)
    requires k == (if dated then 3 else 1) && DepthPath(n) == Up(k - 1)
    ensures DepthPath(n) == if dated then "../../" else ""
  {
    assert Up(2) == "../../";
    assert Up(0) == "";
  }

  lemma {:induction false} DepthOfPlaced(n: Node, k: nat)
    requires k > 0 && n.PostNode? && n.depth == k
    ensures DepthPath(n) == Up(k - 1)
  {
  }

  /** A post whose name has no '/' has a three-piece URL when dated, and a one-piece URL otherwise. */
  lemma {:induction false} SlashFreeTarget(env: Env, p: Post)
    requires '/' !in BaseName(p)
    ensures |Target(env, p)| == if Dated(env, p) then 3 else 1
  {
    SlashFreeLeaf(p);
    var leaf := Leaf(p);
    assert Split(leaf, '/') == [leaf];
    if Dated(env, p) {
      NoSlashLeafClean(leaf[..|leaf| - 5]);
      assert leaf[..|leaf| - 5] + ".html" == leaf;
      CreateURLDated(env, p);
      var d := ParseDate(env, p.date);
      var y, m := IntToString(d.year), NatToString(d.month);
      assert '/' !in y && '/' !in m;
      SplitThree(y, m, leaf);
    }
  }

  lemma {:induction false} SlashFreeHtml(b: string, x: string)
    requires '/' !in b && (x == b || (b != "" && x == b[..|b| - 1]))
    ensures '/' !in x + ".html" && (x + ".html")[|x + ".html"| - 5..] == ".html"
  {
    assert '/' !in x by {
      assert forall k :: 0 <= k < |x| ==> x[k] == b[k];
    }
    NoSlashConcat(x, ".html");
    assert (x + ".html")[|x|..] == ".html";
  }

  /** The leaf of a post whose name has no '/' has none either, and ends in ".html". */
  lemma {:induction false} SlashFreeLeaf(p: Post)
    requires '/' !in BaseName(p)
    ensures '/' !in Leaf(p) && |Leaf(p)| >= 5 && Leaf(p)[|Leaf(p)| - 5..] == ".html"
  {
    var b := ToLower(BaseName(p));
    LowerNoSlash(BaseName(p));
    LeafOfSlashFreeBase(p, BaseName(p));
    var x := if HasSuffix(b, "_") then b[..|b| - 1] else b;
    SlashFreeHtml(b, x);
  }

  lemma {:induction false} PostAtDepth(es: seq<Entry>, path: seq<string>, p: Post)
    requires WellFormed(es, 0) && path != []
    requires var w := Walk(Directory(es, 0), path); w.Some? && w.value.PostNode? && w.value.post == p
    ensures Walk(Directory(es, 0), path) == Some(PostNode(p, |path|))
    ensures DepthPath(Walk(Directory(es, 0), path).value) == Up(|path| - 1)
  {
    WalkDepth(es, 0, path);
    var w := Walk(Directory(es, 0), path).value;
    assert w.depth == |path|;
    assert w == PostNode(p, |path|);
    assert NodeDepth(w) == |path|;
  }
}
