/**
 * writer.go: WriteStaticBlog's pipeline (scan, build, write the tree, write the
 * index) and writeRenderTree, which walks a render tree and writes one output
 * file per entry.
 *
 * The output directory is reached through a `Disk` oracle and everything the
 * writer does to it is recorded as a sequence of `Action`s, so "what was written,
 * and where" is part of each result.
 */
module Writer {
  import opened Wrappers
  import opened Strs
  import Paths
  import opened Posts
  import opened RenderTree
  import opened Blogs

  /** One change to the output directory. */
  datatype Action = MakeDir(path: string) | WriteFile(path: string, content: string)

  /** os.Mkdir's outcome: created, already there (which the writer tolerates), or another error. */
  datatype MkdirResult = Made | AlreadyExists | MkdirFailed(message: string)

  /**
   * The output file system. Its answers may depend on the actions done so far;
   * `create` gives the error of os.Create, if any.
   */
  datatype Disk = Disk(
    mkdir: (seq<Action>, string) -> MkdirResult,
    create: (seq<Action>, string) -> Option<string>)

  /**
   * The writer's collaborators: the post parser's environment and source files,
   * the output disk, and RenderPost, which receives the post, its Markdown and the
   * relative path back to the site root.
   */
  datatype Io = Io(
    env: Env,
    fs: FileSystem,
    disk: Disk,
    renderPost: (Post, string, string) -> Result<string>)

  /** What was done, and the error that stopped the writer, if one did. */
  datatype Outcome = Outcome(actions: seq<Action>, error: Option<string>)

  // ---------------------------------------------------------------------------
  // Redirect pages

  const RedirectHead: string := "<html><head><meta http-equiv=\"refresh\" content=\"0;url="
  const RedirectTail: string := "\"></head></html>"

  /** generateRedirect: an HTML page that refreshes immediately to `url`. */
  function GenerateRedirect(url: string): string {
    RedirectHead + url + RedirectTail
  }

  /** The target of a page in the shape GenerateRedirect produces, if it has that shape. */
  function RedirectTarget(page: string): (r: Option<string>)
    ensures r.Some? ==> |r.value| + |RedirectHead| + |RedirectTail| == |page|
  {
    var n := |RedirectHead| + |RedirectTail|;
    if |page| >= n && page[..|RedirectHead|] == RedirectHead && page[|page| - |RedirectTail|..] == RedirectTail
    then Some(page[|RedirectHead|..|page| - |RedirectTail|])
    else None
  }

  // ---------------------------------------------------------------------------
  // writeRenderTree

  /** The error for a root that is not a directory; it names the configured output directory. */
  function NotDirectory(outputDir: string): string {
    "writeRenderTree for " + Quote(outputDir) + ": not a directory"
  }

  /**
   * The error for a node the writer has no case for. Only feeds reach it; %v of
   * the feed's render type prints its enumeration value, 4.
   */
  function UnknownRender(p: string): string {
    "writeRenderTree for " + Quote(p) + ": unknown renderType 4"
  }

  /**
   * Where an entry is written: the output directory joined with the entry's own
   * name. The name of the directory holding the entry plays no part.
   */
  function OutputPath(blog: Blog, name: string): string {
    Paths.JoinPaths([GetOutputDir(blog), name])
  }

  /** The body of writeRenderTree for one directory: its entries in order, stopping at the first error. */
  function WriteEntries(io: Io, blog: Blog, es: seq<Entry>, done: seq<Action>): (o: Outcome)
    ensures done <= o.actions
    decreases es
  {
    if es == [] then Outcome(done, None)
    else
      var first := WriteNode(io, blog, es[0].name, es[0].node, done);
      if first.error.Some? then first
      else WriteEntries(io, blog, es[1..], first.actions)
  }

  /** One entry of writeRenderTree's switch. */
  function WriteNode(io: Io, blog: Blog, name: string, n: Node, done: seq<Action>): (o: Outcome)
    ensures done <= o.actions
    decreases n
  {
    var p := OutputPath(blog, name);
    match n
    case Directory(entries, _) =>
      (match io.disk.mkdir(done, p)
       case MkdirFailed(message) => Outcome(done, Some(message))
       case Made => WriteEntries(io, blog, entries, done + [MakeDir(p)])
       case AlreadyExists => WriteEntries(io, blog, entries, done))
    case PostNode(_, _) =>
      var (post, content) := GetContents(io.env, io.fs, n.post);
      if content.Failure? then Outcome(done, Some(content.error))
      else
        (match io.renderPost(post, content.value, DepthPath(n))
         case Failure(e) => Outcome(done, Some(e))
         case Success(html) => Create(io, done, p, html))
    case RedirectNode(link) => Create(io, done, p, GenerateRedirect(link))
    case FeedNode(_) => Outcome(done, Some(UnknownRender(p)))
  }

  /** os.Create followed by a write whose own error is ignored. */
  function Create(io: Io, done: seq<Action>, p: string, content: string): (o: Outcome)
    ensures done <= o.actions
    ensures o.error.None? <==> io.disk.create(done, p).None?
    ensures o.error.None? ==> o.actions == done + [WriteFile(p, content)]
    ensures o.error.Some? ==> o.actions == done
  {
    match io.disk.create(done, p)
    case Some(e) => Outcome(done, Some(e))
    case None => Outcome(done + [WriteFile(p, content)], None)
  }

  /** writeRenderTree on the root: only a directory can be written. */
  function WriteTree(io: Io, blog: Blog, root: Node, done: seq<Action>): (o: Outcome)
    ensures done <= o.actions
  {
    if root.Directory? then WriteEntries(io, blog, root.entries, done)
    else Outcome(done, Some(NotDirectory(blog.config.outputDir)))
  }

  // ---------------------------------------------------------------------------
  // WriteStaticBlog

  const IndexFile: string := "index.html"

  /**
   * WriteStaticBlog. `scan` is what GetPostsInDirectory returned for the posts
   * directory, and `createIndex` is CreateIndex. The index sees the posts with the
   * dates the build cached on them.
   */
  function WriteStaticBlog(io: Io, blog: Blog, scan: Scan, createIndex: seq<Post> -> Result<string>): Outcome
  {
    if scan.error.Some? then Outcome([], Some("Get posts: " + scan.error.value))
    else match CreateRenderTree(io.env, scan.posts)
      case Failure(e) => Outcome([], Some("Render posts:" + e))
      case Success(root) =>
        var written := WriteTree(io, blog, root, []);
        if written.error.Some? then Outcome(written.actions, Some("Write files: " + written.error.value))
        else match createIndex(CacheAll(io.env, scan.posts))
          case Failure(e) => Outcome(written.actions, Some("Creating index: " + e))
          case Success(index) =>
            var o := Create(io, written.actions, Paths.JoinPaths([GetOutputDir(blog), IndexFile]), index);
            if o.error.Some? then Outcome(o.actions, Some("Creating index: " + o.error.value)) else o
  }

  // ---------------------------------------------------------------------------
  // Names in a tree

  /** Every entry name in a directory's entries, at any depth. */
  function Names(es: seq<Entry>): set<string>
    decreases es
  {
    if es == [] then {} else {es[0].name} + NodeNames(es[0].node) + Names(es[1..])
  }

  function NodeNames(n: Node): set<string>
    decreases n
  {
    if n.Directory? then Names(n.entries) else {}
  }

  /** The flat output paths of the given names. */
  function Outputs(blog: Blog, names: set<string>): set<string> {
    set k | k in names :: OutputPath(blog, k)
  }

  /** Every action from index `from` on touches one of `paths`. */
  predicate Within(actions: seq<Action>, from: nat, paths: set<string>)
    requires from <= |actions|
  {
    forall j :: from <= j < |actions| ==> actions[j].path in paths
  }

  // ---------------------------------------------------------------------------
  // Lemmas: redirect pages

  /** The target of a generated redirect page is recovered from the page. */
  lemma {:induction false} RedirectRoundTrip(url: string)
    ensures RedirectTarget(GenerateRedirect(url)) == Some(url)
  {
    var page := GenerateRedirect(url);
    var h := |RedirectHead|;
    var t := |page| - |RedirectTail|;
    assert page[..h] == RedirectHead;
    assert page[t..] == RedirectTail;
    assert page[h..t] == url;
  }

  /** A page with a recoverable target is exactly the redirect page for that target. */
  lemma {:induction false} RedirectTargetSound(page: string)
    requires RedirectTarget(page).Some?
    ensures GenerateRedirect(RedirectTarget(page).value) == page
  {
    var h := |RedirectHead|;
    var t := |page| - |RedirectTail|;
    assert page == page[..h] + page[h..t] + page[t..];
  }

  // ---------------------------------------------------------------------------
  // Lemmas: the order of the writes

  /** The writer stops at the first failing entry and otherwise carries on from where it got. */
  lemma {:induction false} WriteEntriesAppend(io: Io, blog: Blog, a: seq<Entry>, b: seq<Entry>, done: seq<Action>)
    ensures var first := WriteEntries(io, blog, a, done);
            WriteEntries(io, blog, a + b, done)
            == if first.error.Some? then first else WriteEntries(io, blog, b, first.actions)
    decreases |a|
  {
    if a == [] {
      assert a + b == b;
    } else {
      assert (a + b)[0] == a[0];
      assert (a + b)[1..] == a[1..] + b;
      var o := WriteNode(io, blog, a[0].name, a[0].node, done);
      if o.error.None? {
        WriteEntriesAppend(io, blog, a[1..], b, o.actions);
      }
    }
  }

  /** A directory holding a feed entry is never written out completely. */
  lemma {:induction false} FeedFailsWrite(io: Io, blog: Blog, es: seq<Entry>, done: seq<Action>, k: nat)
    requires k < |es| && es[k].node.FeedNode?
    ensures WriteEntries(io, blog, es, done).error.Some?
    decreases |es|
  {
    var o := WriteNode(io, blog, es[0].name, es[0].node, done);
    if k > 0 && o.error.None? {
      assert es[1..][k - 1] == es[k];
      FeedFailsWrite(io, blog, es[1..], o.actions, k - 1);
    }
  }

  /**
   * Once the entries before a feed are written, the feed stops the writer with
   * the unknown-render error for its output path, and nothing after it is written.
   */
  lemma {:induction false} FeedError(io: Io, blog: Blog, a: seq<Entry>, name: string, posts: seq<Post>, b: seq<Entry>, done: seq<Action>)
    requires WriteEntries(io, blog, a, done).error.None?
    ensures WriteEntries(io, blog, a + [Entry(name, FeedNode(posts))] + b, done)
            == Outcome(WriteEntries(io, blog, a, done).actions, Some(UnknownRender(OutputPath(blog, name))))
  {
    var feed := [Entry(name, FeedNode(posts))];
    var rest := feed + b;
    assert a + feed + b == a + rest;
    WriteEntriesAppend(io, blog, a, rest, done);
    assert rest[0] == Entry(name, FeedNode(posts));
    WriteFeed(io, blog, name, posts, WriteEntries(io, blog, a, done).actions);
  }

  lemma {:induction false} WriteFeed(io: Io, blog: Blog, name: string, posts: seq<Post>, done: seq<Action>)
    ensures WriteNode(io, blog, name, FeedNode(posts), done) == Outcome(done, Some(UnknownRender(OutputPath(blog, name))))
  {
  }

  /** The position of the entry Find returns. */
  lemma {:induction false} FindEntry(es: seq<Entry>, name: string) returns (k: nat)
    requires Find(es, name).Some?
    ensures k < |es| && es[k] == Entry(name, Find(es, name).value)
    decreases |es|
  {
    if es[0].name == name {
      k := 0;
    } else {
      var j := FindEntry(es[1..], name);
      k := j + 1;
    }
  }

  /**
   * A built tree is never written out: its root holds the feed, which the writer
   * has no case for, whatever order the root's entries are visited in.
   */
  lemma {:induction false} BuiltTreeNotWritten(io: Io, blog: Blog, posts: seq<Post>, order: seq<Entry>, done: seq<Action>)
    requires CreateRenderTree(io.env, posts).Success?
    requires multiset(order) == multiset(CreateRenderTree(io.env, posts).value.entries)
    ensures WriteEntries(io, blog, order, done).error.Some?
  {
    var root := CreateRenderTree(io.env, posts).value;
    BuiltRoot(io.env, posts);
    var k := FindEntry(root.entries, FeedName);
    assert root.entries[k] in multiset(order);
    var j :| 0 <= j < |order| && order[j] == root.entries[k];
    FeedFailsWrite(io, blog, order, done, j);
  }

  /**
   * WriteStaticBlog never reports success. A scan error and a build error are
   * reported with their stage's prefix and nothing written; after a successful
   * scan and build it is the writing of the tree that fails.
   */
  lemma {:induction false} StaticBlogFails(io: Io, blog: Blog, scan: Scan, createIndex: seq<Post> -> Result<string>)
    ensures var o := WriteStaticBlog(io, blog, scan, createIndex);
            && o.error.Some?
            && (scan.error.Some? ==> o == Outcome([], Some("Get posts: " + scan.error.value)))
            && (scan.error.None? && CreateRenderTree(io.env, scan.posts).Failure? ==>
                  o == Outcome([], Some("Render posts:" + CreateRenderTree(io.env, scan.posts).error)))
            && (scan.error.None? && CreateRenderTree(io.env, scan.posts).Success? ==>
                  exists e :: o.error == Some("Write files: " + e))
  {
    if scan.error.None? && CreateRenderTree(io.env, scan.posts).Success? {
      var root := CreateRenderTree(io.env, scan.posts).value;
      BuiltRoot(io.env, scan.posts);
      BuiltTreeNotWritten(io, blog, scan.posts, root.entries, []);
      var w := WriteTree(io, blog, root, []);
      assert WriteStaticBlog(io, blog, scan, createIndex).error == Some("Write files: " + w.error.value);
    }
  }

  // ---------------------------------------------------------------------------
  // Lemmas: what is written where

  lemma {:induction false} OutputsMono(blog: Blog, a: set<string>, b: set<string>)
    requires a <= b
    ensures Outputs(blog, a) <= Outputs(blog, b)
  {
    forall x | x in Outputs(blog, a)
      ensures x in Outputs(blog, b)
    {
      var k :| k in a && x == OutputPath(blog, k);
      assert k in b;
    }
  }

  lemma {:induction false} WithinMono(actions: seq<Action>, from: nat, a: set<string>, b: set<string>)
    requires from <= |actions| && a <= b && Within(actions, from, a)
    ensures Within(actions, from, b)
  {
  }

  lemma {:induction false} WithinJoin(x: seq<Action>, y: seq<Action>, from: nat, a: set<string>, b: set<string>)
    requires x <= y && from <= |x| && Within(x, from, a) && Within(y, |x|, b)
    ensures Within(y, from, a + b)
  {
    forall j | from <= j < |y|
      ensures y[j].path in a + b
    {
      if j < |x| {
        assert y[j] == x[j];
      }
    }
  }

  /**
   * Every file and directory the writer makes is the output directory joined with
   * a single entry name from the tree: entries of subdirectories are not written
   * inside those subdirectories.
   */
  lemma {:induction false} EntriesWriteFlat(io: Io, blog: Blog, es: seq<Entry>, done: seq<Action>)
    ensures Within(WriteEntries(io, blog, es, done).actions, |done|, Outputs(blog, Names(es)))
    decreases es
  {
    var names := Names(es);
    if es != [] {
      var first := WriteNode(io, blog, es[0].name, es[0].node, done);
      NodeWriteFlat(io, blog, es[0].name, es[0].node, done);
      OutputsMono(blog, {es[0].name} + NodeNames(es[0].node), names);
      WithinMono(first.actions, |done|, Outputs(blog, {es[0].name} + NodeNames(es[0].node)), Outputs(blog, names));
      if first.error.None? {
        var o := WriteEntries(io, blog, es[1..], first.actions);
        EntriesWriteFlat(io, blog, es[1..], first.actions);
        OutputsMono(blog, Names(es[1..]), names);
        WithinMono(o.actions, |first.actions|, Outputs(blog, Names(es[1..])), Outputs(blog, names));
        WithinJoin(first.actions, o.actions, |done|, Outputs(blog, names), Outputs(blog, names));
        assert Outputs(blog, names) + Outputs(blog, names) == Outputs(blog, names);
      }
    }
  }

  lemma {:induction false} NodeWriteFlat(io: Io, blog: Blog, name: string, n: Node, done: seq<Action>)
    ensures Within(WriteNode(io, blog, name, n, done).actions, |done|, Outputs(blog, {name} + NodeNames(n)))
    decreases n
  {
    var p := OutputPath(blog, name);
    var all := Outputs(blog, {name} + NodeNames(n));
    assert p in all;
    var o := WriteNode(io, blog, name, n, done);
    if n.Directory? {
      var made := if io.disk.mkdir(done, p).Made? then done + [MakeDir(p)] else done;
      assert Within(made, |done|, all);
      if !io.disk.mkdir(done, p).MkdirFailed? {
        EntriesWriteFlat(io, blog, n.entries, made);
        OutputsMono(blog, Names(n.entries), {name} + NodeNames(n));
        WithinMono(o.actions, |made|, Outputs(blog, Names(n.entries)), all);
        WithinJoin(made, o.actions, |done|, all, all);
        assert all + all == all;
      }
    } else {
      LeafWriteFlat(io, blog, name, n, done);
      WithinMono(o.actions, |done|, {p}, all);
    }
  }

  /** A post, redirect or feed entry writes at most one file, at its own output path. */
  lemma {:induction false} LeafWriteFlat(io: Io, blog: Blog, name: string, n: Node, done: seq<Action>)
    requires !n.Directory?
    ensures Within(WriteNode(io, blog, name, n, done).actions, |done|, {OutputPath(blog, name)})
  {
  }

  /**
   * A post at depth `d` is rendered with the relative path back to the site root,
   * d - 1 steps of "../", and its page is written at the post's output path.
   */
  lemma {:induction false} WritePostPage(io: Io, blog: Blog, name: string, p: Post, d: nat, done: seq<Action>)
    requires d > 0
    ensures var (post, content) := GetContents(io.env, io.fs, p);
            var o := WriteNode(io, blog, name, PostNode(p, d), done);
            && (content.Failure? ==> o == Outcome(done, Some(content.error)))
            && (content.Success? ==>
                  var html := io.renderPost(post, content.value, Repeat("../", d - 1));
                  && (html.Failure? ==> o == Outcome(done, Some(html.error)))
                  && (html.Success? ==> o == Create(io, done, OutputPath(blog, name), html.value)))
  {
    assert DepthPath(PostNode(p, d)) == Up(d - 1);
  }

  /** A redirect entry that is written holds a page whose target is the redirect's link. */
  lemma {:induction false} WriteRedirectPage(io: Io, blog: Blog, name: string, link: string, done: seq<Action>)
    ensures var o := WriteNode(io, blog, name, RedirectNode(link), done);
            o.error.None? ==>
              && o.actions == done + [WriteFile(OutputPath(blog, name), o.actions[|done|].content)]
              && RedirectTarget(o.actions[|done|].content) == Some(link)
  {
    RedirectRoundTrip(link);
  }
}
