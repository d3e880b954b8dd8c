/**
 * Go's slash-separated `path` package as the blog core uses it: Clean, Join,
 * Base, Ext and Dir, written over segments split at '/'.
 */
module Paths {
  import opened Strs

  /** A segment that Clean leaves alone: not empty, not "." and not "..". */
  predicate Normal(seg: string) {
    seg != "" && seg != "." && seg != ".."
  }

  /**
   * The lexical rules of path.Clean applied left to right to a list of segments:
   * empty and "." segments vanish, ".." removes the preceding ordinary segment, and
   * a ".." that has nothing to remove is dropped in a rooted path and kept otherwise.
   */
  function CleanSegments(segs: seq<string>, stack: seq<string>, rooted: bool): seq<string>
    decreases |segs|
  {
    if segs == [] then stack
    else
      var s := segs[0];
      if s == "" || s == "." then CleanSegments(segs[1..], stack, rooted)
      else if s == ".." then
        if |stack| > 0 && Last(stack) != ".." then CleanSegments(segs[1..], stack[..|stack| - 1], rooted)
        else if rooted then CleanSegments(segs[1..], stack, rooted)
        else CleanSegments(segs[1..], stack + [".."], rooted)
      else CleanSegments(segs[1..], stack + [s], rooted)
  }

  /** path.Clean: the shortest lexically equivalent path; "." for an empty result. */
  function Clean(p: string): (r: string)
    ensures r != ""
  {
    if p == "" then "."
    else
      var rooted := p[0] == '/';
      var body := JoinWith(CleanSegments(Split(p, '/'), [], rooted), '/');
      if rooted then "/" + body
      else if body == "" then "."
      else body
  }

  /** path.Join: skip leading empty elements, join the rest with '/', then Clean. */
  function JoinPaths(elems: seq<string>): string
  {
    if |elems| == 0 then ""
    else if elems[0] == "" then JoinPaths(elems[1..])
    else Clean(JoinWith(elems, '/'))
  }

  predicate OnlySlashes(s: string) {
    forall i :: 0 <= i < |s| ==> s[i] == '/'
  }

  lemma {:induction false} OnlySlashesConcat(a: string, b: string)
    requires OnlySlashes(a) && OnlySlashes(b)
    ensures OnlySlashes(a + b)
  {
    forall k | 0 <= k < |a + b|
      ensures (a + b)[k] == '/'
    {
      if k >= |a| {
        assert (a + b)[k] == b[k - |a|];
      }
    }
  }

  /** The path without its trailing slashes: a prefix followed by slashes only. */
  function TrimTrailingSlashes(p: string): (r: string)
    ensures |r| <= |p| && r == p[..|r|] && OnlySlashes(p[|r|..])
    ensures r == "" || r[|r| - 1] != '/'
  {
    if p != "" && p[|p| - 1] == '/' then
      var r := TrimTrailingSlashes(p[..|p| - 1]);
      assert p[|r|..] == p[..|p| - 1][|r|..] + [p[|p| - 1]];
      r
    else p
  }

  /** path.Base: the last element after trailing slashes are removed. */
  function Base(p: string): string
  {
    if p == "" then "."
    else
      var q := TrimTrailingSlashes(p);
      if q == "" then "/" else AfterLast(q, '/')
  }

  /** path.Ext: the suffix from the final '.' of the last element, or "". */
  function Ext(p: string): (r: string)
    ensures HasSuffix(p, r)
  {
    if p == "" || p[|p| - 1] == '/' then ""
    else if p[|p| - 1] == '.' then "."
    else
      var e := Ext(p[..|p| - 1]);
      if e == "" then ""
      else
        assert p == p[..|p| - 1] + [p[|p| - 1]];
        e + [p[|p| - 1]]
  }

  /** path.Dir: everything up to the last '/', cleaned. */
  function Dir(p: string): string
  {
    var file := AfterLast(p, '/');
    Clean(p[..|p| - |file|])
  }

  // ---------------------------------------------------------------------------
  // Lemmas

  lemma {:induction false} CleanSegmentsAppend(a: seq<string>, b: seq<string>, stack: seq<string>, rooted: bool)
    ensures CleanSegments(a + b, stack, rooted) == CleanSegments(b, CleanSegments(a, stack, rooted), rooted)
    decreases |a|
  {
    if a != [] {
      assert (a + b)[1..] == a[1..] + b;
      var s := a[0];
      if s == "" || s == "." {
        CleanSegmentsAppend(a[1..], b, stack, rooted);
      } else if s == ".." {
        if |stack| > 0 && Last(stack) != ".." {
          CleanSegmentsAppend(a[1..], b, stack[..|stack| - 1], rooted);
        } else if rooted {
          CleanSegmentsAppend(a[1..], b, stack, rooted);
        } else {
          CleanSegmentsAppend(a[1..], b, stack + [".."], rooted);
        }
      } else {
        CleanSegmentsAppend(a[1..], b, stack + [s], rooted);
      }
    } else {
      assert a + b == b;
    }
  }

  lemma {:induction false} CleanSegmentsOfNormal(segs: seq<string>, stack: seq<string>, rooted: bool)
    requires forall i :: 0 <= i < |segs| ==> Normal(segs[i])
    ensures CleanSegments(segs, stack, rooted) == stack + segs
    decreases |segs|
  {
    if segs != [] {
      CleanSegmentsOfNormal(segs[1..], stack + [segs[0]], rooted);
      assert stack + [segs[0]] + segs[1..] == stack + segs;
    }
  }

  /** Clean never introduces a '/' inside a segment. */
  lemma {:induction false} CleanSegmentsSlashFree(segs: seq<string>, stack: seq<string>, rooted: bool)
    requires forall i :: 0 <= i < |segs| ==> '/' !in segs[i]
    requires forall i :: 0 <= i < |stack| ==> '/' !in stack[i]
    ensures forall i :: 0 <= i < |CleanSegments(segs, stack, rooted)| ==> '/' !in CleanSegments(segs, stack, rooted)[i]
    decreases |segs|
  {
    if segs != [] {
      var s := segs[0];
      if s == "" || s == "." {
        CleanSegmentsSlashFree(segs[1..], stack, rooted);
      } else if s == ".." {
        if |stack| > 0 && Last(stack) != ".." {
          CleanSegmentsSlashFree(segs[1..], stack[..|stack| - 1], rooted);
        } else if rooted {
          CleanSegmentsSlashFree(segs[1..], stack, rooted);
        } else {
          CleanSegmentsSlashFree(segs[1..], stack + [".."], rooted);
        }
      } else {
        CleanSegmentsSlashFree(segs[1..], stack + [s], rooted);
      }
    }
  }

  lemma {:induction false} JoinWithSnoc(parts: seq<string>, x: string, sep: char)
    requires |parts| > 0
    ensures JoinWith(parts + [x], sep) == JoinWith(parts, sep) + [sep] + x
    decreases |parts|
  {
    if |parts| > 1 {
      assert (parts + [x])[1..] == parts[1..] + [x];
      JoinWithSnoc(parts[1..], x, sep);
    }
  }

  /** A relative path made of normal segments is already clean. */
  lemma {:induction false} CleanOfNormalPath(p: string)
    requires p != "" && p[0] != '/'
    requires forall i :: 0 <= i < |Split(p, '/')| ==> Normal(Split(p, '/')[i])
    ensures Clean(p) == p
  {
    CleanSegmentsOfNormal(Split(p, '/'), [], false);
    assert [] + Split(p, '/') == Split(p, '/');
  }

  /** Clean keeps a normal final segment as the final segment. */
  lemma {:induction false} CleanKeepsNormalLast(p: string)
    requires p != ""
    requires Normal(Last(Split(p, '/')))
    ensures Last(Split(Clean(p), '/')) == Last(Split(p, '/'))
  {
    var segs := Split(p, '/');
    var x := Last(segs);
    var rooted := p[0] == '/';
    FrontAndLast(segs, x);
    CleanSegmentsAppend(segs[..|segs| - 1], [x], [], rooted);
    var front := CleanSegments(segs[..|segs| - 1], [], rooted);
    assert CleanSegments([x], front, rooted) == front + [x];
    var kept := front + [x];
    assert CleanSegments(segs, [], rooted) == kept;
    CleanSegmentsSlashFree(segs, [], rooted);
    var body := JoinWith(kept, '/');
    SplitJoin(kept, '/');
    assert Split(body, '/') == kept;
    JoinNonEmpty(front, x);
    if rooted {
      assert Clean(p) == "/" + body;
      assert Clean(p) == "" + ['/'] + body;
      SplitAppendFront(body);
    } else {
      assert Clean(p) == body;
    }
  }

  /** Joining pieces whose last one is not empty gives a non-empty string. */
  lemma {:induction false} JoinNonEmpty(front: seq<string>, x: string)
    requires x != ""
    ensures JoinWith(front + [x], '/') != ""
  {
    if |front| == 0 {
      assert front + [x] == [x];
    } else {
      JoinWithSnoc(front, x, '/');
    }
  }

  lemma {:induction false} SplitAppendFront(body: string)
    ensures Last(Split("" + ['/'] + body, '/')) == Last(Split(body, '/'))
  {
    var s := "" + ['/'] + body;
    FirstIndexAfter("", '/', body);
    SplitAt(s, '/', 0);
    assert s[1..] == body;
    LastOfCons(s[..0], Split(body, '/'));
  }

  /** The final segment of a split path is a suffix of it. */
  lemma {:induction false} LastSegmentIsSuffix(p: string)
    ensures HasSuffix(p, Last(Split(p, '/')))
  {
    LastSplitIsAfterLast(p, '/');
  }

  /** For a path that does not end in '/', Base is the final segment of the split. */
  lemma {:induction false} BaseIsLastSegment(p: string)
    requires p != "" && p[|p| - 1] != '/'
    ensures Base(p) == Last(Split(p, '/'))
  {
    assert TrimTrailingSlashes(p) == p;
    LastSplitIsAfterLast(p, '/');
  }

  /** The pieces of such a path are the directory pieces followed by Base. */
  lemma {:induction false} SplitDirsAndBase(p: string)
    requires p != "" && p[|p| - 1] != '/'
    ensures var parts := Split(p, '/');
            parts[..|parts| - 1] + [Base(p)] == parts
  {
    BaseIsLastSegment(p);
    FrontAndLast(Split(p, '/'), Base(p));
  }

  /** Joining a directory and a normal name ends with that name as the final segment. */
  lemma {:induction false} JoinEndsWithName(dir: string, name: string)
    requires Normal(name) && '/' !in name
    ensures Last(Split(JoinPaths([dir, name]), '/')) == name
  {
    if dir == "" {
      assert JoinPaths([dir, name]) == JoinPaths([name]);
      assert JoinWith([name], '/') == name;
      assert Split(name, '/') == [name];
      CleanKeepsNormalLast(name);
    } else {
      var joined := dir + ['/'] + name;
      assert JoinWith([dir, name], '/') == joined;
      SplitAppend(dir, '/', name);
      CleanKeepsNormalLast(joined);
    }
  }

  /** path.Base of a directory prefix followed by a name is that name. */
  lemma {:induction false} BaseOfDirAndName(dir: string, name: string)
    requires dir == "" || dir[|dir| - 1] == '/'
    requires name != "" && '/' !in name
    ensures Base(dir + name) == name
  {
    var p := dir + name;
    LastOfDirAndName(dir, name, p);
    NoTrailingSlash(p);
    AfterLastOfDirAndName(dir, name, p);
  }

  lemma {:induction false} LastOfDirAndName(dir: string, name: string, p: string)
    requires name != "" && '/' !in name && p == dir + name
    ensures p != "" && p[|p| - 1] != '/'
  {
    assert p[|p| - 1] == name[|name| - 1];
  }

  lemma {:induction false} NoTrailingSlash(p: string)
    requires p != "" && p[|p| - 1] != '/'
    ensures TrimTrailingSlashes(p) == p
  {
  }

  lemma {:induction false} AfterLastOfDirAndName(dir: string, name: string, p: string)
    requires dir == "" || dir[|dir| - 1] == '/'
    requires '/' !in name && p == dir + name
    ensures AfterLast(p, '/') == name
  {
    if dir == "" {
      assert p == name;
      AfterLastNone(name, '/');
    } else {
      var front := dir[..|dir| - 1];
      DirSlashSplit(dir, front, name, p);
      LastSplitIsAfterLast(p, '/');
      AfterDirSlash(front, name, p);
    }
  }

  lemma {:induction false} DirSlashSplit(dir: string, front: string, name: string, p: string)
    requires dir != "" && dir[|dir| - 1] == '/' && front == dir[..|dir| - 1] && p == dir + name
    ensures p == front + "/" + name
  {
    assert dir == front + "/";
  }

  lemma {:induction false} AfterDirSlash(front: string, name: string, p: string)
    requires '/' !in name && p == front + "/" + name
    ensures Last(Split(p, '/')) == name
  {
    SplitAppend(front, '/', name);
  }

  /** path.Ext of a name whose final '.' is followed by `ext`. */
  lemma {:induction false} ExtOfDotted(stem: string, ext: string)
    requires '.' !in ext && '/' !in ext
    ensures Ext(stem + "." + ext) == "." + ext
    decreases |ext|
  {
    var p := stem + "." + ext;
    if ext != "" {
      var front := ext[..|ext| - 1];
      ExtOfDotted(stem, front);
      assert p[..|p| - 1] == stem + "." + front;
      assert p[|p| - 1] == ext[|ext| - 1];
      assert "." + front + [ext[|ext| - 1]] == "." + ext;
    }
  }

  /** A name without '.' has no extension. */
  lemma {:induction false} ExtOfDotless(name: string)
    requires '.' !in name
    ensures Ext(name) == ""
    decreases |name|
  {
    if name != "" {
      ExtOfDotless(name[..|name| - 1]);
    }
  }
}
