/**
 * post.go: a post's front-matter, its file reading modes, the checksum used to
 * detect stale posts, the URL derived from the metadata, and the sort order.
 *
 * A file is its full text; reading it goes through a `Reader` holding an offset,
 * so that a checksum taken from an already-consumed reader is modelled as the
 * source computes it.
 */
module Posts {
  import opened Wrappers
  import opened Strs
  import Paths

  /** An MD5 sum is always sixteen bytes. */
  type Digest = s: seq<bv8> | |s| == 16 witness seq(16, i => 0 as bv8)

  type Month = m: int | 1 <= m <= 12 witness 1

  /** A date as time.Parse yields it for the date-only layouts (midnight, UTC). */
  datatype Date = Date(year: int, month: Month, day: int)

  /** Go's zero time.Time: January 1 of year 1. */
  const ZeroDate: Date := Date(1, 1, 1)

  predicate IsZero(d: Date) {
    d == ZeroDate
  }

  /** time.Time.Before for two midnight-UTC instants. */
  predicate Before(a: Date, b: Date) {
    a.year < b.year
    || (a.year == b.year && a.month < b.month)
    || (a.year == b.year && a.month == b.month && a.day < b.day)
  }

  /**
   * The library calls post.go depends on: the MD5 digest of a text and
   * time.Parse(layout, input), which yields no value when the input does not match.
   */
  datatype Env = Env(md5: string -> Digest, timeParse: (string, string) -> Option<Date>)

  /** The layouts parseDate tries, in order. */
  const DateLayouts: seq<string> := ["2006-01-02", "_2 January 2006", "January _2, 2006", "January _2 2006"]

  function TryLayouts(env: Env, layouts: seq<string>, input: string): Date
  {
    if layouts == [] then ZeroDate
    else match env.timeParse(layouts[0], input)
      case Some(d) => d
      case None => TryLayouts(env, layouts[1..], input)
  }

  /** parseDate: the first layout that accepts the input, or the zero time. */
  function ParseDate(env: Env, input: string): Date
  {
    if input == "" then ZeroDate else TryLayouts(env, DateLayouts, input)
  }

  /**
   * A post. `dateParsed` caches the date CreateURL last parsed; `checksum` is nil
   * until the file has been read once.
   */
  datatype Post = Post(
    filename: string,
    title: string,
    urlFragment: string,
    date: string,
    dateParsed: Date,
    checksum: Option<Digest>)

  /** The post NewPostFromPath starts from: only the file name is set. */
  function BlankPost(filename: string): Post {
    Post(filename, "", "", "", ZeroDate, None)
  }

  /** File contents by path; a path that is absent cannot be opened. */
  type FileSystem = map<string, string>

  /**
   * What GetPostsInDirectory returns: the posts found so far and an error, if any.
   * The directory walk itself is not part of this model.
   */
  datatype Scan = Scan(posts: seq<Post>, error: Option<string>)

  function OpenError(path: string): string {
    "open " + path + ": no such file or directory"
  }

  const ChecksumError: string := "Could not checksum blog post"

  // ---------------------------------------------------------------------------
  // Metadata lines

  /** A line that starts with the two-character marker "~~". */
  predicate IsMetaLine(line: string) {
    |line| >= 2 && line[..2] == "~~"
  }

  /**
   * parseMetadataLine: for a "~~" line holding a ':', the lower-cased trimmed text
   * before the first ':' names the field and the trimmed rest is its value; only
   * "title", "url" and "date" are recorded.
   */
  function ParseMetadataLine(p: Post, line: string): (r: Post)
    ensures r.filename == p.filename && r.checksum == p.checksum && r.dateParsed == p.dateParsed
    ensures !IsMetaLine(line) || ':' !in line[2..] ==> r == p
    ensures r.title != p.title ==> r.urlFragment == p.urlFragment && r.date == p.date
    ensures r.urlFragment != p.urlFragment ==> r.title == p.title && r.date == p.date
  {
    if !IsMetaLine(line) then p
    else
      var rest := line[2..];
      if ':' !in rest then p
      else
        var i := FirstIndex(rest, ':');
        var key := ToLower(TrimSpace(rest[..i]));
        var val := TrimSpace(rest[i + 1..]);
        if key == "title" then p.(title := val)
        else if key == "url" then p.(urlFragment := val)
        else if key == "date" then p.(date := val)
        else p
  }

  /** Every line applied in order, each later one overwriting what it sets. */
  function ApplyAll(p: Post, lines: seq<string>): Post
    decreases |lines|
  {
    if lines == [] then p else ApplyAll(ParseMetadataLine(p, lines[0]), lines[1..])
  }

  /** The run of metadata lines at the start of `lines`. */
  function LeadingMeta(lines: seq<string>): (r: seq<string>)
    ensures r <= lines
    ensures forall i :: 0 <= i < |r| ==> IsMetaLine(r[i])
    ensures |r| < |lines| ==> !IsMetaLine(lines[|r|])
  {
    if lines == [] || !IsMetaLine(lines[0]) then []
    else [lines[0]] + LeadingMeta(lines[1..])
  }

  // ---------------------------------------------------------------------------
  // Reading a file

  /** An open file: its text and the offset of the next byte to read. */
  datatype Reader = Reader(text: string, pos: nat)

  /** The lines of `text`, each keeping its '\n'; the last piece is what follows the final '\n'. */
  function Lines(text: string): (ls: seq<string>)
    ensures |ls| >= 1
    decreases |text|
  {
    if '\n' !in text then [text]
    else
      var i := FirstIndex(text, '\n');
      [text[..i + 1]] + Lines(text[i + 1..])
  }

  function Concat(ls: seq<string>): string
  {
    if ls == [] then "" else ls[0] + Concat(ls[1..])
  }

  /** The lines that are not metadata, concatenated in order. */
  function Body(ls: seq<string>): string
  {
    if ls == [] then ""
    else (if IsMetaLine(ls[0]) then "" else ls[0]) + Body(ls[1..])
  }

  /** bufio.Reader.ReadString('\n'): the next line with its '\n', or the rest at end of file. */
  function ReadLine(text: string, pos: nat): (r: (string, bool, nat))
    requires pos <= |text|
    ensures pos <= r.2 <= |text| && r.0 == text[pos..r.2]
    ensures r.1 ==> r.2 == |text| && '\n' !in r.0
    ensures !r.1 ==> pos < r.2 && r.0[|r.0| - 1] == '\n' && '\n' !in r.0[..|r.0| - 1]
  {
    var rest := text[pos..];
    if '\n' !in rest then (rest, true, |text|)
    else
      var i := FirstIndex(rest, '\n');
      (rest[..i + 1], false, pos + i + 1)
  }

  /** computeChecksum: digest everything left in the reader and leave it at the end. */
  function ComputeChecksum(env: Env, r: Reader): (Digest, Reader)
    requires r.pos <= |r.text|
  {
    (env.md5(r.text[r.pos..]), Reader(r.text, |r.text|))
  }

  /** isUpToDateInternal: a nil checksum is never current and is decided without reading. */
  function IsUpToDateInternal(env: Env, p: Post, rd: Reader): (r: (bool, Reader))
    requires rd.pos <= |rd.text|
    ensures r.1.text == rd.text && r.1.pos <= |rd.text|
    ensures r.0 <==> p.checksum == Some(env.md5(rd.text[rd.pos..]))
    ensures p.checksum.None? ==> r.1 == rd
  {
    if p.checksum.None? then (false, rd)
    else
      var (sum, rd') := ComputeChecksum(env, rd);
      (p.checksum.value == sum, rd')
  }

  datatype ParseMode = Lazily | ReloadMetadata | Contents

  /**
   * The read loop of parse, from offset `pos`: metadata lines are applied, the first
   * other line ends a metadata reload, and every other line is appended to `acc`.
   */
  function ReadLoop(text: string, pos: nat, mode: ParseMode, p: Post, acc: string): (Post, Result<string>)
    requires pos <= |text|
    decreases |text| - pos
  {
    var (line, eof, next) := ReadLine(text, pos);
    if IsMetaLine(line) then ReadLoop(text, next, mode, ParseMetadataLine(p, line), acc)
    else if mode == ReloadMetadata then (p, Success(""))
    else if eof then (p, Success(acc + line))
    else ReadLoop(text, next, mode, p, acc + line)
  }

  /**
   * parse: open the file; in lazy mode stop if the post is current; otherwise store
   * the checksum of what the reader still holds, rewind, and run the read loop.
   */
  function Parse(env: Env, fs: FileSystem, p: Post, mode: ParseMode): (Post, Result<string>)
  {
    if p.filename !in fs then (p, Failure(OpenError(p.filename)))
    else
      var r0 := Reader(fs[p.filename], 0);
      var (current, r1) := if mode == Lazily then IsUpToDateInternal(env, p, r0) else (false, r0);
      if mode == Lazily && current then (p, Success(""))
      else
        var (sum, _) := ComputeChecksum(env, r1);
        ReadLoop(r1.text, 0, mode, p.(checksum := Some(sum)), "")
  }

  /** GetContents: the post body with metadata lines removed, reloading the metadata. */
  function GetContents(env: Env, fs: FileSystem, p: Post): (Post, Result<string>)
  {
    Parse(env, fs, p, Contents)
  }

  /** UpdateMetadata: a lazy parse whose returned contents are discarded. */
  function UpdateMetadata(env: Env, fs: FileSystem, p: Post): Post
  {
    Parse(env, fs, p, Lazily).0
  }

  /** NewPostFromPath: load a post, failing when no checksum could be taken. */
  function NewPostFromPath(env: Env, fs: FileSystem, path: string): (r: Result<Post>)
    ensures r.Success? <==> path in fs
    ensures r.Failure? ==> r.error == ChecksumError
    ensures r.Success? ==> r.value.filename == path && r.value.checksum == Some(env.md5(fs[path]))
  {
    var p := UpdateMetadata(env, fs, BlankPost(path));
    LoadedChecksum(env, fs, path);
    if p.checksum.None? then Failure(ChecksumError) else Success(p)
  }

  /** IsUpToDate: the stored checksum is set and equals the digest of the file as it is now. */
  function IsUpToDate(env: Env, fs: FileSystem, p: Post): (b: bool)
    ensures b <==> p.filename in fs && p.checksum == Some(env.md5(fs[p.filename]))
  {
    p.filename in fs && IsUpToDateInternal(env, p, Reader(fs[p.filename], 0)).0
  }

  // ---------------------------------------------------------------------------
  // URLs

  predicate IsWordChar(c: char) {
    ('A' <= c <= 'Z') || ('a' <= c <= 'z') || ('0' <= c <= '9') || c == '_'
  }

  /** Replace every character outside [A-Za-z0-9_] by '_'. */
  function ReplaceNonWord(s: string): (r: string)
    ensures |r| == |s|
    ensures forall i :: 0 <= i < |s| ==> r[i] == (if IsWordChar(s[i]) then s[i] else '_')
  {
    if s == "" then "" else [if IsWordChar(s[0]) then s[0] else '_'] + ReplaceNonWord(s[1..])
  }

  /** `s` without its leading run of '_': a suffix of `s` that is empty only when `s` is all '_'. */
  function DropUnderscores(s: string): (r: string)
    ensures |r| <= |s| && r == s[|s| - |r|..]
    ensures r == "" || r[0] != '_'
    ensures r == "" ==> forall i :: 0 <= i < |s| ==> s[i] == '_'
  {
    if s != "" && s[0] == '_' then DropUnderscores(s[1..]) else s
  }

  /** The characters of `s` other than '_', in order. */
  function Letters(s: string): string
  {
    if s == "" then "" else (if s[0] == '_' then "" else [s[0]]) + Letters(s[1..])
  }

  lemma {:induction false} LettersCons(c: char, t: string)
    ensures Letters([c] + t) == (if c == '_' then "" else [c]) + Letters(t)
  {
    assert ([c] + t)[1..] == t;
  }

  lemma {:induction false} DropLetters(s: string)
    ensures Letters(DropUnderscores(s)) == Letters(s)
    decreases |s|
  {
    if s != "" && s[0] == '_' {
      DropLetters(s[1..]);
      LettersCons(s[0], s[1..]);
      assert s == [s[0]] + s[1..];
    }
  }

  /** Every run of '_' becomes a single '_' (the `_{1,}` rewrite). */
  function CollapseUnderscores(s: string): (r: string)
    ensures forall i :: 0 <= i < |r| - 1 ==> !(r[i] == '_' && r[i + 1] == '_')
    ensures r == "" <==> s == ""
    ensures r != "" ==> (r[0] == '_' <==> s[0] == '_')
    ensures forall i :: 0 <= i < |r| ==> r[i] in s
    decreases |s|
  {
    if s == "" then ""
    else if s[0] == '_' then
      var rest := CollapseUnderscores(DropUnderscores(s[1..]));
      DropUnderscoresSub(s[1..]);
      "_" + rest
    else [s[0]] + CollapseUnderscores(s[1..])
  }

  /**
   * Collapsing keeps every character other than '_' in order, and the result ends
   * in '_' exactly when the input does.
   */
  lemma {:induction false} CollapseKeepsLetters(s: string)
    ensures Letters(CollapseUnderscores(s)) == Letters(s)
    ensures var r := CollapseUnderscores(s); r != "" ==> (r[|r| - 1] == '_' <==> s[|s| - 1] == '_')
    decreases |s|
  {
    if s != "" {
      assert s == [s[0]] + s[1..];
      LettersCons(s[0], s[1..]);
      if s[0] == '_' {
        var t := DropUnderscores(s[1..]);
        var rest := CollapseUnderscores(t);
        CollapseKeepsLetters(t);
        DropLetters(s[1..]);
        LettersCons('_', rest);
        assert CollapseUnderscores(s) == ['_'] + rest;
        if t != "" {
          assert t[|t| - 1] == s[|s| - 1];
        }
      } else {
        var rest := CollapseUnderscores(s[1..]);
        CollapseKeepsLetters(s[1..]);
        LettersCons(s[0], rest);
        assert CollapseUnderscores(s) == [s[0]] + rest;
      }
    }
  }

  /**
   * A reference reading of `_{1,}` → `_`, scanning left to right: a '_' is dropped
   * exactly when the character kept before it was a '_' too.
   */
  function CollapseFrom(s: string, afterUnderscore: bool): string
  {
    if s == "" then ""
    else if s[0] == '_' && afterUnderscore then CollapseFrom(s[1..], true)
    else [s[0]] + CollapseFrom(s[1..], s[0] == '_')
  }

  /** The run-based rewrite agrees with the left-to-right reference. */
  lemma {:induction false} CollapseMatchesReference(s: string)
    ensures CollapseUnderscores(s) == CollapseFrom(s, false)
    ensures CollapseFrom(s, true) == CollapseFrom(DropUnderscores(s), false)
    decreases |s|
  {
    if s != "" {
      CollapseMatchesReference(s[1..]);
      if s[0] == '_' {
        var t := DropUnderscores(s[1..]);
        CollapseMatchesReference(t);
      }
    }
  }

  lemma {:induction false} DropUnderscoresSub(s: string)
    ensures forall c :: c in DropUnderscores(s) ==> c in s
  {
    if s != "" && s[0] == '_' {
      DropUnderscoresSub(s[1..]);
    }
  }

  /** The slug of a title: non-word characters become '_', runs of '_' collapse. */
  function Slug(title: string): string
  {
    CollapseUnderscores(ReplaceNonWord(title))
  }

  /** The file name of the post without directory and extension. */
  function FileStem(filename: string): string
  {
    var b := Paths.Base(filename);
    b[..|b| - |Paths.Ext(b)|]
  }

  /** The URL basename: the fragment, else the slug of the title, else the file stem. */
  function BaseName(p: Post): (r: string)
    ensures p.urlFragment != "" ==> r == p.urlFragment
    ensures p.urlFragment == "" && p.title != "" ==> r == Slug(p.title)
    ensures p.urlFragment == "" && p.title == "" ==> r == FileStem(p.filename)
  {
    if p.urlFragment != "" then p.urlFragment
    else if p.title != "" then Slug(p.title)
    else FileStem(p.filename)
  }

  /** The leaf file name: lower-cased basename, one trailing '_' dropped or "index" after a trailing '/', then ".html". */
  function Leaf(p: Post): (r: string)
    ensures HasSuffix(r, ".html")
  {
    FinishLeaf(ToLower(BaseName(p)))
  }

  /** The suffix rules applied to a lower-cased basename. */
  function FinishLeaf(b: string): (r: string)
    ensures HasSuffix(r, ".html")
  {
    var b' := if HasSuffix(b, "_") then b[..|b| - 1] else if HasSuffix(b, "/") then b + "index" else b;
    b' + ".html"
  }

  /** True when the post's date string parses to a non-zero date. */
  predicate Dated(env: Env, p: Post) {
    !IsZero(ParseDate(env, p.date))
  }

  /** CreateURL: the leaf, under "year/month/" when the date parses. */
  function CreateURL(env: Env, p: Post): string
  {
    var d := ParseDate(env, p.date);
    if !IsZero(d) then Paths.JoinPaths([IntToString(d.year), NatToString(d.month), Leaf(p)])
    else Leaf(p)
  }

  /** The side effect of CreateURL: the parsed date is cached in the post. */
  function CacheDate(env: Env, p: Post): Post
  {
    p.(dateParsed := ParseDate(env, p.date))
  }

  /** CreatePermalink: the blog URL, a '/' unless it already ends in one, then the post URL. */
  function CreatePermalink(env: Env, p: Post, blogURL: string): (r: string)
    ensures HasSuffix(r, CreateURL(env, p))
    ensures var base := r[..|r| - |CreateURL(env, p)|];
            HasSuffix(base, "/") && (base == blogURL || base == blogURL + "/")
            && (HasSuffix(blogURL, "/") ==> base == blogURL)
  {
    var base := if HasSuffix(blogURL, "/") then blogURL else blogURL + "/";
    var r := base + CreateURL(env, p);
    assert r[..|r| - |CreateURL(env, p)|] == base;
    r
  }

  /** GetDate: nil for an empty date string, otherwise the cached parsed date. */
  function GetDate(p: Post): Option<Date>
  {
    if p.date == "" then None else Some(p.dateParsed)
  }

  /** PostList.Less: by date when both posts are dated, otherwise by URL. */
  predicate Less(env: Env, a: Post, b: Post) {
    var da := ParseDate(env, a.date);
    var db := ParseDate(env, b.date);
    if !IsZero(da) && !IsZero(db) then Before(da, db)
    else StrLess(CreateURL(env, a), CreateURL(env, b))
  }

  // ---------------------------------------------------------------------------
  // Lemmas: reading and parsing

  lemma {:induction false} ConcatLines(text: string)
    ensures Concat(Lines(text)) == text
    decreases |text|
  {
    if '\n' in text {
      var i := FirstIndex(text, '\n');
      ConcatLines(text[i + 1..]);
      assert text == text[..i + 1] + text[i + 1..];
    }
  }

  /** The line ReadString returns at `pos` is the first of the remaining lines. */
  lemma {:induction false} ReadLineIsFirstLine(text: string, pos: nat)
    requires pos <= |text|
    ensures var (line, eof, next) := ReadLine(text, pos);
            if eof then Lines(text[pos..]) == [line]
            else Lines(text[pos..]) == [line] + Lines(text[next..])
  {
    var rest := text[pos..];
    var r := ReadLine(text, pos);
    if '\n' in rest {
      var i := FirstIndex(rest, '\n');
      assert r == (rest[..i + 1], false, pos + i + 1);
      LinesAt(rest, i);
      assert rest[i + 1..] == text[pos + i + 1..];
    } else {
      assert r == (rest, true, |text|);
      assert Lines(rest) == [rest];
    }
  }

  /** One step of Lines: the first line with its '\n', then the lines after it. */
  lemma {:induction false} LinesAt(text: string, i: nat)
    requires '\n' in text && i == FirstIndex(text, '\n')
    ensures Lines(text) == [text[..i + 1]] + Lines(text[i + 1..])
  {
    LinesStep(text);
  }

  lemma {:induction false} LinesStep(text: string)
    requires '\n' in text
    ensures var j := FirstIndex(text, '\n'); Lines(text) == [text[..j + 1]] + Lines(text[j + 1..])
  {
  }

  lemma {:induction false} MetadataLineOfEmpty(p: Post)
    ensures ParseMetadataLine(p, "") == p
  {
  }

  /** The read loop outside reload mode applies every line and collects the body. */
  lemma {:induction false} ReadLoopFull(text: string, pos: nat, mode: ParseMode, p: Post, acc: string)
    requires pos <= |text| && mode != ReloadMetadata
    ensures ReadLoop(text, pos, mode, p, acc)
         == (ApplyAll(p, Lines(text[pos..])), Success(acc + Body(Lines(text[pos..]))))
    decreases |text| - pos
  {
    var (line, eof, next) := ReadLine(text, pos);
    ReadLineIsFirstLine(text, pos);
    if IsMetaLine(line) {
      var p' := ParseMetadataLine(p, line);
      ReadLoopFull(text, next, mode, p', acc);
      if eof {
        MetaAtEnd(text, pos, p, line);
      } else {
        MetaInside(text, pos, next, p, line);
      }
    } else if eof {
      PlainAtEnd(text, pos, p, line);
    } else {
      ReadLoopFull(text, next, mode, p, acc + line);
      PlainInside(text, pos, next, p, line, acc);
    }
  }

  lemma {:induction false} MetaAtEnd(text: string, pos: nat, p: Post, line: string)
    requires pos <= |text| && IsMetaLine(line) && Lines(text[pos..]) == [line]
    ensures ApplyAll(ParseMetadataLine(p, line), Lines(text[|text|..])) == ApplyAll(p, Lines(text[pos..]))
    ensures Body(Lines(text[|text|..])) == Body(Lines(text[pos..]))
  {
    assert text[|text|..] == "";
    assert Lines("") == [""];
    assert ApplyAll(ParseMetadataLine(p, line), [""]) == ParseMetadataLine(p, line);
    assert Body([""]) == "";
    assert Body([line]) == "" + Body([]);
  }

  lemma {:induction false} MetaInside(text: string, pos: nat, next: nat, p: Post, line: string)
    requires pos <= next <= |text| && IsMetaLine(line) && Lines(text[pos..]) == [line] + Lines(text[next..])
    ensures ApplyAll(ParseMetadataLine(p, line), Lines(text[next..])) == ApplyAll(p, Lines(text[pos..]))
    ensures Body(Lines(text[next..])) == Body(Lines(text[pos..]))
  {
    var ls := Lines(text[pos..]);
    assert ls[1..] == Lines(text[next..]);
  }

  lemma {:induction false} PlainAtEnd(text: string, pos: nat, p: Post, line: string)
    requires pos <= |text| && !IsMetaLine(line) && Lines(text[pos..]) == [line]
    ensures ApplyAll(p, Lines(text[pos..])) == p
    ensures Body(Lines(text[pos..])) == line
  {
    assert ApplyAll(p, [line]) == ApplyAll(ParseMetadataLine(p, line), []);
    assert Body([line]) == line + Body([]);
  }

  lemma {:induction false} PlainInside(text: string, pos: nat, next: nat, p: Post, line: string, acc: string)
    requires pos <= next <= |text| && !IsMetaLine(line) && Lines(text[pos..]) == [line] + Lines(text[next..])
    ensures ApplyAll(p, Lines(text[next..])) == ApplyAll(p, Lines(text[pos..]))
    ensures acc + line + Body(Lines(text[next..])) == acc + Body(Lines(text[pos..]))
  {
    var ls := Lines(text[pos..]);
    assert ls[1..] == Lines(text[next..]);
    assert Body(ls) == line + Body(ls[1..]);
  }

  /** In reload mode the loop applies only the leading metadata lines and returns no contents. */
  lemma {:induction false} ReadLoopReload(text: string, pos: nat, p: Post, acc: string)
    requires pos <= |text|
    ensures ReadLoop(text, pos, ReloadMetadata, p, acc)
         == (ApplyAll(p, LeadingMeta(Lines(text[pos..]))), Success(""))
    decreases |text| - pos
  {
    var (line, eof, next) := ReadLine(text, pos);
    ReadLineIsFirstLine(text, pos);
    var ls := Lines(text[pos..]);
    if IsMetaLine(line) {
      var p' := ParseMetadataLine(p, line);
      ReadLoopReload(text, next, p', acc);
      if eof {
        assert text[next..] == "";
        assert Lines("") == [""];
        assert LeadingMeta([""]) == [];
        assert LeadingMeta(ls) == [line];
        assert ApplyAll(p, [line]) == ApplyAll(p', []);
      } else {
        assert ls[1..] == Lines(text[next..]);
        assert LeadingMeta(ls) == [line] + LeadingMeta(ls[1..]);
      }
    } else {
      assert LeadingMeta(ls) == [];
    }
  }

  /** A successful open in contents mode: checksum of the whole file, every metadata line applied, body without metadata lines. */
  lemma {:induction false} ParseContents(env: Env, fs: FileSystem, p: Post)
    requires p.filename in fs
    ensures Parse(env, fs, p, Contents)
         == (ApplyAll(p.(checksum := Some(env.md5(fs[p.filename]))), Lines(fs[p.filename])),
             Success(Body(Lines(fs[p.filename]))))
  {
    var text := fs[p.filename];
    assert text[0..] == text;
    assert ComputeChecksum(env, Reader(text, 0)).0 == env.md5(text);
    assert Parse(env, fs, p, Contents) == ReadLoop(text, 0, Contents, p.(checksum := Some(env.md5(text))), "");
    ReadLoopFull(text, 0, Contents, p.(checksum := Some(env.md5(text))), "");
    assert "" + Body(Lines(text)) == Body(Lines(text));
  }

  /** Reload mode: only the leading run of metadata lines is applied and nothing is returned. */
  lemma {:induction false} ParseReload(env: Env, fs: FileSystem, p: Post)
    requires p.filename in fs
    ensures Parse(env, fs, p, ReloadMetadata)
         == (ApplyAll(p.(checksum := Some(env.md5(fs[p.filename]))), LeadingMeta(Lines(fs[p.filename]))),
             Success(""))
  {
    var text := fs[p.filename];
    assert text[0..] == text;
    ReadLoopReload(text, 0, p.(checksum := Some(env.md5(text))), "");
  }

  /** Lazy mode on a post whose checksum matches the file leaves the post exactly as it was. */
  lemma {:induction false} LazyParseCurrentIsNoOp(env: Env, fs: FileSystem, p: Post)
    requires p.filename in fs && p.checksum == Some(env.md5(fs[p.filename]))
    ensures Parse(env, fs, p, Lazily) == (p, Success(""))
  {
    assert fs[p.filename][0..] == fs[p.filename];
  }

  /** Lazy mode on a post never loaded: as a full parse, keeping the body too. */
  lemma {:induction false} LazyParseFirstLoad(env: Env, fs: FileSystem, p: Post)
    requires p.filename in fs && p.checksum.None?
    ensures Parse(env, fs, p, Lazily) == Parse(env, fs, p, Contents)
  {
    var text := fs[p.filename];
    assert text[0..] == text;
    ReadLoopFull(text, 0, Lazily, p.(checksum := Some(env.md5(text))), "");
    ReadLoopFull(text, 0, Contents, p.(checksum := Some(env.md5(text))), "");
  }

  /**
   * Lazy mode on a stale post: the staleness test already consumed the reader, so the
   * stored checksum is the digest of the empty text, not of the file.
   */
  lemma {:induction false} LazyParseStaleStoresEmptyDigest(env: Env, fs: FileSystem, p: Post)
    requires p.filename in fs && p.checksum.Some? && p.checksum.value != env.md5(fs[p.filename])
    ensures Parse(env, fs, p, Lazily).0.checksum == Some(env.md5(""))
    ensures Parse(env, fs, p, Lazily).0 == ApplyAll(p.(checksum := Some(env.md5(""))), Lines(fs[p.filename]))
  {
    var text := fs[p.filename];
    assert text[0..] == text;
    assert text[|text|..] == "";
    ReadLoopFull(text, 0, Lazily, p.(checksum := Some(env.md5(""))), "");
    ApplyAllKeepsChecksum(p.(checksum := Some(env.md5(""))), Lines(text));
  }

  /** After such a refresh the post stays stale unless its file digests like the empty text. */
  lemma {:induction false} StaleRefreshStaysStale(env: Env, fs: FileSystem, p: Post)
    requires p.filename in fs && p.checksum.Some? && p.checksum.value != env.md5(fs[p.filename])
    requires env.md5(fs[p.filename]) != env.md5("")
    ensures !IsUpToDate(env, fs, UpdateMetadata(env, fs, p))
  {
    LazyParseStaleStoresEmptyDigest(env, fs, p);
    ApplyAllKeepsChecksum(p.(checksum := Some(env.md5(""))), Lines(fs[p.filename]));
  }

  lemma {:induction false} ApplyAllKeepsChecksum(p: Post, lines: seq<string>)
    ensures ApplyAll(p, lines).checksum == p.checksum
    ensures ApplyAll(p, lines).filename == p.filename
    ensures ApplyAll(p, lines).dateParsed == p.dateParsed
    decreases |lines|
  {
    if lines != [] {
      ApplyAllKeepsChecksum(ParseMetadataLine(p, lines[0]), lines[1..]);
    }
  }

  lemma {:induction false} LoadedChecksum(env: Env, fs: FileSystem, path: string)
    ensures path in fs ==> UpdateMetadata(env, fs, BlankPost(path)).checksum == Some(env.md5(fs[path]))
    ensures path in fs ==> UpdateMetadata(env, fs, BlankPost(path)).filename == path
    ensures path !in fs ==> UpdateMetadata(env, fs, BlankPost(path)).checksum.None?
  {
    if path in fs {
      LazyParseFirstLoad(env, fs, BlankPost(path));
      ParseContents(env, fs, BlankPost(path));
      ApplyAllKeepsChecksum(BlankPost(path).(checksum := Some(env.md5(fs[path]))), Lines(fs[path]));
    }
  }

  /** A freshly loaded post holds the metadata of every "~~" line of its file and is up to date. */
  lemma {:induction false} NewPostLoadsAllMetadata(env: Env, fs: FileSystem, path: string)
    requires path in fs
    ensures NewPostFromPath(env, fs, path)
         == Success(ApplyAll(BlankPost(path).(checksum := Some(env.md5(fs[path]))), Lines(fs[path])))
    ensures IsUpToDate(env, fs, NewPostFromPath(env, fs, path).value)
  {
    LazyParseFirstLoad(env, fs, BlankPost(path));
    ParseContents(env, fs, BlankPost(path));
  }

  // ---------------------------------------------------------------------------
  // Lemmas: metadata

  /** A metadata line whose trimmed, lower-cased key is `key`. */
  predicate Names(line: string, key: string) {
    IsMetaLine(line) && ':' in line[2..] && ToLower(TrimSpace(line[2..][..FirstIndex(line[2..], ':')])) == key
  }

  /** The trimmed text after the first ':' of a metadata line. */
  function ValueOf(line: string): string
    requires IsMetaLine(line) && ':' in line[2..]
  {
    TrimSpace(line[2..][FirstIndex(line[2..], ':') + 1..])
  }

  /** The value of the last line naming `key`, or `fallback` when none does. */
  function LastValue(lines: seq<string>, key: string, fallback: string): string
    decreases |lines|
  {
    if lines == [] then fallback
    else if Names(Last(lines), key) then ValueOf(Last(lines))
    else LastValue(lines[..|lines| - 1], key, fallback)
  }

  /** One line sets a field exactly when it names the field's key. */
  lemma {:induction false} ParseMetadataLineNames(q: Post, line: string)
    ensures var r := ParseMetadataLine(q, line);
            && r.title == (if Names(line, "title") then ValueOf(line) else q.title)
            && r.urlFragment == (if Names(line, "url") then ValueOf(line) else q.urlFragment)
            && r.date == (if Names(line, "date") then ValueOf(line) else q.date)
  {
  }

  lemma {:induction false} ApplyAllSnoc(p: Post, lines: seq<string>, line: string)
    ensures ApplyAll(p, lines + [line]) == ParseMetadataLine(ApplyAll(p, lines), line)
    decreases |lines|
  {
    if lines == [] {
      assert [] + [line] == [line];
    } else {
      assert (lines + [line])[1..] == lines[1..] + [line];
      ApplyAllSnoc(ParseMetadataLine(p, lines[0]), lines[1..], line);
    }
  }

  /** Later lines overwrite earlier ones: each field holds the value of the last line naming it. */
  lemma {:induction false} ApplyAllLastWins(p: Post, lines: seq<string>)
    ensures ApplyAll(p, lines).title == LastValue(lines, "title", p.title)
    ensures ApplyAll(p, lines).urlFragment == LastValue(lines, "url", p.urlFragment)
    ensures ApplyAll(p, lines).date == LastValue(lines, "date", p.date)
    decreases |lines|
  {
    if lines != [] {
      var front := lines[..|lines| - 1];
      assert lines == front + [Last(lines)];
      ApplyAllSnoc(p, front, Last(lines));
      ApplyAllLastWins(p, front);
      ParseMetadataLineNames(ApplyAll(p, front), Last(lines));
    }
  }

  /**
   * The split is at the first ':' only: for any key text without ':' the value may
   * hold further colons, and surrounding white space and the key's case are ignored.
   */
  lemma {:induction false} MetadataLineFields(p: Post, key: string, value: string)
    requires ':' !in key
    ensures var r := ParseMetadataLine(p, "~~" + key + ":" + value);
            var k := ToLower(TrimSpace(key));
            var v := TrimSpace(value);
            r == (if k == "title" then p.(title := v)
                  else if k == "url" then p.(urlFragment := v)
                  else if k == "date" then p.(date := v)
                  else p)
  {
    var line := "~~" + key + ":" + value;
    assert line[..2] == "~~";
    var rest := line[2..];
    assert rest == key + [':'] + value;
    FirstIndexAfter(key, ':', value);
    assert rest[..|key|] == key;
    assert rest[|key| + 1..] == value;
  }

  // ---------------------------------------------------------------------------
  // Lemmas: URLs

  lemma {:induction false} SplitFront(a: string, b: string)
    requires '/' !in a
    ensures Split(a + "/" + b, '/') == [a] + Split(b, '/')
  {
    var s := a + "/" + b;
    assert s == a + ['/'] + b;
    FirstIndexAfter(a, '/', b);
    assert s[..|a|] == a;
    assert s[|a| + 1..] == b;
  }

  /** A relative path whose segments are all normal. */
  predicate CleanRelative(s: string) {
    forall i :: 0 <= i < |Split(s, '/')| ==> Paths.Normal(Split(s, '/')[i])
  }

  lemma {:induction false} DecimalIsNormal(s: string)
    requires |s| > 0 && forall i :: 0 <= i < |s| ==> IsDigit(s[i]) || s[i] == '-'
    ensures Paths.Normal(s) && '/' !in s
  {
    assert s[0] != '.';
  }

  lemma {:induction false} JoinThree(y: string, m: string, leaf: string)
    ensures JoinWith([y, m, leaf], '/') == y + "/" + m + "/" + leaf
  {
    assert JoinWith([leaf], '/') == leaf;
    assert [y, m, leaf][1..] == [m, leaf];
    assert [m, leaf][1..] == [leaf];
  }

  lemma {:induction false} SplitThree(y: string, m: string, leaf: string)
    requires '/' !in y && '/' !in m
    ensures Split(y + "/" + m + "/" + leaf, '/') == [y, m] + Split(leaf, '/')
  {
    SplitFront(m, leaf);
    assert y + "/" + m + "/" + leaf == y + "/" + (m + "/" + leaf);
    SplitFront(y, m + "/" + leaf);
  }

  /** The path "year/month/leaf" that path.Join builds for a dated post, before cleaning. */
  lemma {:induction false} YearMonthPath(y: string, m: string, leaf: string)
    requires |y| > 0 && forall i :: 0 <= i < |y| ==> IsDigit(y[i]) || y[i] == '-'
    requires |m| > 0 && forall i :: 0 <= i < |m| ==> IsDigit(m[i])
    ensures Paths.JoinPaths([y, m, leaf]) == Paths.Clean(y + "/" + m + "/" + leaf)
    ensures Split(y + "/" + m + "/" + leaf, '/') == [y, m] + Split(leaf, '/')
    ensures Paths.Normal(y) && Paths.Normal(m)
  {
    DecimalIsNormal(y);
    DecimalIsNormal(m);
    JoinThree(y, m, leaf);
    SplitThree(y, m, leaf);
  }

  /** A dated post whose leaf is a clean relative path lives at "year/month/leaf". */
  lemma {:induction false} CreateURLDated(env: Env, p: Post)
    requires Dated(env, p) && CleanRelative(Leaf(p))
    ensures CreateURL(env, p)
         == IntToString(ParseDate(env, p.date).year) + "/" + NatToString(ParseDate(env, p.date).month) + "/" + Leaf(p)
  {
    var d := ParseDate(env, p.date);
    DatedPath(IntToString(d.year), NatToString(d.month), Leaf(p));
    assert CreateURL(env, p) == Paths.JoinPaths([IntToString(d.year), NatToString(d.month), Leaf(p)]);
  }

  /** path.Join leaves "year/month/leaf" as it is when the leaf is a clean relative path. */
  lemma {:induction false} DatedPath(y: string, m: string, leaf: string)
    requires |y| > 0 && forall i :: 0 <= i < |y| ==> IsDigit(y[i]) || y[i] == '-'
    requires |m| > 0 && forall i :: 0 <= i < |m| ==> IsDigit(m[i])
    requires CleanRelative(leaf)
    ensures Paths.JoinPaths([y, m, leaf]) == y + "/" + m + "/" + leaf
  {
    var path := y + "/" + m + "/" + leaf;
    YearMonthPath(y, m, leaf);
    var segs := Split(path, '/');
    assert forall i :: 0 <= i < |segs| ==> Paths.Normal(segs[i]) by {
      forall i | 0 <= i < |segs|
        ensures Paths.Normal(segs[i])
      {
        if i >= 2 {
          assert segs[i] == Split(leaf, '/')[i - 2];
        }
      }
    }
    Paths.CleanOfNormalPath(path);
  }

  /** An undated post's URL is just its leaf. */
  lemma {:induction false} CreateURLUndated(env: Env, p: Post)
    requires !Dated(env, p)
    ensures CreateURL(env, p) == Leaf(p)
  {
  }

  /** A suffix free of `c` lies wholly after any occurrence of `c`. */
  lemma {:induction false} SuffixAfter(s: string, c: char, t: string, i: nat)
    requires HasSuffix(s, t) && c !in t && i < |s| && s[i] == c
    ensures HasSuffix(s[i + 1..], t)
  {
    assert forall k :: |s| - |t| <= k < |s| ==> s[k] == t[k - (|s| - |t|)];
    assert s[i + 1..][|s[i + 1..]| - |t|..] == s[|s| - |t|..];
  }

  lemma {:induction false} AfterLastKeepsSuffix(s: string, c: char, t: string)
    requires HasSuffix(s, t) && c !in t
    ensures HasSuffix(AfterLast(s, c), t)
    decreases |s|
  {
    if c in s {
      var i := FirstIndex(s, c);
      var rest := s[i + 1..];
      SuffixAfter(s, c, t, i);
      AfterLastKeepsSuffix(rest, c, t);
      assert AfterLast(s, c) == AfterLast(rest, c);
    }
  }

  /** The final segment of every post URL is a normal name ending in ".html". */
  lemma {:induction false} URLLastSegment(env: Env, p: Post)
    ensures HasSuffix(Last(Split(CreateURL(env, p), '/')), ".html")
    ensures Paths.Normal(Last(Split(CreateURL(env, p), '/')))
  {
    var leaf := Leaf(p);
    LeafLastSegment(leaf);
    if Dated(env, p) {
      var d := ParseDate(env, p.date);
      DatedLastSegment(IntToString(d.year), NatToString(d.month), leaf);
      assert CreateURL(env, p) == Paths.JoinPaths([IntToString(d.year), NatToString(d.month), leaf]);
    }
  }

  /** The final segment of a leaf name is a normal ".html" name. */
  lemma {:induction false} LeafLastSegment(leaf: string)
    requires HasSuffix(leaf, ".html")
    ensures HasSuffix(Last(Split(leaf, '/')), ".html")
    ensures Paths.Normal(Last(Split(leaf, '/')))
  {
    LastSplitIsAfterLast(leaf, '/');
    AfterLastKeepsSuffix(leaf, '/', ".html");
  }

  /** Putting a leaf under "year/month/" keeps its final segment. */
  lemma {:induction false} DatedLastSegment(y: string, m: string, leaf: string)
    requires |y| > 0 && forall i :: 0 <= i < |y| ==> IsDigit(y[i]) || y[i] == '-'
    requires |m| > 0 && forall i :: 0 <= i < |m| ==> IsDigit(m[i])
    requires Paths.Normal(Last(Split(leaf, '/')))
    ensures Last(Split(Paths.JoinPaths([y, m, leaf]), '/')) == Last(Split(leaf, '/'))
  {
    var path := y + "/" + m + "/" + leaf;
    YearMonthPath(y, m, leaf);
    LastOfCons(y, [m] + Split(leaf, '/'));
    assert [y, m] + Split(leaf, '/') == [y] + ([m] + Split(leaf, '/'));
    LastOfCons(m, Split(leaf, '/'));
    Paths.CleanKeepsNormalLast(path);
  }

  /** Every post URL ends in ".html", so it is never empty and never ends in '/'. */
  lemma {:induction false} URLEndsInHtml(env: Env, p: Post)
    ensures HasSuffix(CreateURL(env, p), ".html")
    ensures CreateURL(env, p) != "" && CreateURL(env, p)[|CreateURL(env, p)| - 1] != '/'
  {
    var url := CreateURL(env, p);
    URLLastSegment(env, p);
    Paths.LastSegmentIsSuffix(url);
    SuffixTrans(url, Last(Split(url, '/')), ".html");
    assert url[|url| - 1] == ".html"[4];
  }

  /** Every character of a slug is a word character. */
  lemma {:induction false} SlugWordChars(title: string)
    ensures forall i :: 0 <= i < |Slug(title)| ==> IsWordChar(Slug(title)[i])
  {
    var replaced := ReplaceNonWord(title);
    var slug := Slug(title);
    forall i | 0 <= i < |slug| ensures IsWordChar(slug[i]) {
      var j :| 0 <= j < |replaced| && replaced[j] == slug[i];
    }
  }

  /** Lower-casing keeps word characters word characters and leaves no upper case, and keeps '_' exactly where it was. */
  lemma {:induction false} LowerSlug(slug: string)
    requires forall i :: 0 <= i < |slug| ==> IsWordChar(slug[i])
    ensures forall i :: 0 <= i < |slug| ==> IsWordChar(ToLower(slug)[i]) && !('A' <= ToLower(slug)[i] <= 'Z')
    ensures forall i :: 0 <= i < |slug| ==> (ToLower(slug)[i] == '_' <==> slug[i] == '_')
  {
  }

  lemma {:induction false} LeafOfTitle(p: Post)
    requires p.urlFragment == "" && p.title != ""
    ensures var b := ToLower(Slug(p.title));
            Leaf(p) == (if HasSuffix(b, "_") then b[..|b| - 1] else b) + ".html"
  {
    LeafEndings(p);
    assert BaseName(p) == Slug(p.title);
    assert !HasSuffix(ToLower(Slug(p.title)), "/") by {
      LowerSlugShaped(p.title);
    }
  }

  /** Lower-case word characters with no two '_' in a row. */
  predicate SlugShaped(s: string) {
    && (forall i :: 0 <= i < |s| ==> IsWordChar(s[i]) && !('A' <= s[i] <= 'Z'))
    && (forall i :: 0 <= i < |s| - 1 ==> !(s[i] == '_' && s[i + 1] == '_'))
  }

  /** Dropping one trailing '_' from a slug-shaped string leaves no trailing '_'. */
  lemma {:induction false} StemShape(b: string)
    requires SlugShaped(b)
    ensures var stem := if HasSuffix(b, "_") then b[..|b| - 1] else b;
            SlugShaped(stem) && (stem == "" || Last(stem) != '_')
  {
    if HasSuffix(b, "_") && |b| >= 2 {
      assert b[|b| - 1] == '_';
    }
  }

  lemma {:induction false} LowerSlugShaped(title: string)
    ensures SlugShaped(ToLower(Slug(title)))
  {
    var slug := Slug(title);
    SlugWordChars(title);
    LowerSlug(slug);
  }

  lemma {:induction false} StemLeaf(stem: string, leaf: string)
    requires SlugShaped(stem) && (stem == "" || Last(stem) != '_')
    requires leaf == stem + ".html"
    ensures forall i :: 0 <= i < |leaf| - 5 ==> IsWordChar(leaf[i]) && !('A' <= leaf[i] <= 'Z')
    ensures forall i :: 0 <= i < |leaf| - 6 ==> !(leaf[i] == '_' && leaf[i + 1] == '_')
    ensures |leaf| > 5 ==> leaf[|leaf| - 6] != '_'
  {
    assert forall i :: 0 <= i < |stem| ==> leaf[i] == stem[i];
  }

  /**
   * A title-derived leaf: only lower-case letters, digits and single '_' separators,
   * never ending in '_', followed by ".html".
   */
  lemma {:induction false} TitleLeafShape(p: Post)
    requires p.urlFragment == "" && p.title != ""
    ensures HasSuffix(Leaf(p), ".html")
    ensures forall i :: 0 <= i < |Leaf(p)| - 5 ==> IsWordChar(Leaf(p)[i]) && !('A' <= Leaf(p)[i] <= 'Z')
    ensures forall i :: 0 <= i < |Leaf(p)| - 6 ==> !(Leaf(p)[i] == '_' && Leaf(p)[i + 1] == '_')
    ensures |Leaf(p)| > 5 ==> Leaf(p)[|Leaf(p)| - 6] != '_'
  {
    var b := ToLower(Slug(p.title));
    LowerSlugShaped(p.title);
    StemShape(b);
    LeafOfTitle(p);
    var stem := if HasSuffix(b, "_") then b[..|b| - 1] else b;
    StemLeaf(stem, Leaf(p));
  }

  /**
   * A non-empty URL fragment decides the leaf alone: neither the title nor the file
   * name matters, and a fragment whose lower-case form ends in neither '_' nor '/'
   * becomes that form plus ".html".
   */
  lemma {:induction false} LeafOfFragment(p: Post, title: string, filename: string)
    requires p.urlFragment != ""
    ensures Leaf(p.(title := title, filename := filename)) == Leaf(p)
    ensures var b := ToLower(p.urlFragment);
            !HasSuffix(b, "_") && !HasSuffix(b, "/") ==> Leaf(p) == b + ".html"
  {
  }

  /**
   * With no fragment and no title the leaf comes from the file name: its last
   * element without the extension, lower-cased, one trailing '_' dropped.
   */
  lemma {:induction false} LeafOfFileName(p: Post, dir: string, stem: string, ext: string)
    requires p.urlFragment == "" && p.title == ""
    requires dir == "" || dir[|dir| - 1] == '/'
    requires '/' !in stem && '.' !in ext && '/' !in ext
    requires p.filename == dir + stem + "." + ext
    ensures var b := ToLower(stem);
            Leaf(p) == (if HasSuffix(b, "_") then b[..|b| - 1] else b) + ".html"
    ensures CleanRelative(Leaf(p))
  {
    FileStemOf(dir, stem, ext);
    LeafOfSlashFreeBase(p, stem);
  }

  /** A basename without '/' gives the leaf of its lower-case form, a single normal segment. */
  lemma {:induction false} LeafOfSlashFreeBase(p: Post, base: string)
    requires BaseName(p) == base && '/' !in base
    ensures var b := ToLower(base);
            Leaf(p) == (if HasSuffix(b, "_") then b[..|b| - 1] else b) + ".html"
    ensures CleanRelative(Leaf(p))
  {
    LeafEndings(p);
    var b := ToLower(base);
    LowerNoSlash(base);
    var b' := if HasSuffix(b, "_") then b[..|b| - 1] else b;
    assert '/' !in b';
    NoSlashLeafClean(b');
  }

  /** The same, for a basename whose lower-case form is known and does not end in '_'. */
  lemma {:induction false} LeafOfLowerBase(p: Post, base: string, lower: string)
    requires BaseName(p) == base && '/' !in base
    requires ToLower(base) == lower && (lower == "" || lower[|lower| - 1] != '_')
    ensures Leaf(p) == lower + ".html" && CleanRelative(Leaf(p))
  {
    LeafOfSlashFreeBase(p, base);
  }

  /** The stem of "dir/stem.ext" is `stem`. */
  lemma {:induction false} FileStemOf(dir: string, stem: string, ext: string)
    requires dir == "" || dir[|dir| - 1] == '/'
    requires '/' !in stem && '.' !in ext && '/' !in ext
    ensures FileStem(dir + stem + "." + ext) == stem
  {
    BaseOfFile(dir, stem, ext);
    Paths.ExtOfDotted(stem, ext);
    StemOfName(dir + stem + "." + ext, stem + "." + ext, "." + ext, stem);
  }

  lemma {:induction false} BaseOfFile(dir: string, stem: string, ext: string)
    requires dir == "" || dir[|dir| - 1] == '/'
    requires '/' !in stem && '/' !in ext
    ensures Paths.Base(dir + stem + "." + ext) == stem + "." + ext
  {
    var name := stem + "." + ext;
    NoSlashConcat(stem + ".", ext);
    assert dir + stem + "." + ext == dir + name;
    Paths.BaseOfDirAndName(dir, name);
  }

  lemma {:induction false} StemOfName(f: string, name: string, e: string, stem: string)
    requires Paths.Base(f) == name && Paths.Ext(name) == e
    requires name == stem + e
    ensures FileStem(f) == stem
  {
    assert name[..|name| - |e|] == stem;
  }

  lemma {:induction false} NoSlashConcat(a: string, b: string)
    requires '/' !in a && '/' !in b
    ensures '/' !in a + b
  {
    assert forall i :: 0 <= i < |a + b| ==> (a + b)[i] == if i < |a| then a[i] else b[i - |a|];
  }

  lemma {:induction false} LowerNoSlash(s: string)
    requires '/' !in s
    ensures '/' !in ToLower(s)
  {
    var b := ToLower(s);
    forall i | 0 <= i < |b| ensures b[i] != '/' {
      assert b[i] == LowerChar(s[i]);
    }
  }

  /**
   * A lower-cased basename ending in '/' gets "index" appended; one ending in '_'
   * loses that '_'; any other is kept as it is.
   */
  lemma {:induction false} LeafEndings(p: Post)
    ensures var b := ToLower(BaseName(p));
            && (HasSuffix(b, "/") ==> Leaf(p) == b + "index.html")
            && (HasSuffix(b, "_") ==> Leaf(p) == b[..|b| - 1] + ".html")
            && (!HasSuffix(b, "_") && !HasSuffix(b, "/") ==> Leaf(p) == b + ".html")
  {
    FinishLeafRules(ToLower(BaseName(p)));
  }

  lemma {:induction false} FinishLeafRules(b: string)
    ensures HasSuffix(b, "/") ==> FinishLeaf(b) == b + "index.html"
    ensures HasSuffix(b, "_") ==> FinishLeaf(b) == b[..|b| - 1] + ".html"
    ensures !HasSuffix(b, "_") && !HasSuffix(b, "/") ==> FinishLeaf(b) == b + ".html"
  {
    if HasSuffix(b, "/") {
      assert b[|b| - 1] == '/';
      assert b + "index" + ".html" == b + "index.html";
    }
  }

  /** A name without '/' followed by ".html" is a single normal segment. */
  lemma {:induction false} NoSlashLeafClean(x: string)
    requires '/' !in x
    ensures CleanRelative(x + ".html")
  {
    var leaf := x + ".html";
    assert '/' !in leaf by {
      forall i | 0 <= i < |leaf| ensures leaf[i] != '/' {
        if i >= |x| {
          assert leaf[i] == ".html"[i - |x|];
        }
      }
    }
    assert Split(leaf, '/') == [leaf];
    assert leaf[|leaf| - 1] == 'l';
  }

  /** A title-derived leaf is one normal segment, so a dated post lives at "year/month/leaf". */
  lemma {:induction false} TitleLeafClean(env: Env, p: Post)
    requires p.urlFragment == "" && p.title != ""
    ensures CleanRelative(Leaf(p))
    ensures Dated(env, p) ==>
              CreateURL(env, p) == IntToString(ParseDate(env, p.date).year) + "/"
                                   + NatToString(ParseDate(env, p.date).month) + "/" + Leaf(p)
  {
    TitleLeafShape(p);
    WordLeafClean(Leaf(p));
    if Dated(env, p) {
      CreateURLDated(env, p);
    }
  }

  /** Word characters followed by ".html" make one normal segment. */
  lemma {:induction false} WordLeafClean(leaf: string)
    requires HasSuffix(leaf, ".html")
    requires forall i :: 0 <= i < |leaf| - 5 ==> IsWordChar(leaf[i])
    ensures CleanRelative(leaf)
  {
    var x := leaf[..|leaf| - 5];
    assert leaf == x + ".html";
    assert '/' !in x by {
      forall i | 0 <= i < |x| ensures x[i] != '/' {
        assert IsWordChar(leaf[i]);
      }
    }
    NoSlashLeafClean(x);
  }

  // ---------------------------------------------------------------------------
  // Lemmas: ordering and dates

  lemma {:induction false} BeforeIrreflexive(d: Date)
    ensures !Before(d, d)
  {
  }

  /** Less is irreflexive for every post, dated or not. */
  lemma {:induction false} LessIrreflexive(env: Env, p: Post)
    ensures !Less(env, p, p)
  {
    StrLessIrreflexive(CreateURL(env, p));
  }

  /** Less never holds both ways round. */
  lemma {:induction false} LessAsymmetric(env: Env, a: Post, b: Post)
    requires Less(env, a, b)
    ensures !Less(env, b, a)
  {
    if !(Dated(env, a) && Dated(env, b)) {
      StrLessAsymmetric(CreateURL(env, a), CreateURL(env, b));
    }
  }

  /** Among posts that are all dated, or all undated, Less is transitive. */
  lemma {:induction false} LessTransitiveUniform(env: Env, a: Post, b: Post, c: Post)
    requires Less(env, a, b) && Less(env, b, c)
    requires (Dated(env, a) && Dated(env, b) && Dated(env, c)) || (!Dated(env, a) && !Dated(env, b) && !Dated(env, c))
    ensures Less(env, a, c)
  {
    if !Dated(env, a) {
      StrLessTransitive(CreateURL(env, a), CreateURL(env, b), CreateURL(env, c));
    }
  }

  /**
   * GetDate after CreateURL cached the date: nil exactly for an empty date string,
   * and a non-zero date exactly when CreateURL put the post under "year/month/",
   * the year and month of that date. Caching the date does not change the URL.
   */
  lemma {:induction false} GetDateAfterCreateURL(env: Env, p: Post)
    ensures GetDate(CacheDate(env, p)).None? <==> p.date == ""
    ensures p.date != "" ==> GetDate(CacheDate(env, p)) == Some(ParseDate(env, p.date))
    ensures var g := GetDate(CacheDate(env, p));
            (g.Some? && !IsZero(g.value)) <==> Dated(env, p)
    ensures CreateURL(env, CacheDate(env, p)) == CreateURL(env, p)
    ensures var g := GetDate(CacheDate(env, p));
            !(g.Some? && !IsZero(g.value)) ==> CreateURL(env, p) == Leaf(p)
    ensures var g := GetDate(CacheDate(env, p));
            g.Some? && !IsZero(g.value) && CleanRelative(Leaf(p)) ==>
              CreateURL(env, p) == IntToString(g.value.year) + "/" + NatToString(g.value.month) + "/" + Leaf(p)
  {
    assert BaseName(CacheDate(env, p)) == BaseName(p);
    if Dated(env, p) && CleanRelative(Leaf(p)) {
      CreateURLDated(env, p);
    }
  }
}
