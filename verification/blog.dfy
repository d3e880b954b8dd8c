/**
 * blog.go: where a blog's configuration file is looked up, how the configured
 * directories are resolved against the configuration file's own directory, and
 * how the Markdown option names of the configuration become flag masks.
 *
 * The flag values belong to the Markdown library; here every table gives its
 * i-th name the single bit i, and a mask is written as the set of its bit
 * positions, so that OR is set union.
 */
module Blogs {
  import opened Wrappers
  import opened Strs
  import Paths

  const ConfigFileName: string := "blackblog.json"

  /**
   * The decoded configuration file. A list that is absent from the file is
   * `None` (Go's nil slice), which parseOptions tells apart from an empty list.
   */
  datatype ConfigFile = ConfigFile(
    title: string,
    postsDir: string,
    templatesDir: string,
    staticFilesDir: string,
    outputDir: string,
    port: int,
    markdownExtensions: Option<seq<string>>,
    markdownHTMLOptions: Option<seq<string>>)

  /** A flag mask as the set of positions of its one bits. */
  type Mask = set<nat>

  datatype Blog = Blog(config: ConfigFile, markdownExtensions: Mask, markdownHTMLOptions: Mask, configPath: string)

  // ---------------------------------------------------------------------------
  // Paths

  /** The file ReadBlog opens: the argument itself when it already names the configuration file. */
  function ConfigLocation(p: string): string {
    if HasSuffix(p, ConfigFileName) then p else Paths.JoinPaths([p, ConfigFileName])
  }

  /** getPath: a configured path taken relative to the configuration file's directory. */
  function GetPath(b: Blog, part: string): string {
    Paths.JoinPaths([Paths.Dir(b.configPath), part])
  }

  function TemplatesDir(b: Blog): string {
    GetPath(b, b.config.templatesDir)
  }

  /** StaticFilesDir: empty when the configuration names none. */
  function StaticFilesDir(b: Blog): string {
    if b.config.staticFilesDir == "" then "" else GetPath(b, b.config.staticFilesDir)
  }

  function GetPostsDir(b: Blog): string {
    GetPath(b, b.config.postsDir)
  }

  function GetOutputDir(b: Blog): string {
    GetPath(b, b.config.outputDir)
  }

  // ---------------------------------------------------------------------------
  // Flags

  /** A name-to-value table; keys are unique, as in the map it models. */
  type FlagTable = seq<(string, Mask)>

  /** The mask with only bit i set. */
  function Bit(i: nat): Mask
  {
    {i}
  }

  /** The table giving the i-th name bit i. */
  function BitTable(names: seq<string>): (t: FlagTable)
    ensures |t| == |names|
    ensures forall i :: 0 <= i < |names| ==> t[i] == (names[i], Bit(i))
  {
    seq(|names|, i requires 0 <= i < |names| => (names[i], Bit(i)))
  }

  const ExtensionNames: seq<string> := [
    "EXTENSION_NO_INTRA_EMPHASIS",
    "EXTENSION_TABLES",
    "EXTENSION_FENCED_CODE",
    "EXTENSION_AUTOLINK",
    "EXTENSION_STRIKETHROUGH",
    "EXTENSION_LAX_HTML_BLOCKS",
    "EXTENSION_SPACE_HEADERS",
    "EXTENSION_HARD_LINE_BREAK",
    "EXTENSION_TAB_SIZE_EIGHT",
    "EXTENSION_FOOTNOTES",
    "EXTENSION_NO_EMPTY_LINE_BEFORE_BLOCK",
    "EXTENSION_HEADER_IDS",
    "EXTENSION_TITLEBLOCK"]

  const HTMLOptionNames: seq<string> := [
    "HTML_SKIP_HTML",
    "HTML_SKIP_STYLE",
    "HTML_SKIP_IMAGES",
    "HTML_SKIP_LINKS",
    "HTML_SANITIZE_OUTPUT",
    "HTML_SAFELINK",
    "HTML_NOFOLLOW_LINKS",
    "HTML_HREF_TARGET_BLANK",
    "HTML_TOC",
    "HTML_OMIT_CONTENTS",
    "HTML_COMPLETE_PAGE",
    "HTML_USE_XHTML",
    "HTML_USE_SMARTYPANTS",
    "HTML_SMARTYPANTS_FRACTIONS",
    "HTML_SMARTYPANTS_LATEX_DASHES",
    "HTML_FOOTNOTE_RETURN_LINKS"]

  /** The HTML options used when the configuration gives no list at all. */
  const DefaultHTMLOptions: seq<string> := ["HTML_USE_SMARTYPANTS", "HTML_USE_XHTML", "HTML_SMARTYPANTS_LATEX_DASHES"]

  /** Map lookup in a flag table. */
  function Lookup(t: FlagTable, name: string): Option<Mask>
    decreases |t|
  {
    if t == [] then None
    else if t[0].0 == name then Some(t[0].1)
    else Lookup(t[1..], name)
  }

  function UnknownFlag(name: string): string {
    "Unknown flag " + Quote(name)
  }

  /**
   * parseFlags: OR the value of every listed name into `flags`, stopping at the
   * first unknown name. The bits gathered before that name stay in the result,
   * as they stay in the flags the original updates in place.
   */
  function ParseFlags(flags: Mask, t: FlagTable, names: seq<string>): (Mask, Option<string>)
    decreases |names|
  {
    if names == [] then (flags, None)
    else match Lookup(t, names[0])
      case None => (flags, Some(UnknownFlag(names[0])))
      case Some(v) => ParseFlags(flags + v, t, names[1..])
  }

  /** A nil list ranges over nothing. */
  function OrEmpty(o: Option<seq<string>>): seq<string> {
    if o.None? then [] else o.value
  }

  /**
   * parseOptions: the extensions first, then the HTML options (the defaults when
   * the configuration has no list); each error is prefixed with the list it
   * came from, and an extension error leaves the HTML options alone.
   */
  function ParseOptions(b: Blog): (Blog, Option<string>)
  {
    var (ext, extErr) := ParseFlags(b.markdownExtensions, BitTable(ExtensionNames), OrEmpty(b.config.markdownExtensions));
    var b1 := b.(markdownExtensions := ext);
    if extErr.Some? then (b1, Some("Markdown Extensions: " + extErr.value))
    else
      var options := if b.config.markdownHTMLOptions.None? then DefaultHTMLOptions else b.config.markdownHTMLOptions.value;
      var (html, htmlErr) := ParseFlags(b1.markdownHTMLOptions, BitTable(HTMLOptionNames), options);
      var b2 := b1.(markdownHTMLOptions := html);
      if htmlErr.Some? then (b2, Some("Markdown HTML Options: " + htmlErr.value))
      else (b2, None)
  }

  /**
   * ReadBlog: find the configuration file, load it (opening and JSON decoding
   * are the `load` parameter), remember its cleaned path and parse the options.
   */
  function ReadBlog(p: string, load: string -> Result<ConfigFile>): Result<Blog>
  {
    var location := ConfigLocation(p);
    var config :- load(location);
    var (b, err) := ParseOptions(Blog(config, {}, {}, Paths.Clean(location)));
    if err.Some? then Failure(err.value) else Success(b)
  }

  // ---------------------------------------------------------------------------
  // Lemmas: paths

  /**
   * The configuration file is looked up by name: the located path always ends in
   * "blackblog.json", it is the argument exactly when the argument already does,
   * and locating twice changes nothing.
   */
  lemma {:induction false} ConfigLocationSuffix(p: string)
    ensures HasSuffix(ConfigLocation(p), ConfigFileName)
    ensures ConfigLocation(p) == p <==> HasSuffix(p, ConfigFileName)
    ensures ConfigLocation(ConfigLocation(p)) == ConfigLocation(p)
  {
    if !HasSuffix(p, ConfigFileName) {
      assert Paths.Normal(ConfigFileName) && '/' !in ConfigFileName;
      Paths.JoinEndsWithName(p, ConfigFileName);
      Paths.LastSegmentIsSuffix(Paths.JoinPaths([p, ConfigFileName]));
    }
  }

  /** A configured static directory is never resolved to "", so "" means exactly "not configured". */
  lemma {:induction false} StaticFilesDirEmpty(b: Blog)
    ensures StaticFilesDir(b) == "" <==> b.config.staticFilesDir == ""
    ensures b.config.staticFilesDir != "" ==> StaticFilesDir(b) == GetPath(b, b.config.staticFilesDir)
  {
    if b.config.staticFilesDir != "" {
      var dir := Paths.Dir(b.configPath);
      assert dir != "";
      assert Paths.JoinPaths([dir, b.config.staticFilesDir]) == Paths.Clean(JoinWith([dir, b.config.staticFilesDir], '/'));
    }
  }

  /** A plain name configured as a directory becomes the last segment of the resolved path. */
  lemma {:induction false} GetPathEndsWithPart(b: Blog, part: string)
    requires Paths.Normal(part) && '/' !in part
    ensures Last(Split(GetPath(b, part), '/')) == part
  {
    Paths.JoinEndsWithName(Paths.Dir(b.configPath), part);
  }

  /** ReadBlog fails exactly when loading fails or an option name is unknown, and records the cleaned location. */
  lemma {:induction false} ReadBlogOutcome(p: string, load: string -> Result<ConfigFile>)
    ensures var r := ReadBlog(p, load);
            var loaded := load(ConfigLocation(p));
            && (loaded.Failure? ==> r == Failure(loaded.error))
            && (loaded.Success? ==>
                  var parsed := ParseOptions(Blog(loaded.value, {}, {}, Paths.Clean(ConfigLocation(p))));
                  && (r.Success? <==> parsed.1.None?)
                  && (r.Success? ==>
                        (r.value.config == loaded.value
                         && r.value.configPath == Paths.Clean(ConfigLocation(p))
                         && HasSuffix(ConfigLocation(p), ConfigFileName))))
  {
    ConfigLocationSuffix(p);
  }

  // ---------------------------------------------------------------------------
  // Lemmas: flags

  /** Parsing succeeds exactly when every listed name is in the table. */
  lemma {:induction false} ParseFlagsKnown(flags: Mask, t: FlagTable, names: seq<string>)
    ensures ParseFlags(flags, t, names).1.None? <==> forall i :: 0 <= i < |names| ==> Lookup(t, names[i]).Some?
    decreases |names|
  {
    if names != [] {
      match Lookup(t, names[0])
      case None =>
      case Some(v) =>
        ParseFlagsKnown(flags + v, t, names[1..]);
        assert forall i :: 1 <= i < |names| ==> names[i] == names[1..][i - 1];
    }
  }

  /** An error names the first unknown flag; every name before it is known. */
  lemma {:induction false} ParseFlagsFirstUnknown(flags: Mask, t: FlagTable, names: seq<string>)
    requires ParseFlags(flags, t, names).1.Some?
    ensures exists k :: 0 <= k < |names| && Lookup(t, names[k]).None?
                        && (forall j :: 0 <= j < k ==> Lookup(t, names[j]).Some?)
                        && ParseFlags(flags, t, names).1 == Some(UnknownFlag(names[k]))
    decreases |names|
  {
    match Lookup(t, names[0])
    case None =>
      assert Lookup(t, names[0]).None?;
    case Some(v) =>
      ParseFlagsFirstUnknown(flags + v, t, names[1..]);
      var k :| 0 <= k < |names[1..]| && Lookup(t, names[1..][k]).None?
               && (forall j :: 0 <= j < k ==> Lookup(t, names[1..][j]).Some?)
               && ParseFlags(flags + v, t, names[1..]).1 == Some(UnknownFlag(names[1..][k]));
      assert names[k + 1] == names[1..][k];
      assert forall j :: 1 <= j < k + 1 ==> names[j] == names[1..][j - 1];
  }

  /** Whether parsing fails, and with which message, does not depend on the starting flags. */
  lemma {:induction false} ParseFlagsErrorIndependent(f: Mask, g: Mask, t: FlagTable, names: seq<string>)
    ensures ParseFlags(f, t, names).1 == ParseFlags(g, t, names).1
    decreases |names|
  {
    if names != [] && Lookup(t, names[0]).Some? {
      var v := Lookup(t, names[0]).value;
      ParseFlagsErrorIndependent(f + v, g + v, t, names[1..]);
    }
  }

  /** No name occurs twice, as in the map a table stands for. */
  predicate Unique(names: seq<string>) {
    forall i, j :: 0 <= i < j < |names| ==> names[i] != names[j]
  }

  /** Lookup in a bit table finds a name exactly when it is listed, and yields its position's bit. */
  lemma {:induction false} LookupBitTable(ns: seq<string>, start: nat, name: string)
    requires start <= |ns| && Unique(ns)
    ensures var t := BitTable(ns)[start..];
            && (Lookup(t, name).Some? <==> name in ns[start..])
            && (forall i :: start <= i < |ns| && ns[i] == name ==> Lookup(t, name) == Some(Bit(i)))
    decreases |ns| - start
  {
    var t := BitTable(ns)[start..];
    if start < |ns| {
      assert t[0] == (ns[start], Bit(start));
      assert t[1..] == BitTable(ns)[start + 1..];
      assert ns[start..] == [ns[start]] + ns[start + 1..];
      LookupBitTable(ns, start + 1, name);
    }
  }

  /** The positions of a bit table whose names are listed. */
  function Selected(ns: seq<string>, names: seq<string>): Mask {
    set i | 0 <= i < |ns| && ns[i] in names
  }

  /**
   * What parseFlags computes: with a bit table, a successful parse sets exactly
   * the starting bits and the bits of the listed names.
   */
  lemma {:induction false} ParseFlagsBits(flags: Mask, ns: seq<string>, names: seq<string>)
    requires Unique(ns)
    requires ParseFlags(flags, BitTable(ns), names).1.None?
    ensures ParseFlags(flags, BitTable(ns), names).0 == flags + Selected(ns, names)
    decreases |names|
  {
    var t := BitTable(ns);
    assert BitTable(ns)[0..] == t;
    if names == [] {
      assert Selected(ns, names) == {};
    } else {
      LookupBitTable(ns, 0, names[0]);
      var k :| 0 <= k < |ns| && ns[k] == names[0];
      ParseFlagsBits(flags + Bit(k), ns, names[1..]);
      assert Selected(ns, names) == Bit(k) + Selected(ns, names[1..]) by {
        forall i | 0 <= i < |ns|
          ensures ns[i] in names <==> i == k || ns[i] in names[1..]
        {
          assert names == [names[0]] + names[1..];
        }
      }
    }
  }

  /**
   * Because the fold is an OR, the mask depends only on the set of names listed:
   * neither their order nor repetitions change it.
   */
  lemma {:induction false} ParseFlagsSetOnly(flags: Mask, ns: seq<string>, a: seq<string>, b: seq<string>)
    requires Unique(ns)
    requires ParseFlags(flags, BitTable(ns), a).1.None?
    requires forall n :: n in a <==> n in b
    ensures ParseFlags(flags, BitTable(ns), b).1.None?
    ensures ParseFlags(flags, BitTable(ns), a).0 == ParseFlags(flags, BitTable(ns), b).0
  {
    var t := BitTable(ns);
    assert BitTable(ns)[0..] == t;
    ParseFlagsKnown(flags, t, a);
    ParseFlagsKnown(flags, t, b);
    forall i | 0 <= i < |b|
      ensures Lookup(t, b[i]).Some?
    {
      assert b[i] in b;
      assert b[i] in a;
      var j :| 0 <= j < |a| && a[j] == b[i];
      assert Lookup(t, a[j]).Some?;
    }
    ParseFlagsBits(flags, ns, a);
    ParseFlagsBits(flags, ns, b);
    assert Selected(ns, a) == Selected(ns, b);
  }

  lemma {:induction false} TablesUnique()
    ensures Unique(ExtensionNames) && Unique(HTMLOptionNames) && Unique(DefaultHTMLOptions)
  {
  }

  /** The i-th name of a bit table maps to bit i when no earlier name repeats it. */
  lemma {:induction false} LookupName(ns: seq<string>, start: nat, i: nat)
    requires start <= i < |ns|
    requires forall j :: start <= j < i ==> ns[j] != ns[i]
    ensures Lookup(BitTable(ns)[start..], ns[i]) == Some(Bit(i))
    decreases i - start
  {
    var t := BitTable(ns)[start..];
    assert t[0] == (ns[start], Bit(start));
    if start < i {
      assert t[1..] == BitTable(ns)[start + 1..];
      LookupName(ns, start + 1, i);
    }
  }

  /** One known name: its bit joins the flags and parsing goes on with the rest. */
  lemma {:induction false} ParseFlagsStep(flags: Mask, ns: seq<string>, i: nat, rest: seq<string>)
    requires i < |ns| && Unique(ns)
    ensures ParseFlags(flags, BitTable(ns), [ns[i]] + rest) == ParseFlags(flags + {i}, BitTable(ns), rest)
  {
    LookupName(ns, 0, i);
    assert BitTable(ns)[0..] == BitTable(ns);
    assert ([ns[i]] + rest)[1..] == rest;
  }

  /** The blog's own example of extensions: FOOTNOTES and NO_INTRA_EMPHASIS. */
  lemma {:induction false} ExtensionExample()
    ensures ParseFlags({}, BitTable(ExtensionNames), ["EXTENSION_FOOTNOTES", "EXTENSION_NO_INTRA_EMPHASIS"]) == ({9, 0}, None)
  {
    var e := ExtensionNames;
    TablesUnique();
    assert [e[9]] + [e[0]] == ["EXTENSION_FOOTNOTES", "EXTENSION_NO_INTRA_EMPHASIS"];
    ParseFlagsStep({}, e, 9, [e[0]]);
    assert [e[0]] == [e[0]] + [];
    ParseFlagsStep({9}, e, 0, []);
    assert {} + {9} + {0} == {9, 0};
  }

  /** The blog's own example of HTML options: the three defaults plus SAFELINK and TOC. */
  lemma {:induction false} HTMLOptionExample()
    ensures ParseFlags({}, BitTable(HTMLOptionNames),
                       ["HTML_USE_SMARTYPANTS", "HTML_USE_XHTML", "HTML_SMARTYPANTS_LATEX_DASHES", "HTML_SAFELINK", "HTML_TOC"])
            == ({12, 11, 14, 5, 8}, None)
  {
    var h := HTMLOptionNames;
    TablesUnique();
    assert [h[12]] + ([h[11]] + ([h[14]] + ([h[5]] + ([h[8]] + []))))
           == ["HTML_USE_SMARTYPANTS", "HTML_USE_XHTML", "HTML_SMARTYPANTS_LATEX_DASHES", "HTML_SAFELINK", "HTML_TOC"];
    var f0: Mask := {};
    ParseFlagsStep(f0, h, 12, [h[11]] + ([h[14]] + ([h[5]] + ([h[8]] + []))));
    var f1 := f0 + {12};
    ParseFlagsStep(f1, h, 11, [h[14]] + ([h[5]] + ([h[8]] + [])));
    var f2 := f1 + {11};
    ParseFlagsStep(f2, h, 14, [h[5]] + ([h[8]] + []));
    var f3 := f2 + {14};
    ParseFlagsStep(f3, h, 5, [h[8]] + []);
    var f4 := f3 + {5};
    ParseFlagsStep(f4, h, 8, []);
    assert f4 + {8} == {12, 11, 14, 5, 8};
  }

  /** The default HTML list sets SMARTYPANTS, XHTML and LATEX_DASHES on top of the starting flags. */
  lemma {:induction false} DefaultHTMLMask(flags: Mask)
    ensures ParseFlags(flags, BitTable(HTMLOptionNames), DefaultHTMLOptions) == (flags + {12, 11, 14}, None)
  {
    var h := HTMLOptionNames;
    TablesUnique();
    assert [h[12]] + ([h[11]] + ([h[14]] + [])) == DefaultHTMLOptions;
    ParseFlagsStep(flags, h, 12, [h[11]] + ([h[14]] + []));
    ParseFlagsStep(flags + {12}, h, 11, [h[14]] + []);
    ParseFlagsStep(flags + {12} + {11}, h, 14, []);
    assert flags + {12} + {11} + {14} == flags + {12, 11, 14};
  }

  /**
   * Options from an empty slate: an absent or empty extension list gives no
   * extensions, an empty (but present) HTML list gives no options, and an
   * absent one gives SMARTYPANTS | XHTML | LATEX_DASHES.
   */
  lemma {:induction false} ParseOptionsFromZero(b: Blog)
    requires b.markdownExtensions == {} && b.markdownHTMLOptions == {}
    requires OrEmpty(b.config.markdownExtensions) == []
    ensures ParseOptions(b).0.markdownExtensions == {}
    ensures b.config.markdownHTMLOptions == Some([]) ==> ParseOptions(b) == (b, None)
    ensures b.config.markdownHTMLOptions.None? ==>
              ParseOptions(b) == (b.(markdownHTMLOptions := {12, 11, 14}), None)
  {
    DefaultHTMLMask({});
    assert {} + {12, 11, 14} == {12, 11, 14};
  }

  /**
   * A successful parseOptions sets exactly the bits of the listed extensions and
   * of the listed HTML options (the defaults when there is no list), whatever
   * their order and however often they are repeated.
   */
  lemma {:induction false} ParseOptionsMasks(b: Blog)
    requires ParseOptions(b).1.None?
    ensures var options := if b.config.markdownHTMLOptions.None? then DefaultHTMLOptions else b.config.markdownHTMLOptions.value;
            && ParseOptions(b).0 == b.(markdownExtensions := b.markdownExtensions + Selected(ExtensionNames, OrEmpty(b.config.markdownExtensions)),
                                       markdownHTMLOptions := b.markdownHTMLOptions + Selected(HTMLOptionNames, options))
  {
    TablesUnique();
    var options := if b.config.markdownHTMLOptions.None? then DefaultHTMLOptions else b.config.markdownHTMLOptions.value;
    ParseFlagsBits(b.markdownExtensions, ExtensionNames, OrEmpty(b.config.markdownExtensions));
    ParseFlagsBits(b.markdownHTMLOptions, HTMLOptionNames, options);
  }

  /** An unknown name is reported with the prefix of the list it came from. */
  lemma {:induction false} ParseOptionsError(b: Blog)
    requires ParseOptions(b).1.Some?
    ensures var err := ParseOptions(b).1.value;
            var ext := ParseFlags(b.markdownExtensions, BitTable(ExtensionNames), OrEmpty(b.config.markdownExtensions));
            if ext.1.Some? then
              err == "Markdown Extensions: " + ext.1.value && ParseOptions(b).0.markdownHTMLOptions == b.markdownHTMLOptions
            else
              exists name :: err == "Markdown HTML Options: " + UnknownFlag(name)
  {
    var ext := ParseFlags(b.markdownExtensions, BitTable(ExtensionNames), OrEmpty(b.config.markdownExtensions));
    if ext.1.None? {
      var options := if b.config.markdownHTMLOptions.None? then DefaultHTMLOptions else b.config.markdownHTMLOptions.value;
      ParseFlagsFirstUnknown(b.markdownHTMLOptions, BitTable(HTMLOptionNames), options);
    }
  }
}
