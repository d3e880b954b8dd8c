/**
 * The cases of TestCreateURL (post_test.go) and TestSortedPosts
 * (blackblog_test.go), stated as lemmas about the model, together with the
 * three posts on which Less goes round in a circle.
 */
module PostExamples {
  import opened Wrappers
  import opened Strs
  import opened Posts

  /**
   * time.Parse on the dates the examples use: each is accepted by exactly the
   * layout it is written in, and every other input is rejected.
   */
  const ExampleDates: map<(string, string), Date> := map[
    ("_2 January 2006", "25 January 2012") := Date(2012, 1, 25),
    ("_2 January 2006", "12 December 2012") := Date(2012, 12, 12),
    ("_2 January 2006", "1 January 2012") := Date(2012, 1, 1),
    ("_2 January 2006", "4 April 2012") := Date(2012, 4, 4),
    ("January _2, 2006", "March 3, 2012") := Date(2012, 3, 3),
    ("_2 January 2006", "6 January 2012") := Date(2012, 1, 6),
    ("_2 January 2006", "1 October 2012") := Date(2012, 10, 1),
    ("_2 January 2006", "15 September 2012") := Date(2012, 9, 15),
    ("_2 January 2006", "18 January 2012") := Date(2012, 1, 18),
    ("_2 January 2006", "7 February 2011") := Date(2011, 2, 7)]

  /** An environment whose time.Parse knows the example dates; MD5 is left open. */
  function ExampleEnv(md5: string -> Digest): Env {
    Env(md5, (layout, input) => if (layout, input) in ExampleDates then Some(ExampleDates[(layout, input)]) else None)
  }

  // ---------------------------------------------------------------------------
  // TestCreateURL, undated cases: they hold whatever time.Parse does

  lemma {:induction false} FileNameURL(env: Env, p: Post)
    requires p.urlFragment == "" && p.title == "" && p.date == ""
    requires p.filename == "/some/test/test_post.md"
    ensures CreateURL(env, p) == "test_post.html"
  {
    var base := StemTestPost(p.filename);
    var lower := LowerTestPost(base);
    UndatedURL(env, p, base, lower);
  }

  lemma {:induction false} TitleURL(env: Env, p: Post)
    requires p.urlFragment == "" && p.title == "Test tEsT TEST" && p.date == ""
    ensures CreateURL(env, p) == "test_test_test.html"
  {
    var base := SlugTestTitle(p.title);
    var lower := LowerTestTitle(base);
    UndatedURL(env, p, base, lower);
  }

  lemma {:induction false} FragmentURL(env: Env, p: Post)
    requires p.urlFragment == "foobar" && p.date == ""
    ensures CreateURL(env, p) == "foobar.html"
  {
    var lower := LowerFoobar(p.urlFragment);
    UndatedURL(env, p, p.urlFragment, lower);
  }

  // ---------------------------------------------------------------------------
  // TestCreateURL, dated cases, under the example time.Parse

  lemma {:induction false} DatedFragmentURL(md5: string -> Digest, p: Post)
    requires p.urlFragment == "test" && p.date == "25 January 2012"
    ensures CreateURL(ExampleEnv(md5), p) == "2012/1/test.html"
  {
    assert "2012/1/" + "test.html" == "2012/1/test.html";
    var d, y, m := ParsedJanuary25(md5, p.date);
    var lower := LowerTest(p.urlFragment);
    DatedURL(ExampleEnv(md5), p, d, p.urlFragment, lower, y, m);
  }

  lemma {:induction false} DottedFragmentURL(md5: string -> Digest, p: Post)
    requires p.urlFragment == "test.html" && p.date == "12 December 2012"
    ensures CreateURL(ExampleEnv(md5), p) == "2012/12/test.html.html"
  {
    assert "2012/12/" + "test.html.html" == "2012/12/test.html.html";
    var d, y, m := ParsedDecember12(md5, p.date);
    var lower := LowerTestHtml(p.urlFragment);
    DatedURL(ExampleEnv(md5), p, d, p.urlFragment, lower, y, m);
  }

  lemma {:induction false} DatedTitleURL(md5: string -> Digest, p: Post)
    requires p.urlFragment == "" && p.title == "Foobar" && p.date == "1 January 2012"
    ensures CreateURL(ExampleEnv(md5), p) == "2012/1/foobar.html"
  {
    assert "2012/1/" + "foobar.html" == "2012/1/foobar.html";
    var d, y, m := ParsedJanuary1(md5, p.date);
    var base := SlugFoobarTitle(p.title);
    var lower := LowerFoobarTitle(base);
    DatedURL(ExampleEnv(md5), p, d, base, lower, y, m);
  }

  lemma {:induction false} SpacedTitleURL(md5: string -> Digest, p: Post)
    requires p.urlFragment == "" && p.title == "Some Post" && p.date == "4 April 2012"
    ensures CreateURL(ExampleEnv(md5), p) == "2012/4/some_post.html"
  {
    assert "2012/4/" + "some_post.html" == "2012/4/some_post.html";
    var d, y, m := ParsedApril4(md5, p.date);
    var base := SlugSomePost(p.title);
    var lower := LowerSomePost(base);
    DatedURL(ExampleEnv(md5), p, d, base, lower, y, m);
  }

  lemma {:induction false} DatedFileNameURL(md5: string -> Digest, p: Post)
    requires p.urlFragment == "" && p.title == "" && p.filename == "some/path/a_post.md"
    requires p.date == "March 3, 2012"
    ensures CreateURL(ExampleEnv(md5), p) == "2012/3/a_post.html"
  {
    assert "2012/3/" + "a_post.html" == "2012/3/a_post.html";
    var d, y, m := ParsedMarch3(md5, p.date);
    var base := StemAPost(p.filename);
    var lower := LowerAPost(base);
    DatedURL(ExampleEnv(md5), p, d, base, lower, y, m);
  }

  // ---------------------------------------------------------------------------
  // TestSortedPosts: the order sort.Sort must produce, and its reverse

  /** Every post of `s` comes before every later one. */
  predicate Ascending(env: Env, s: seq<Post>) {
    forall i, j :: 0 <= i < j < |s| ==> Less(env, s[i], s[j])
  }

  /**
   * The six posts of TestSortedPosts, listed in the order the test expects after
   * sort.Sort: each comes before every later one and after none of them, so it is
   * the only order a correct sort can produce. Read backwards it is the order
   * sort.Reverse must produce.
   */
  lemma {:induction false} SortedPostsOrder(md5: string -> Digest,
                                            test: Post, bTest: Post, cTest: Post, aardvark: Post, amazing: Post, alpha: Post)
    requires test.urlFragment == "test" && test.date == "7 February 2011"
    requires bTest.urlFragment == "b_test" && bTest.date == "6 January 2012"
    requires cTest.urlFragment == "c_test" && cTest.date == "18 January 2012"
    requires aardvark.urlFragment == "aardvark" && aardvark.date == "15 September 2012"
    requires amazing.urlFragment == "amazing" && amazing.date == "1 October 2012"
    requires alpha.urlFragment == "alpha" && alpha.date == ""
    ensures var env := ExampleEnv(md5);
            && CreateURL(env, test) == "2011/2/test.html"
            && CreateURL(env, bTest) == "2012/1/b_test.html"
            && CreateURL(env, cTest) == "2012/1/c_test.html"
            && CreateURL(env, aardvark) == "2012/9/aardvark.html"
            && CreateURL(env, amazing) == "2012/10/amazing.html"
            && CreateURL(env, alpha) == "alpha.html"
    ensures var sorted := [test, bTest, cTest, aardvark, amazing, alpha];
            && Ascending(ExampleEnv(md5), sorted)
            && forall i, j :: 0 <= i < j < |sorted| ==> !Less(ExampleEnv(md5), sorted[j], sorted[i])
    ensures var reversed := [alpha, amazing, aardvark, cTest, bTest, test];
            forall i, j :: 0 <= i < j < |reversed| ==> Less(ExampleEnv(md5), reversed[j], reversed[i])
  {
    DigitsBeforeAlpha();
    var env := ExampleEnv(md5);
    SortedTest(md5, test);
    SortedBTest(md5, bTest);
    SortedCTest(md5, cTest);
    SortedAardvark(md5, aardvark);
    SortedAmazing(md5, amazing);
    SortedAlpha(md5, alpha);
    LessByDate(env, test, bTest);
    LessByDate(env, test, cTest);
    LessByDate(env, test, aardvark);
    LessByDate(env, test, amazing);
    LessByDate(env, bTest, cTest);
    LessByDate(env, bTest, aardvark);
    LessByDate(env, bTest, amazing);
    LessByDate(env, cTest, aardvark);
    LessByDate(env, cTest, amazing);
    LessByDate(env, aardvark, amazing);
    LessByURL(env, test, alpha, "2011/2/test.html", "alpha.html");
    LessByURL(env, bTest, alpha, "2012/1/b_test.html", "alpha.html");
    LessByURL(env, cTest, alpha, "2012/1/c_test.html", "alpha.html");
    LessByURL(env, aardvark, alpha, "2012/9/aardvark.html", "alpha.html");
    LessByURL(env, amazing, alpha, "2012/10/amazing.html", "alpha.html");
    AscendingSix(env, test, bTest, cTest, aardvark, amazing, alpha);
  }

  /** The dated URLs, which start with a digit, sort before "alpha.html". */
  lemma {:induction false} DigitsBeforeAlpha()
    ensures StrLess("2011/2/test.html", "alpha.html") && StrLess("2012/1/b_test.html", "alpha.html")
    ensures StrLess("2012/1/c_test.html", "alpha.html") && StrLess("2012/9/aardvark.html", "alpha.html")
    ensures StrLess("2012/10/amazing.html", "alpha.html")
  {
  }

  /** Six posts whose fifteen pairs are in order are ascending, and no pair is out of order. */
  lemma {:induction false} AscendingSix(env: Env, p0: Post, p1: Post, p2: Post, p3: Post, p4: Post, p5: Post)
    requires Less(env, p0, p1) && Less(env, p0, p2) && Less(env, p0, p3) && Less(env, p0, p4) && Less(env, p0, p5)
    requires Less(env, p1, p2) && Less(env, p1, p3) && Less(env, p1, p4) && Less(env, p1, p5)
    requires Less(env, p2, p3) && Less(env, p2, p4) && Less(env, p2, p5)
    requires Less(env, p3, p4) && Less(env, p3, p5)
    requires Less(env, p4, p5)
    ensures var s := [p0, p1, p2, p3, p4, p5];
            Ascending(env, s) && forall i, j :: 0 <= i < j < |s| ==> !Less(env, s[j], s[i])
    ensures var r := [p5, p4, p3, p2, p1, p0];
            forall i, j :: 0 <= i < j < |r| ==> Less(env, r[j], r[i])
  {
    AscendingPairs(env, p0, p1, p2, p3, p4, p5);
    var s := [p0, p1, p2, p3, p4, p5];
    var r := [p5, p4, p3, p2, p1, p0];
    forall i, j | 0 <= i < j < |r|
      ensures Less(env, r[j], r[i])
    {
      assert r[i] == s[5 - i] && r[j] == s[5 - j];
    }
  }

  lemma {:induction false} AscendingPairs(env: Env, p0: Post, p1: Post, p2: Post, p3: Post, p4: Post, p5: Post)
    requires Less(env, p0, p1) && Less(env, p0, p2) && Less(env, p0, p3) && Less(env, p0, p4) && Less(env, p0, p5)
    requires Less(env, p1, p2) && Less(env, p1, p3) && Less(env, p1, p4) && Less(env, p1, p5)
    requires Less(env, p2, p3) && Less(env, p2, p4) && Less(env, p2, p5)
    requires Less(env, p3, p4) && Less(env, p3, p5)
    requires Less(env, p4, p5)
    ensures var s := [p0, p1, p2, p3, p4, p5];
            Ascending(env, s) && forall i, j :: 0 <= i < j < |s| ==> !Less(env, s[j], s[i])
  {
    LessAsymmetric(env, p0, p1); LessAsymmetric(env, p0, p2); LessAsymmetric(env, p0, p3);
    LessAsymmetric(env, p0, p4); LessAsymmetric(env, p0, p5); LessAsymmetric(env, p1, p2);
    LessAsymmetric(env, p1, p3); LessAsymmetric(env, p1, p4); LessAsymmetric(env, p1, p5);
    LessAsymmetric(env, p2, p3); LessAsymmetric(env, p2, p4); LessAsymmetric(env, p2, p5);
    LessAsymmetric(env, p3, p4); LessAsymmetric(env, p3, p5); LessAsymmetric(env, p4, p5);
    var s := [p0, p1, p2, p3, p4, p5];
    forall i, j | 0 <= i < j < |s|
      ensures Less(env, s[i], s[j]) && !Less(env, s[j], s[i])
    {
      if i == 0 {
        assert j == 1 || j == 2 || j == 3 || j == 4 || j == 5;
      } else if i == 1 {
        assert j == 2 || j == 3 || j == 4 || j == 5;
      } else if i == 2 {
        assert j == 3 || j == 4 || j == 5;
      } else if i == 3 {
        assert j == 4 || j == 5;
      }
    }
  }

  /** Two dated posts are ordered by their dates. */
  lemma {:induction false} LessByDate(env: Env, a: Post, b: Post)
    requires Dated(env, a) && Dated(env, b) && Before(ParseDate(env, a.date), ParseDate(env, b.date))
    ensures Less(env, a, b)
  {
  }

  /** When either post is undated, the two are ordered by their URLs. */
  lemma {:induction false} LessByURL(env: Env, a: Post, b: Post, ua: string, ub: string)
    requires !Dated(env, a) || !Dated(env, b)
    requires CreateURL(env, a) == ua && CreateURL(env, b) == ub && StrLess(ua, ub)
    ensures Less(env, a, b)
  {
  }

  // ---------------------------------------------------------------------------
  // Less is not transitive once dated and undated posts are mixed

  /**
   * A post dated September 2012, one dated October 2012, and an undated one
   * whose URL fragment is "2012/5": the first comes before the second by date,
   * the second before the third by URL ("2012/10/a.html" < "2012/5.html"), and
   * the third before the first by URL ("2012/5.html" < "2012/9/z.html").
   */
  lemma {:induction false} LessCycle(md5: string -> Digest, z: Post, a: Post, u: Post)
    requires z.urlFragment == "z" && z.date == "15 September 2012"
    requires a.urlFragment == "a" && a.date == "1 October 2012"
    requires u.urlFragment == "2012/5" && u.date == ""
    ensures Less(ExampleEnv(md5), z, a) && Less(ExampleEnv(md5), a, u) && Less(ExampleEnv(md5), u, z)
    ensures !Less(ExampleEnv(md5), z, u)
  {
    var ua, uu, uz := CycleURLs();
    var env := ExampleEnv(md5);
    CycleZ(md5, z);
    CycleA(md5, a);
    CycleU(md5, u);
    LessByDate(env, z, a);
    LessByURL(env, a, u, ua, uu);
    LessByURL(env, u, z, uu, uz);
    LessAsymmetric(env, u, z);
  }

  /** The three URLs of the cycle, in the order StrLess puts them. */
  lemma {:induction false} CycleURLs() returns (ua: string, uu: string, uz: string)
    ensures ua == "2012/10/a.html" && uu == "2012/5.html" && uz == "2012/9/z.html"
    ensures StrLess(ua, uu) && StrLess(uu, uz)
  {
    ua, uu, uz := "2012/10/a.html", "2012/5.html", "2012/9/z.html";
    assert ua[..5] == uu[..5] == uz[..5];
    StrLessAt(ua, uu, 5);
    StrLessAt(uu, uz, 5);
  }

  /** Strings that agree before position k and differ at k are ordered by their characters at k. */
  lemma {:induction false} StrLessAt(a: string, b: string, k: nat)
    requires k < |a| && k < |b| && a[..k] == b[..k] && a[k] < b[k]
    ensures StrLess(a, b)
    decreases k
  {
    if k > 0 {
      assert a[0] == a[..k][0] == b[..k][0] == b[0];
      assert a[1..][..k - 1] == a[..k][1..];
      assert b[1..][..k - 1] == b[..k][1..];
      StrLessAt(a[1..], b[1..], k - 1);
    }
  }

  lemma {:induction false} SortedTest(md5: string -> Digest, p: Post)
    requires p.urlFragment == "test" && p.date == "7 February 2011"
    ensures CreateURL(ExampleEnv(md5), p) == "2011/2/test.html"
    ensures ParseDate(ExampleEnv(md5), p.date) == Date(2011, 2, 7)
  {
    assert "2011/2/" + "test.html" == "2011/2/test.html";
    var d, y, m := ParsedFebruary7(md5, p.date);
    var lower := LowerTest(p.urlFragment);
    DatedURL(ExampleEnv(md5), p, d, p.urlFragment, lower, y, m);
  }

  lemma {:induction false} SortedBTest(md5: string -> Digest, p: Post)
    requires p.urlFragment == "b_test" && p.date == "6 January 2012"
    ensures CreateURL(ExampleEnv(md5), p) == "2012/1/b_test.html"
    ensures ParseDate(ExampleEnv(md5), p.date) == Date(2012, 1, 6)
  {
    assert "2012/1/" + "b_test.html" == "2012/1/b_test.html";
    var d, y, m := ParsedJanuary6(md5, p.date);
    var lower := LowerBTest(p.urlFragment);
    DatedURL(ExampleEnv(md5), p, d, p.urlFragment, lower, y, m);
  }

  lemma {:induction false} SortedCTest(md5: string -> Digest, p: Post)
    requires p.urlFragment == "c_test" && p.date == "18 January 2012"
    ensures CreateURL(ExampleEnv(md5), p) == "2012/1/c_test.html"
    ensures ParseDate(ExampleEnv(md5), p.date) == Date(2012, 1, 18)
  {
    assert "2012/1/" + "c_test.html" == "2012/1/c_test.html";
    var d, y, m := ParsedJanuary18(md5, p.date);
    var lower := LowerCTest(p.urlFragment);
    DatedURL(ExampleEnv(md5), p, d, p.urlFragment, lower, y, m);
  }

  lemma {:induction false} SortedAardvark(md5: string -> Digest, p: Post)
    requires p.urlFragment == "aardvark" && p.date == "15 September 2012"
    ensures CreateURL(ExampleEnv(md5), p) == "2012/9/aardvark.html"
    ensures ParseDate(ExampleEnv(md5), p.date) == Date(2012, 9, 15)
  {
    assert "2012/9/" + "aardvark.html" == "2012/9/aardvark.html";
    var d, y, m := ParsedSeptember15(md5, p.date);
    var lower := LowerAardvark(p.urlFragment);
    DatedURL(ExampleEnv(md5), p, d, p.urlFragment, lower, y, m);
  }

  lemma {:induction false} SortedAmazing(md5: string -> Digest, p: Post)
    requires p.urlFragment == "amazing" && p.date == "1 October 2012"
    ensures CreateURL(ExampleEnv(md5), p) == "2012/10/amazing.html"
    ensures ParseDate(ExampleEnv(md5), p.date) == Date(2012, 10, 1)
  {
    assert "2012/10/" + "amazing.html" == "2012/10/amazing.html";
    var d, y, m := ParsedOctober1(md5, p.date);
    var lower := LowerAmazing(p.urlFragment);
    DatedURL(ExampleEnv(md5), p, d, p.urlFragment, lower, y, m);
  }

  lemma {:induction false} CycleZ(md5: string -> Digest, p: Post)
    requires p.urlFragment == "z" && p.date == "15 September 2012"
    ensures CreateURL(ExampleEnv(md5), p) == "2012/9/z.html"
    ensures ParseDate(ExampleEnv(md5), p.date) == Date(2012, 9, 15)
  {
    assert "2012/9/" + "z.html" == "2012/9/z.html";
    var d, y, m := ParsedSeptember15(md5, p.date);
    var lower := LowerZ(p.urlFragment);
    DatedURL(ExampleEnv(md5), p, d, p.urlFragment, lower, y, m);
  }

  lemma {:induction false} CycleA(md5: string -> Digest, p: Post)
    requires p.urlFragment == "a" && p.date == "1 October 2012"
    ensures CreateURL(ExampleEnv(md5), p) == "2012/10/a.html"
    ensures ParseDate(ExampleEnv(md5), p.date) == Date(2012, 10, 1)
  {
    assert "2012/10/" + "a.html" == "2012/10/a.html";
    var d, y, m := ParsedOctober1(md5, p.date);
    var lower := LowerA(p.urlFragment);
    DatedURL(ExampleEnv(md5), p, d, p.urlFragment, lower, y, m);
  }

  lemma {:induction false} SortedAlpha(md5: string -> Digest, p: Post)
    requires p.urlFragment == "alpha" && p.date == ""
    ensures CreateURL(ExampleEnv(md5), p) == "alpha.html"
    ensures IsZero(ParseDate(ExampleEnv(md5), p.date))
  {
    var lower := LowerAlpha(p.urlFragment);
    UndatedURL(ExampleEnv(md5), p, p.urlFragment, lower);
  }

  lemma {:induction false} CycleU(md5: string -> Digest, p: Post)
    requires p.urlFragment == "2012/5" && p.date == ""
    ensures CreateURL(ExampleEnv(md5), p) == "2012/5.html"
    ensures IsZero(ParseDate(ExampleEnv(md5), p.date))
  {
    var lower := LowerYearSlashFive(p.urlFragment);
    UndatedURL(ExampleEnv(md5), p, p.urlFragment, lower);
  }

  // ---------------------------------------------------------------------------
  // The steps the examples share

  /** An undated post whose lowered base name needs no suffix rule. */
  lemma {:induction false} UndatedURL(env: Env, p: Post, base: string, lower: string)
    requires p.date == "" && BaseName(p) == base && ToLower(base) == lower
    requires !HasSuffix(lower, "_") && !HasSuffix(lower, "/")
    ensures CreateURL(env, p) == lower + ".html"
  {
    LeafEndings(p);
  }

  /** A dated post whose base name has no '/' and whose lowered form needs no suffix rule. */
  lemma {:induction false} DatedURL(env: Env, p: Post, d: Date, base: string, lower: string, y: string, m: string)
    requires ParseDate(env, p.date) == d && !IsZero(d)
    requires BaseName(p) == base && '/' !in base && ToLower(base) == lower && !HasSuffix(lower, "_")
    requires IntToString(d.year) == y && NatToString(d.month) == m
    ensures CreateURL(env, p) == y + "/" + m + "/" + (lower + ".html")
  {
    assert lower == "" || lower[|lower| - 1] != '_' by {
      if lower != "" {
        assert lower[|lower| - 1..] == [lower[|lower| - 1]];
      }
    }
    LeafOfLowerBase(p, base, lower);
    CreateURLDated(env, p);
  }

  /** An example date, its parse under the example time.Parse, and its year and month as text. */
  lemma {:induction false} DatedText(md5: string -> Digest, input: string, d: Date, year: string, month: string)
    returns (r: Date, y: string, m: string)
    requires input != "" && ("2006-01-02", input) !in ExampleDates
    requires ("_2 January 2006", input) in ExampleDates ==> ExampleDates[("_2 January 2006", input)] == d
    requires ("_2 January 2006", input) !in ExampleDates ==>
               ("January _2, 2006", input) in ExampleDates && ExampleDates[("January _2, 2006", input)] == d
    requires d.year == 2012 || d.year == 2011
    requires |month| > 0 && (forall i :: 0 <= i < |month| ==> IsDigit(month[i])) && month[0] != '0'
    requires year == (if d.year == 2012 then "2012" else "2011") && DecimalValue(month) == d.month
    ensures r == d && ParseDate(ExampleEnv(md5), input) == r && !IsZero(r)
    ensures y == year && IntToString(r.year) == y && m == month && NatToString(r.month) == m
  {
    r, y, m := d, year, month;
    ParsedExample(md5, input, d);
    DateText(d, year, month);
  }

  /** time.Parse in the example environment: the first layout that knows the input. */
  lemma {:induction false} ParsedExample(md5: string -> Digest, input: string, d: Date)
    requires input != "" && ("2006-01-02", input) !in ExampleDates
    requires ("_2 January 2006", input) in ExampleDates ==> ExampleDates[("_2 January 2006", input)] == d
    requires ("_2 January 2006", input) !in ExampleDates ==>
               ("January _2, 2006", input) in ExampleDates && ExampleDates[("January _2, 2006", input)] == d
    ensures ParseDate(ExampleEnv(md5), input) == d
  {
    var env := ExampleEnv(md5);
    assert DateLayouts[1..][0] == "_2 January 2006";
    assert DateLayouts[1..][1..][0] == "January _2, 2006";
    assert ParseDate(env, input) == TryLayouts(env, DateLayouts[1..], input);
    if ("_2 January 2006", input) !in ExampleDates {
      assert TryLayouts(env, DateLayouts[1..], input) == TryLayouts(env, DateLayouts[1..][1..], input);
    }
  }

  /** The year and the month of an example date as decimal text. */
  lemma {:induction false} DateText(d: Date, year: string, month: string)
    requires d.year == 2012 || d.year == 2011
    requires |month| > 0 && (forall i :: 0 <= i < |month| ==> IsDigit(month[i])) && month[0] != '0'
    requires year == (if d.year == 2012 then "2012" else "2011") && DecimalValue(month) == d.month
    ensures !IsZero(d) && IntToString(d.year) == year && NatToString(d.month) == month
  {
    NatToStringUnique(month);
    if d.year == 2012 {
      assert IntToString(2012) == "2012";
    } else {
      assert IntToString(2011) == "2011";
    }
  }

  /** Lower-casing, checked character by character. */
  lemma {:induction false} LowerText(s: string, l: string) returns (r: string)
    requires |s| == |l| && forall i :: 0 <= i < |s| ==> LowerChar(s[i]) == l[i]
    requires l != "" && l[|l| - 1] != '_' && l[|l| - 1] != '/'
    ensures r == l && ToLower(s) == r && !HasSuffix(r, "_") && !HasSuffix(r, "/")
  {
    r := l;
  }

  /** Slug of a title, checked character by character; the result has no "__". */
  lemma {:induction false} SlugText(t: string, w: string) returns (r: string)
    requires |t| == |w| && forall i :: 0 <= i < |t| ==> (if IsWordChar(t[i]) then t[i] else '_') == w[i]
    requires forall i :: 0 <= i < |w| - 1 ==> !(w[i] == '_' && w[i + 1] == '_')
    requires forall i :: 0 <= i < |w| ==> w[i] != '/'
    ensures r == w && Slug(t) == r && '/' !in r
  {
    r := w;
    var x := ReplaceNonWord(t);
    assert forall i | 0 <= i < |t| :: x[i] == w[i];
    assert x == w;
    CollapseSingles(w);
  }

  /** The stem of "dir/stem.ext", which is the base name of a post with no fragment and no title. */
  lemma {:induction false} FileStemText(filename: string, dir: string, stem: string, ext: string) returns (r: string)
    requires dir == "" || dir[|dir| - 1] == '/'
    requires '/' !in stem && '.' !in ext && '/' !in ext
    requires filename == dir + stem + "." + ext
    ensures r == stem && FileStem(filename) == r && '/' !in r
  {
    r := stem;
    FileStemOf(dir, stem, ext);
  }

  /** A string with no two '_' in a row is left as it is by the collapse. */
  lemma {:induction false} CollapseSingles(s: string)
    requires forall i :: 0 <= i < |s| - 1 ==> !(s[i] == '_' && s[i + 1] == '_')
    ensures CollapseUnderscores(s) == s
    decreases |s|
  {
    if s != "" {
      CollapseSingles(s[1..]);
      if s[0] == '_' {
        assert DropUnderscores(s[1..]) == s[1..];
      }
    }
  }

  // ---------------------------------------------------------------------------
  // The literal strings of the examples, one fact per lemma

  lemma {:induction false} ParsedJanuary25(md5: string -> Digest, input: string) returns (r: Date, y: string, m: string)
    requires input == "25 January 2012"
    ensures r == Date(2012, 1, 25) && ParseDate(ExampleEnv(md5), input) == r && !IsZero(r)
    ensures y == "2012" && IntToString(r.year) == y && m == "1" && NatToString(r.month) == m
    ensures y + "/" + m + "/" == "2012/1/"
  {
    assert "2012" + "/" + "1" + "/" == "2012/1/";
    r, y, m := DatedText(md5, input, Date(2012, 1, 25), "2012", "1");
  }

  lemma {:induction false} ParsedDecember12(md5: string -> Digest, input: string) returns (r: Date, y: string, m: string)
    requires input == "12 December 2012"
    ensures r == Date(2012, 12, 12) && ParseDate(ExampleEnv(md5), input) == r && !IsZero(r)
    ensures y == "2012" && IntToString(r.year) == y && m == "12" && NatToString(r.month) == m
    ensures y + "/" + m + "/" == "2012/12/"
  {
    assert "2012" + "/" + "12" + "/" == "2012/12/";
    r, y, m := DatedText(md5, input, Date(2012, 12, 12), "2012", "12");
  }

  lemma {:induction false} ParsedJanuary1(md5: string -> Digest, input: string) returns (r: Date, y: string, m: string)
    requires input == "1 January 2012"
    ensures r == Date(2012, 1, 1) && ParseDate(ExampleEnv(md5), input) == r && !IsZero(r)
    ensures y == "2012" && IntToString(r.year) == y && m == "1" && NatToString(r.month) == m
    ensures y + "/" + m + "/" == "2012/1/"
  {
    assert "2012" + "/" + "1" + "/" == "2012/1/";
    r, y, m := DatedText(md5, input, Date(2012, 1, 1), "2012", "1");
  }

  lemma {:induction false} ParsedApril4(md5: string -> Digest, input: string) returns (r: Date, y: string, m: string)
    requires input == "4 April 2012"
    ensures r == Date(2012, 4, 4) && ParseDate(ExampleEnv(md5), input) == r && !IsZero(r)
    ensures y == "2012" && IntToString(r.year) == y && m == "4" && NatToString(r.month) == m
    ensures y + "/" + m + "/" == "2012/4/"
  {
    assert "2012" + "/" + "4" + "/" == "2012/4/";
    r, y, m := DatedText(md5, input, Date(2012, 4, 4), "2012", "4");
  }

  lemma {:induction false} ParsedMarch3(md5: string -> Digest, input: string) returns (r: Date, y: string, m: string)
    requires input == "March 3, 2012"
    ensures r == Date(2012, 3, 3) && ParseDate(ExampleEnv(md5), input) == r && !IsZero(r)
    ensures y == "2012" && IntToString(r.year) == y && m == "3" && NatToString(r.month) == m
    ensures y + "/" + m + "/" == "2012/3/"
  {
    assert "2012" + "/" + "3" + "/" == "2012/3/";
    r, y, m := DatedText(md5, input, Date(2012, 3, 3), "2012", "3");
  }

  lemma {:induction false} ParsedJanuary6(md5: string -> Digest, input: string) returns (r: Date, y: string, m: string)
    requires input == "6 January 2012"
    ensures r == Date(2012, 1, 6) && ParseDate(ExampleEnv(md5), input) == r && !IsZero(r)
    ensures y == "2012" && IntToString(r.year) == y && m == "1" && NatToString(r.month) == m
    ensures y + "/" + m + "/" == "2012/1/"
  {
    assert "2012" + "/" + "1" + "/" == "2012/1/";
    r, y, m := DatedText(md5, input, Date(2012, 1, 6), "2012", "1");
  }

  lemma {:induction false} ParsedOctober1(md5: string -> Digest, input: string) returns (r: Date, y: string, m: string)
    requires input == "1 October 2012"
    ensures r == Date(2012, 10, 1) && ParseDate(ExampleEnv(md5), input) == r && !IsZero(r)
    ensures y == "2012" && IntToString(r.year) == y && m == "10" && NatToString(r.month) == m
    ensures y + "/" + m + "/" == "2012/10/"
  {
    assert "2012" + "/" + "10" + "/" == "2012/10/";
    r, y, m := DatedText(md5, input, Date(2012, 10, 1), "2012", "10");
  }

  lemma {:induction false} ParsedSeptember15(md5: string -> Digest, input: string) returns (r: Date, y: string, m: string)
    requires input == "15 September 2012"
    ensures r == Date(2012, 9, 15) && ParseDate(ExampleEnv(md5), input) == r && !IsZero(r)
    ensures y == "2012" && IntToString(r.year) == y && m == "9" && NatToString(r.month) == m
    ensures y + "/" + m + "/" == "2012/9/"
  {
    assert "2012" + "/" + "9" + "/" == "2012/9/";
    r, y, m := DatedText(md5, input, Date(2012, 9, 15), "2012", "9");
  }

  lemma {:induction false} ParsedJanuary18(md5: string -> Digest, input: string) returns (r: Date, y: string, m: string)
    requires input == "18 January 2012"
    ensures r == Date(2012, 1, 18) && ParseDate(ExampleEnv(md5), input) == r && !IsZero(r)
    ensures y == "2012" && IntToString(r.year) == y && m == "1" && NatToString(r.month) == m
    ensures y + "/" + m + "/" == "2012/1/"
  {
    assert "2012" + "/" + "1" + "/" == "2012/1/";
    r, y, m := DatedText(md5, input, Date(2012, 1, 18), "2012", "1");
  }

  lemma {:induction false} ParsedFebruary7(md5: string -> Digest, input: string) returns (r: Date, y: string, m: string)
    requires input == "7 February 2011"
    ensures r == Date(2011, 2, 7) && ParseDate(ExampleEnv(md5), input) == r && !IsZero(r)
    ensures y == "2011" && IntToString(r.year) == y && m == "2" && NatToString(r.month) == m
    ensures y + "/" + m + "/" == "2011/2/"
  {
    assert "2011" + "/" + "2" + "/" == "2011/2/";
    r, y, m := DatedText(md5, input, Date(2011, 2, 7), "2011", "2");
  }

  lemma {:induction false} LowerTestTitle(s: string) returns (r: string)
    requires s == "Test_tEsT_TEST"
    ensures r == "test_test_test" && ToLower(s) == r && !HasSuffix(r, "_") && !HasSuffix(r, "/")
    ensures '/' !in s
    ensures r + ".html" == "test_test_test.html"
  {
    assert "test_test_test" + ".html" == "test_test_test.html";
    assert forall i | 0 <= i < |s| :: s[i] != '/';
    r := LowerText(s, "test_test_test");
  }

  lemma {:induction false} LowerFoobarTitle(s: string) returns (r: string)
    requires s == "Foobar"
    ensures r == "foobar" && ToLower(s) == r && !HasSuffix(r, "_") && !HasSuffix(r, "/")
    ensures '/' !in s
    ensures r + ".html" == "foobar.html"
  {
    assert "foobar" + ".html" == "foobar.html";
    assert forall i | 0 <= i < |s| :: s[i] != '/';
    r := LowerText(s, "foobar");
  }

  lemma {:induction false} LowerSomePost(s: string) returns (r: string)
    requires s == "Some_Post"
    ensures r == "some_post" && ToLower(s) == r && !HasSuffix(r, "_") && !HasSuffix(r, "/")
    ensures '/' !in s
    ensures r + ".html" == "some_post.html"
  {
    assert "some_post" + ".html" == "some_post.html";
    assert forall i | 0 <= i < |s| :: s[i] != '/';
    r := LowerText(s, "some_post");
  }

  lemma {:induction false} LowerTestPost(s: string) returns (r: string)
    requires s == "test_post"
    ensures r == "test_post" && ToLower(s) == r && !HasSuffix(r, "_") && !HasSuffix(r, "/")
    ensures '/' !in s
    ensures r + ".html" == "test_post.html"
  {
    assert "test_post" + ".html" == "test_post.html";
    assert forall i | 0 <= i < |s| :: s[i] != '/';
    r := LowerText(s, "test_post");
  }

  lemma {:induction false} LowerAPost(s: string) returns (r: string)
    requires s == "a_post"
    ensures r == "a_post" && ToLower(s) == r && !HasSuffix(r, "_") && !HasSuffix(r, "/")
    ensures '/' !in s
    ensures r + ".html" == "a_post.html"
  {
    assert "a_post" + ".html" == "a_post.html";
    assert forall i | 0 <= i < |s| :: s[i] != '/';
    r := LowerText(s, "a_post");
  }

  lemma {:induction false} LowerFoobar(s: string) returns (r: string)
    requires s == "foobar"
    ensures r == "foobar" && ToLower(s) == r && !HasSuffix(r, "_") && !HasSuffix(r, "/")
    ensures '/' !in s
    ensures r + ".html" == "foobar.html"
  {
    assert "foobar" + ".html" == "foobar.html";
    assert forall i | 0 <= i < |s| :: s[i] != '/';
    r := LowerText(s, "foobar");
  }

  lemma {:induction false} LowerTest(s: string) returns (r: string)
    requires s == "test"
    ensures r == "test" && ToLower(s) == r && !HasSuffix(r, "_") && !HasSuffix(r, "/")
    ensures '/' !in s
    ensures r + ".html" == "test.html"
  {
    assert "test" + ".html" == "test.html";
    assert forall i | 0 <= i < |s| :: s[i] != '/';
    r := LowerText(s, "test");
  }

  lemma {:induction false} LowerTestHtml(s: string) returns (r: string)
    requires s == "test.html"
    ensures r == "test.html" && ToLower(s) == r && !HasSuffix(r, "_") && !HasSuffix(r, "/")
    ensures '/' !in s
    ensures r + ".html" == "test.html.html"
  {
    assert "test.html" + ".html" == "test.html.html";
    assert forall i | 0 <= i < |s| :: s[i] != '/';
    r := LowerText(s, "test.html");
  }

  lemma {:induction false} LowerBTest(s: string) returns (r: string)
    requires s == "b_test"
    ensures r == "b_test" && ToLower(s) == r && !HasSuffix(r, "_") && !HasSuffix(r, "/")
    ensures '/' !in s
    ensures r + ".html" == "b_test.html"
  {
    assert "b_test" + ".html" == "b_test.html";
    assert forall i | 0 <= i < |s| :: s[i] != '/';
    r := LowerText(s, "b_test");
  }

  lemma {:induction false} LowerAmazing(s: string) returns (r: string)
    requires s == "amazing"
    ensures r == "amazing" && ToLower(s) == r && !HasSuffix(r, "_") && !HasSuffix(r, "/")
    ensures '/' !in s
    ensures r + ".html" == "amazing.html"
  {
    assert "amazing" + ".html" == "amazing.html";
    assert forall i | 0 <= i < |s| :: s[i] != '/';
    r := LowerText(s, "amazing");
  }

  lemma {:induction false} LowerAardvark(s: string) returns (r: string)
    requires s == "aardvark"
    ensures r == "aardvark" && ToLower(s) == r && !HasSuffix(r, "_") && !HasSuffix(r, "/")
    ensures '/' !in s
    ensures r + ".html" == "aardvark.html"
  {
    assert "aardvark" + ".html" == "aardvark.html";
    assert forall i | 0 <= i < |s| :: s[i] != '/';
    r := LowerText(s, "aardvark");
  }

  lemma {:induction false} LowerCTest(s: string) returns (r: string)
    requires s == "c_test"
    ensures r == "c_test" && ToLower(s) == r && !HasSuffix(r, "_") && !HasSuffix(r, "/")
    ensures '/' !in s
    ensures r + ".html" == "c_test.html"
  {
    assert "c_test" + ".html" == "c_test.html";
    assert forall i | 0 <= i < |s| :: s[i] != '/';
    r := LowerText(s, "c_test");
  }

  lemma {:induction false} LowerAlpha(s: string) returns (r: string)
    requires s == "alpha"
    ensures r == "alpha" && ToLower(s) == r && !HasSuffix(r, "_") && !HasSuffix(r, "/")
    ensures '/' !in s
    ensures r + ".html" == "alpha.html"
  {
    assert "alpha" + ".html" == "alpha.html";
    assert forall i | 0 <= i < |s| :: s[i] != '/';
    r := LowerText(s, "alpha");
  }

  lemma {:induction false} LowerZ(s: string) returns (r: string)
    requires s == "z"
    ensures r == "z" && ToLower(s) == r && !HasSuffix(r, "_") && !HasSuffix(r, "/")
    ensures '/' !in s
    ensures r + ".html" == "z.html"
  {
    assert "z" + ".html" == "z.html";
    assert forall i | 0 <= i < |s| :: s[i] != '/';
    r := LowerText(s, "z");
  }

  lemma {:induction false} LowerA(s: string) returns (r: string)
    requires s == "a"
    ensures r == "a" && ToLower(s) == r && !HasSuffix(r, "_") && !HasSuffix(r, "/")
    ensures '/' !in s
    ensures r + ".html" == "a.html"
  {
    assert "a" + ".html" == "a.html";
    assert forall i | 0 <= i < |s| :: s[i] != '/';
    r := LowerText(s, "a");
  }

  lemma {:induction false} LowerYearSlashFive(s: string) returns (r: string)
    requires s == "2012/5"
    ensures r == "2012/5" && ToLower(s) == r && !HasSuffix(r, "_") && !HasSuffix(r, "/")
    ensures r + ".html" == "2012/5.html"
  {
    assert "2012/5" + ".html" == "2012/5.html";
    r := LowerText(s, "2012/5");
  }

  lemma {:induction false} SlugTestTitle(t: string) returns (r: string)
    requires t == "Test tEsT TEST"
    ensures r == "Test_tEsT_TEST" && Slug(t) == r && '/' !in r
  {
    r := SlugText(t, "Test_tEsT_TEST");
  }

  lemma {:induction false} SlugFoobarTitle(t: string) returns (r: string)
    requires t == "Foobar"
    ensures r == "Foobar" && Slug(t) == r && '/' !in r
  {
    r := SlugText(t, "Foobar");
  }

  lemma {:induction false} SlugSomePost(t: string) returns (r: string)
    requires t == "Some Post"
    ensures r == "Some_Post" && Slug(t) == r && '/' !in r
  {
    r := SlugText(t, "Some_Post");
  }

  lemma {:induction false} StemTestPost(filename: string) returns (r: string)
    requires filename == "/some/test/test_post.md"
    ensures r == "test_post" && FileStem(filename) == r && '/' !in r
  {
    r := FileStemText(filename, "/some/test/", "test_post", "md");
  }

  lemma {:induction false} StemAPost(filename: string) returns (r: string)
    requires filename == "some/path/a_post.md"
    ensures r == "a_post" && FileStem(filename) == r && '/' !in r
  {
    r := FileStemText(filename, "some/path/", "a_post", "md");
  }
}
