/**
 * The handful of Go `strings` and `strconv` operations the blog core relies on,
 * restated over `string` (a sequence of Unicode scalar values).
 */
module Strs {

  /** True when `s` ends with `suffix` (strings.HasSuffix). */
  predicate HasSuffix(s: string, suffix: string) {
    |suffix| <= |s| && s[|s| - |suffix|..] == suffix
  }

  /** A suffix of a suffix is a suffix. */
  lemma {:induction false} SuffixTrans(s: string, x: string, t: string)
    requires HasSuffix(s, x) && HasSuffix(x, t)
    ensures HasSuffix(s, t)
  {
    assert s[|s| - |t|..] == s[|s| - |x|..][|x| - |t|..];
  }

  /** Index of the first occurrence of `c` in `s` (strings.IndexByte). */
  function FirstIndex(s: string, c: char): (i: nat)
    requires c in s
    ensures i < |s| && s[i] == c
    ensures c !in s[..i]
  {
    if s[0] == c then 0 else FirstIndex(s[1..], c) + 1
  }

  /** `s` repeated `n` times (strings.Repeat). */
  function Repeat(s: string, n: nat): string
  {
    if n == 0 then "" else s + Repeat(s, n - 1)
  }

  lemma {:induction false} RepeatLength(s: string, n: nat)
    ensures |Repeat(s, n)| == n * |s|
  {
    if n > 0 {
      RepeatLength(s, n - 1);
    }
  }

  lemma {:induction false} RepeatAdd(s: string, a: nat, b: nat)
    ensures Repeat(s, a + b) == Repeat(s, a) + Repeat(s, b)
  {
    if a > 0 {
      RepeatAdd(s, a - 1, b);
    }
  }

  /** The pieces of `parts` separated by single `sep` characters (strings.Join). */
  function JoinWith(parts: seq<string>, sep: char): string
  {
    if |parts| == 0 then ""
    else if |parts| == 1 then parts[0]
    else parts[0] + [sep] + JoinWith(parts[1..], sep)
  }

  /**
   * strings.Split with a one-character separator: never empty, no piece holds the
   * separator, and joining the pieces back gives the input.
   */
  function Split(s: string, sep: char): (parts: seq<string>)
    ensures |parts| >= 1
    ensures forall i :: 0 <= i < |parts| ==> sep !in parts[i]
    ensures JoinWith(parts, sep) == s
    decreases |s|
  {
    if sep !in s then [s]
    else
      var i := FirstIndex(s, sep);
      assert s == s[..i] + [sep] + s[i + 1..];
      [s[..i]] + Split(s[i + 1..], sep)
  }

  lemma {:induction false} FirstIndexAfter(a: string, c: char, t: string)
    requires c !in a
    ensures FirstIndex(a + [c] + t, c) == |a|
  {
    if a != "" {
      assert (a + [c] + t)[1..] == a[1..] + [c] + t;
      FirstIndexAfter(a[1..], c, t);
    }
  }

  lemma {:induction false} FirstIndexWithin(a: string, c: char, t: string)
    requires c in a
    ensures FirstIndex(a + t, c) == FirstIndex(a, c)
  {
    if a[0] != c {
      assert (a + t)[1..] == a[1..] + t;
      FirstIndexWithin(a[1..], c, t);
    }
  }

  /** Splitting a join of separator-free pieces gives the pieces back. */
  lemma {:induction false} SplitJoin(parts: seq<string>, sep: char)
    requires |parts| >= 1
    requires forall i :: 0 <= i < |parts| ==> sep !in parts[i]
    ensures Split(JoinWith(parts, sep), sep) == parts
  {
    if |parts| > 1 {
      var rest := JoinWith(parts[1..], sep);
      var s := parts[0] + [sep] + rest;
      assert JoinWith(parts, sep) == s;
      assert s[|parts[0]|] == sep;
      FirstIndexAfter(parts[0], sep, rest);
      assert s[..|parts[0]|] == parts[0];
      assert s[|parts[0]| + 1..] == rest;
      SplitJoin(parts[1..], sep);
      assert Split(s, sep) == [parts[0]] + Split(rest, sep);
    }
  }

  /** Splitting `a + [sep] + b` when `b` has no separator appends `b` to the pieces of `a`. */
  lemma {:induction false} SplitAppend(a: string, sep: char, b: string)
    requires sep !in b
    ensures Split(a + [sep] + b, sep) == Split(a, sep) + [b]
    decreases |a|
  {
    if sep !in a {
      SplitAppendLast(a, sep, b);
      SplitWhole(a, sep);
    } else {
      var j := FirstIndex(a, sep);
      var rest := a[j + 1..];
      SplitAppendStep(a, sep, b, j);
      SplitAppend(rest, sep, b);
      SplitAt(a, sep, j);
      ConcatAssoc([a[..j]], Split(rest, sep), [b]);
    }
  }

  lemma {:induction false} ConcatAssoc<T>(x: seq<T>, y: seq<T>, z: seq<T>)
    ensures x + (y + z) == (x + y) + z
  {
  }

  lemma {:induction false} SplitWhole(s: string, sep: char)
    requires sep !in s
    ensures Split(s, sep) == [s]
  {
  }

  lemma {:induction false} SplitAppendLast(a: string, sep: char, b: string)
    requires sep !in a && sep !in b
    ensures Split(a + [sep] + b, sep) == [a, b]
  {
    var s := a + [sep] + b;
    FirstIndexAfter(a, sep, b);
    SplitAt(s, sep, |a|);
    assert s[..|a|] == a;
    assert s[|a| + 1..] == b;
  }

  lemma {:induction false} SplitAppendStep(a: string, sep: char, b: string, j: nat)
    requires sep in a && j == FirstIndex(a, sep)
    ensures Split(a + [sep] + b, sep) == [a[..j]] + Split(a[j + 1..] + [sep] + b, sep)
  {
    var s := a + [sep] + b;
    FirstIndexWithin(a, sep, [sep] + b);
    assert s == a + ([sep] + b);
    SplitAt(s, sep, j);
    assert s[..j] == a[..j];
    assert s[j + 1..] == a[j + 1..] + [sep] + b;
  }

  /** One step of Split: the piece before the first separator, then the pieces after it. */
  lemma {:induction false} SplitAt(s: string, sep: char, j: nat)
    requires sep in s && j == FirstIndex(s, sep)
    ensures Split(s, sep) == [s[..j]] + Split(s[j + 1..], sep)
  {
  }



  function Last<T>(s: seq<T>): T
    requires |s| > 0
  {
    s[|s| - 1]
  }

  lemma {:induction false} LastOfCons<T>(x: T, t: seq<T>)
    requires |t| > 0
    ensures Last([x] + t) == Last(t)
  {
  }

  /** A non-empty sequence is its front followed by its last element. */
  lemma {:induction false} FrontAndLast<T>(s: seq<T>, x: T)
    requires |s| > 0 && x == Last(s)
    ensures s[..|s| - 1] + [x] == s
  {
  }

  /** The text after the last `c` in `s`, or all of `s` when `c` does not occur. */
  function AfterLast(s: string, c: char): (r: string)
    ensures c !in r
    ensures HasSuffix(s, r)
    decreases |s|
  {
    if c !in s then s
    else
      var i := FirstIndex(s, c);
      var r := AfterLast(s[i + 1..], c);
      assert s[|s| - |r|..] == s[i + 1..][|s[i + 1..]| - |r|..];
      r
  }

  /** The last piece of a split is the text after the last separator. */
  lemma {:induction false} AfterLastNone(s: string, c: char)
    requires c !in s
    ensures AfterLast(s, c) == s
  {
  }

  lemma {:induction false} LastSplitIsAfterLast(s: string, c: char)
    ensures Last(Split(s, c)) == AfterLast(s, c)
    decreases |s|
  {
    if c in s {
      var i := FirstIndex(s, c);
      SplitAt(s, c, i);
      LastOfCons(s[..i], Split(s[i + 1..], c));
      LastSplitIsAfterLast(s[i + 1..], c);
    }
  }

  /** Go's unicode.IsSpace: the Latin-1 spaces plus the Unicode White_Space characters. */
  predicate IsSpace(c: char) {
    c == ' ' || c == '\t' || c == '\n' || c == '\U{0B}' || c == '\U{0C}' || c == '\r'
    || c == '\U{85}' || c == '\U{A0}' || c == '\U{1680}'
    || ('\U{2000}' <= c <= '\U{200A}') || c == '\U{2028}' || c == '\U{2029}'
    || c == '\U{202F}' || c == '\U{205F}' || c == '\U{3000}'
  }

  predicate AllSpace(s: string) {
    forall i {:trigger IsSpace(s[i])} :: 0 <= i < |s| ==> IsSpace(s[i])
  }

  function TrimLeft(s: string): (r: string)
    ensures HasSuffix(s, r)
    ensures AllSpace(s[..|s| - |r|])
    ensures r == "" || !IsSpace(r[0])
  {
    if s == "" || !IsSpace(s[0]) then s
    else
      var r := TrimLeft(s[1..]);
      TrimLeftStep(s, r);
      r
  }

  lemma {:induction false} TrimLeftStep(s: string, r: string)
    requires s != "" && IsSpace(s[0])
    requires HasSuffix(s[1..], r) && AllSpace(s[1..][..|s[1..]| - |r|])
    ensures HasSuffix(s, r) && AllSpace(s[..|s| - |r|])
  {
    assert s[..|s| - |r|] == [s[0]] + s[1..][..|s[1..]| - |r|];
    assert s[|s| - |r|..] == s[1..][|s[1..]| - |r|..];
  }

  function TrimRight(s: string): (r: string)
    ensures |r| <= |s| && r == s[..|r|]
    ensures AllSpace(s[|r|..])
    ensures r == "" || !IsSpace(r[|r| - 1])
  {
    if s == "" || !IsSpace(s[|s| - 1]) then s
    else
      var r := TrimRight(s[..|s| - 1]);
      assert s[|r|..] == s[..|s| - 1][|r|..] + [s[|s| - 1]];
      r
  }

  /**
   * strings.TrimSpace: the result is `s` with a prefix and a suffix of white space
   * removed, and it neither starts nor ends with white space.
   */
  function TrimSpace(s: string): (r: string)
    ensures exists i :: 0 <= i <= |s| - |r| && s[i..i + |r|] == r && AllSpace(s[..i]) && AllSpace(s[i + |r|..])
    ensures r == "" || (!IsSpace(r[0]) && !IsSpace(r[|r| - 1]))
  {
    var l := TrimLeft(s);
    var r := TrimRight(l);
    TrimSlices(s, l, r);
    r
  }

  /** Where TrimRight's result sits inside the string TrimLeft was given. */
  lemma {:induction false} TrimSlices(s: string, l: string, r: string)
    requires HasSuffix(s, l) && AllSpace(s[..|s| - |l|]) && (l == "" || !IsSpace(l[0]))
    requires |r| <= |l| && r == l[..|r|] && AllSpace(l[|r|..]) && (r == "" || !IsSpace(r[|r| - 1]))
    ensures exists i :: 0 <= i <= |s| - |r| && s[i..i + |r|] == r && AllSpace(s[..i]) && AllSpace(s[i + |r|..])
    ensures r == "" || (!IsSpace(r[0]) && !IsSpace(r[|r| - 1]))
  {
    var i := |s| - |l|;
    assert s[i..] == l;
    assert s[i..i + |r|] == l[..|r|];
    assert s[i + |r|..] == l[|r|..];
    assert r != "" ==> r[0] == l[0];
  }

  /** The only characters strings.ToLower changes in the ASCII range are 'A'..'Z'. */
  function LowerChar(c: char): char {
    if 'A' <= c <= 'Z' then (c as int + 32) as char else c
  }

  function ToLower(s: string): (r: string)
    ensures |r| == |s|
    ensures forall i :: 0 <= i < |s| ==> r[i] == LowerChar(s[i])
  {
    if s == "" then "" else [LowerChar(s[0])] + ToLower(s[1..])
  }

  /** Go's `<` on strings: lexicographic by code point, a proper prefix sorts first. */
  predicate StrLess(a: string, b: string) {
    if |a| == 0 then |b| > 0
    else if |b| == 0 then false
    else if a[0] != b[0] then a[0] < b[0]
    else StrLess(a[1..], b[1..])
  }

  lemma {:induction false} StrLessIrreflexive(a: string)
    ensures !StrLess(a, a)
  {
    if |a| > 0 {
      StrLessIrreflexive(a[1..]);
    }
  }

  lemma {:induction false} StrLessAsymmetric(a: string, b: string)
    requires StrLess(a, b)
    ensures !StrLess(b, a)
  {
    if |a| > 0 && |b| > 0 && a[0] == b[0] {
      StrLessAsymmetric(a[1..], b[1..]);
    }
  }

  lemma {:induction false} StrLessTransitive(a: string, b: string, c: string)
    requires StrLess(a, b) && StrLess(b, c)
    ensures StrLess(a, c)
  {
    if |a| > 0 && |b| > 0 && |c| > 0 && a[0] == b[0] && b[0] == c[0] {
      StrLessTransitive(a[1..], b[1..], c[1..]);
    }
  }

  predicate IsDigit(c: char) {
    '0' <= c <= '9'
  }

  /** The number a string of decimal digits denotes, most significant digit first. */
  function DecimalValue(s: string): nat
    requires forall i :: 0 <= i < |s| ==> IsDigit(s[i])
  {
    if s == "" then 0
    else
      assert IsDigit(s[|s| - 1]);
      DecimalValue(s[..|s| - 1]) * 10 + (s[|s| - 1] as int - '0' as int)
  }

  /** strconv.Itoa of a natural number: its decimal digits, with no leading zero. */
  function NatToString(n: nat): (r: string)
    ensures |r| > 0
    ensures forall i :: 0 <= i < |r| ==> IsDigit(r[i])
    ensures DecimalValue(r) == n
    ensures r[0] == '0' ==> r == "0"
  {
    var d := [(n % 10 + '0' as int) as char];
    if n < 10 then d
    else
      var r := NatToString(n / 10) + d;
      assert r[..|r| - 1] == NatToString(n / 10);
      r
  }

  /** strconv.FormatInt(n, 10): a '-' exactly for a negative number, then the digits of |n|. */
  function IntToString(n: int): (r: string)
    ensures |r| > 0
    ensures forall i :: 0 <= i < |r| ==> IsDigit(r[i]) || r[i] == '-'
    ensures n < 0 <==> r[0] == '-'
    ensures r[0] == '-' ==> r[1..] == NatToString(-n)
    ensures r[0] != '-' ==> r == NatToString(n)
  {
    if n < 0 then "-" + NatToString(-n) else NatToString(n)
  }

  /** A digit string without leading zeros is the one NatToString prints for its value. */
  lemma {:induction false} NatToStringUnique(s: string)
    requires |s| > 0 && forall i :: 0 <= i < |s| ==> IsDigit(s[i])
    requires s[0] == '0' ==> s == "0"
    ensures NatToString(DecimalValue(s)) == s
    decreases |s|
  {
    var front := s[..|s| - 1];
    var d := s[|s| - 1] as int - '0' as int;
    if front != "" {
      assert front[0] == s[0];
      NatToStringUnique(front);
      var v := DecimalValue(front);
      assert front[0] != '0';
      assert NatToString(0)[0] == '0';
      assert DecimalValue(s) == v * 10 + d;
      assert DecimalValue(s) / 10 == v && DecimalValue(s) % 10 == d;
      assert s == front + [s[|s| - 1]];
    }
  }

  /** The text Go's `%q` verb prints for `s` when `s` needs no escaping. */
  function Quote(s: string): string {
    "\"" + s + "\""
  }
}
