/**
 * The Python string operations the engine uses, on `seq<char>`:
 * `startswith`, `endswith`, `in`, `replace`, `rfind`, `split("/")[-1]`,
 * and string comparison (by code point) with the maximum it induces.
 */
module Text {

  /** `s.startswith(prefix)` */
  predicate StartsWith(s: string, prefix: string) {
    |prefix| <= |s| && s[..|prefix|] == prefix
  }

  /** `s.endswith(suffix)` */
  predicate EndsWith(s: string, suffix: string) {
    |suffix| <= |s| && s[|s| - |suffix|..] == suffix
  }

  /** `sub in s` */
  predicate Contains(s: string, sub: string)
    decreases |s|
  {
    StartsWith(s, sub) || (s != [] && Contains(s[1..], sub))
  }

  /**
   * `s.replace(pat, rep)`: every non-overlapping occurrence of `pat`, found
   * left to right, is replaced by `rep`.
   */
  function ReplaceAll(s: string, pat: string, rep: string): string
    requires pat != []
    decreases |s|
  {
    if |s| < |pat| then s
    else if s[..|pat|] == pat then rep + ReplaceAll(s[|pat|..], pat, rep)
    else [s[0]] + ReplaceAll(s[1..], pat, rep)
  }

  /** A string without any occurrence of the pattern is left unchanged. */
  lemma {:induction false} ReplaceAllAbsent(s: string, pat: string, rep: string)
    requires pat != [] && !Contains(s, pat)
    ensures ReplaceAll(s, pat, rep) == s
    decreases |s|
  {
    if |s| >= |pat| {
      assert !StartsWith(s, pat);
      assert s != [];
      ReplaceAllAbsent(s[1..], pat, rep);
      assert [s[0]] + s[1..] == s;
    }
  }

  /**
   * Replacing one character by another keeps the length and leaves no
   * occurrence of the replaced character.
   */
  lemma {:induction false} ReplaceCharAll(s: string, c: char, d: char)
    requires c != d
    ensures |ReplaceAll(s, [c], [d])| == |s|
    ensures c !in ReplaceAll(s, [c], [d])
    decreases |s|
  {
    if |s| >= 1 {
      ReplaceCharAll(s[1..], c, d);
    }
  }

  /**
   * The first occurrence of a pattern in `stem + pat + rest`, where the stem
   * holds no character that starts the pattern, is the one right after the
   * stem.
   */
  lemma {:induction false} ReplaceAllAfterStem(stem: string, pat: string, rest: string, rep: string)
    requires pat != [] && pat[0] !in stem
    ensures ReplaceAll(stem + pat + rest, pat, rep) == stem + rep + ReplaceAll(rest, pat, rep)
    decreases |stem|
  {
    var s := stem + pat + rest;
    if stem == [] {
      assert s[..|pat|] == pat;
      assert s[|pat|..] == rest;
    } else {
      assert s[0] == stem[0] != pat[0];
      assert s[..|pat|] != pat;
      assert s[1..] == stem[1..] + pat + rest;
      ReplaceAllAfterStem(stem[1..], pat, rest, rep);
      assert [s[0]] + (stem[1..] + rep + ReplaceAll(rest, pat, rep)) == stem + rep + ReplaceAll(rest, pat, rep);
    }
  }

  /** A string that never holds the pattern's first character does not contain the pattern. */
  lemma {:induction false} ContainsLeadChar(s: string, pat: string)
    requires pat != [] && pat[0] !in s
    ensures !Contains(s, pat)
    decreases |s|
  {
    if s != [] {
      ContainsLeadChar(s[1..], pat);
    }
  }

  /** Deleting a pattern shortens the string by a whole number of pattern lengths. */
  lemma {:induction false} ReplaceAllDeletes(s: string, pat: string)
    requires pat != []
    ensures exists k: nat :: |s| == |ReplaceAll(s, pat, "")| + k * |pat|
    decreases |s|
  {
    if |s| < |pat| {
      assert |s| == |ReplaceAll(s, pat, "")| + 0 * |pat|;
    } else if s[..|pat|] == pat {
      ReplaceAllDeletes(s[|pat|..], pat);
      var k: nat :| |s[|pat|..]| == |ReplaceAll(s[|pat|..], pat, "")| + k * |pat|;
      assert |s| == |ReplaceAll(s, pat, "")| + (k + 1) * |pat|;
    } else {
      ReplaceAllDeletes(s[1..], pat);
      var k: nat :| |s[1..]| == |ReplaceAll(s[1..], pat, "")| + k * |pat|;
      assert |s| == |ReplaceAll(s, pat, "")| + k * |pat|;
    }
  }

  /** `s.rfind(c)`: the index of the last occurrence of `c`, or -1. */
  function RFind(s: string, c: char): (i: int)
    ensures -1 <= i < |s|
    ensures 0 <= i ==> s[i] == c
    ensures forall j :: i < j < |s| ==> s[j] != c
    decreases |s|
  {
    if s == [] then -1
    else if s[|s| - 1] == c then |s| - 1
    else RFind(s[..|s| - 1], c)
  }

  /**
   * `s.split("/")[-1]`: the text after the last slash, or all of `s` when it
   * has none.
   */
  function LastSegment(s: string): (segment: string)
    ensures '/' !in segment
    ensures EndsWith(s, segment)
    ensures segment == s || s[|s| - |segment| - 1] == '/'
  {
    var i := RFind(s, '/');
    SliceAfterLast(s, '/', i);
    s[i + 1..]
  }

  /** The text after the last occurrence of `c` holds no `c`. */
  lemma SliceAfterLast(s: string, c: char, i: int)
    requires -1 <= i < |s|
    requires forall j :: i < j < |s| ==> s[j] != c
    ensures c !in s[i + 1..]
    ensures EndsWith(s, s[i + 1..])
  {
    var segment := s[i + 1..];
    forall k | 0 <= k < |segment| ensures segment[k] != c {
      assert segment[k] == s[i + 1 + k];
    }
  }

  /** Python's `a <= b` on strings: lexicographic by code point. */
  predicate LexLe(a: string, b: string)
    decreases |a|
  {
    if a == [] then true
    else if b == [] then false
    else if a[0] != b[0] then a[0] < b[0]
    else LexLe(a[1..], b[1..])
  }

  /** Every string is `<=` itself. */
  lemma {:induction false} LexLeReflexive(a: string)
    ensures LexLe(a, a)
    decreases |a|
  {
    if a != [] {
      LexLeReflexive(a[1..]);
    }
  }

  /** Any two strings compare one way or the other. */
  lemma {:induction false} LexLeTotal(a: string, b: string)
    ensures LexLe(a, b) || LexLe(b, a)
    decreases |a|
  {
    if a != [] && b != [] && a[0] == b[0] {
      LexLeTotal(a[1..], b[1..]);
    }
  }

  /** String comparison chains. */
  lemma {:induction false} LexLeTransitive(a: string, b: string, c: string)
    requires LexLe(a, b) && LexLe(b, c)
    ensures LexLe(a, c)
    decreases |a|
  {
    if a != [] && b != [] && c != [] && a[0] == b[0] && b[0] == c[0] {
      LexLeTransitive(a[1..], b[1..], c[1..]);
    }
  }

  /** Raising an upper bound keeps it an upper bound. */
  lemma RaiseBound(ds: seq<string>, m: string, x: string)
    requires forall d :: d in ds ==> LexLe(d, m)
    requires LexLe(m, x)
    ensures forall d :: d in ds ==> LexLe(d, x)
  {
    forall d | d in ds ensures LexLe(d, x) {
      LexLeTransitive(d, m, x);
    }
  }

  /** The greatest string of a non-empty list: `sorted(ds)[-1]`. */
  function MaxString(ds: seq<string>): (m: string)
    requires ds != []
    ensures m in ds
    ensures forall d :: d in ds ==> LexLe(d, m)
    decreases |ds|
  {
    if |ds| == 1 then
      LexLeReflexive(ds[0]);
      ds[0]
    else
      var rest := MaxString(ds[1..]);
      assert forall d :: d in ds ==> d == ds[0] || d in ds[1..];
      LexLeTotal(ds[0], rest);
      if LexLe(ds[0], rest) then rest
      else
        RaiseBound(ds[1..], rest, ds[0]);
        LexLeReflexive(ds[0]);
        ds[0]
  }
}
