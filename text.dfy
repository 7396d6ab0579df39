/** The string operations the script applies to file names: `str.lower`,
    `str.endswith`, `str.split` and `str.replace`, over `seq<char>`. Lower-casing is
    ASCII only. */
module Text {

  /** ASCII lower-casing of one character; every other character is kept. */
  function LowerChar(c: char): (d: char)
    ensures !('A' <= d <= 'Z')
    ensures d != c <==> 'A' <= c <= 'Z'
  {
    if 'A' <= c <= 'Z' then (c as int + 32) as char else c
  }

  /** `s.lower()`, character by character. */
  function Lower(s: string): (r: string)
    ensures |r| == |s|
    ensures forall i :: 0 <= i < |s| ==> r[i] == LowerChar(s[i])
  {
    seq(|s|, i requires 0 <= i < |s| => LowerChar(s[i]))
  }

  /** `s.endswith(suffix)`. */
  predicate EndsWith(s: string, suffix: string)
  {
    |suffix| <= |s| && s[|s| - |suffix|..] == suffix
  }

  /** `pat in s`: `pat` occurs in `s` as a contiguous substring. */
  predicate OccursIn(pat: string, s: string)
    decreases |s|
  {
    |pat| <= |s| && (s[..|pat|] == pat || (|s| > 0 && OccursIn(pat, s[1..])))
  }

  /** The inverse of `Split`: the parts with `sep` between consecutive ones. */
  function Join(parts: seq<string>, sep: char): string
    decreases |parts|
  {
    if parts == [] then []
    else if |parts| == 1 then parts[0]
    else parts[0] + [sep] + Join(parts[1..], sep)
  }

  /** `s.split(sep)` with a one-character separator: the maximal runs between the
      separators, so `""` splits into `[""]` and `"a."` into `["a", ""]`. */
  function Split(s: string, sep: char): (parts: seq<string>)
    ensures |parts| >= 1
    ensures Join(parts, sep) == s
    ensures forall i :: 0 <= i < |parts| ==> sep !in parts[i]
    ensures |parts| > 1 <==> sep in s
    decreases |s|
  {
    if s == [] then [[]]
    else
      var rest := Split(s[1..], sep);
      assert s == [s[0]] + s[1..];
      if s[0] == sep then [[]] + rest
      else
        JoinHead(s[0], rest, sep);
        [[s[0]] + rest[0]] + rest[1..]
  }

  /** Putting a character in front of the first part puts it in front of the join. */
  lemma JoinHead(c: char, parts: seq<string>, sep: char)
    requires |parts| >= 1
    ensures Join([[c] + parts[0]] + parts[1..], sep) == [c] + Join(parts, sep)
  {
    var q := [[c] + parts[0]] + parts[1..];
    assert q[1..] == parts[1..];
  }

  /** `s.split(sep)[-1]`: the text after the last separator, or all of `s`. */
  function LastSegment(s: string, sep: char): (e: string)
    ensures sep !in e
  {
    var parts := Split(s, sep);
    parts[|parts| - 1]
  }

  /** `s.replace("", rep)`: `rep` before every character and at the end. */
  function InsertEverywhere(s: string, rep: string): string
    decreases |s|
  {
    if s == [] then rep else rep + [s[0]] + InsertEverywhere(s[1..], rep)
  }

  /** `s.replace(pat, rep)`: every non-overlapping occurrence of `pat`, found scanning
      from the left, is replaced by `rep`. */
  function Replace(s: string, pat: string, rep: string): string
    decreases |s|
  {
    if |pat| == 0 then InsertEverywhere(s, rep)
    else if |s| < |pat| then s
    else if s[..|pat|] == pat then rep + Replace(s[|pat|..], pat, rep)
    else [s[0]] + Replace(s[1..], pat, rep)
  }

  // ---------------------------------------------------------------------------
  // Split and Join

  lemma {:induction false} SplitWithoutSep(p: string, sep: char)
    requires sep !in p
    ensures Split(p, sep) == [p]
    decreases |p|
  {
    if p != [] {
      SplitWithoutSep(p[1..], sep);
      assert [p[0]] + p[1..] == p;
    }
  }

  lemma {:induction false} SplitCons(p: string, t: string, sep: char)
    requires sep !in p
    ensures Split(p + [sep] + t, sep) == [p] + Split(t, sep)
    decreases |p|
  {
    var s := p + [sep] + t;
    if p == [] {
      assert s[0] == sep && s[1..] == t;
    } else {
      assert s[0] == p[0] && s[1..] == p[1..] + [sep] + t;
      SplitCons(p[1..], t, sep);
      assert [p[0]] + p[1..] == p;
    }
  }

  /** Splitting undoes joining, provided no part contains the separator. */
  lemma {:induction false} SplitJoin(parts: seq<string>, sep: char)
    requires |parts| >= 1
    requires forall i :: 0 <= i < |parts| ==> sep !in parts[i]
    ensures Split(Join(parts, sep), sep) == parts
    decreases |parts|
  {
    if |parts| == 1 {
      SplitWithoutSep(parts[0], sep);
    } else {
      SplitJoin(parts[1..], sep);
      SplitCons(parts[0], Join(parts[1..], sep), sep);
      assert [parts[0]] + parts[1..] == parts;
    }
  }

  // ---------------------------------------------------------------------------
  // The last segment

  /** The last segment of a non-empty string is the last segment of its tail, unless
      the string has no separator at all. */
  lemma LastSegmentCons(s: string, sep: char)
    requires |s| > 0
    ensures LastSegment(s, sep) == if s[0] == sep || sep in s[1..] then LastSegment(s[1..], sep) else s
  {
    var rest := Split(s[1..], sep);
    if s[0] != sep && sep !in s[1..] {
      assert rest[0] == Join(rest, sep) == s[1..];
      assert [s[0]] + s[1..] == s;
    }
  }

  /** The last segment is a suffix of `s`; unless it is all of `s`, the character just
      before it is the separator, and it is all of `s` exactly when `s` has no
      separator. */
  lemma {:induction false} LastSegmentShape(s: string, sep: char)
    ensures var e := LastSegment(s, sep);
      && EndsWith(s, e)
      && (|e| < |s| ==> s[|s| - |e| - 1] == sep)
      && (|e| == |s| <==> sep !in s)
    decreases |s|
  {
    if s != [] {
      LastSegmentCons(s, sep);
      if s[0] == sep || sep in s[1..] {
        LastSegmentShape(s[1..], sep);
        ShapeStep(s, LastSegment(s[1..], sep), sep);
      } else {
        assert s == [s[0]] + s[1..];
      }
    }
  }

  /** A suffix of the tail that is preceded by a separator or starts the tail after a
      separator is a suffix of the whole string preceded by a separator. */
  lemma ShapeStep(s: string, e: string, sep: char)
    requires |s| > 0
    requires EndsWith(s[1..], e)
    requires |e| < |s| - 1 ==> s[1..][|s| - 1 - |e| - 1] == sep
    requires |e| == |s| - 1 <==> sep !in s[1..]
    requires s[0] == sep || sep in s[1..]
    ensures EndsWith(s, e) && |e| < |s| && s[|s| - |e| - 1] == sep && sep in s
  {
    var t := s[1..];
    assert s[|s| - |e|..] == t[|t| - |e|..];
    if |e| < |t| {
      assert s[|s| - |e| - 1] == t[|t| - |e| - 1];
    }
  }

  /** A separator-free suffix that starts `s` or follows a separator is the last
      segment: the segment is determined by those three facts. */
  lemma LastSegmentUnique(s: string, e: string, sep: char)
    requires sep !in e && EndsWith(s, e)
    requires |e| == |s| || s[|s| - |e| - 1] == sep
    ensures LastSegment(s, sep) == e
  {
    LastSegmentShape(s, sep);
  }

  /** `s` ends with the separator followed by a separator-free `e` exactly when `s`
      has a separator and `e` is its last segment. */
  lemma SepSuffix(s: string, e: string, sep: char)
    requires sep !in e
    ensures EndsWith(s, [sep] + e) <==> sep in s && LastSegment(s, sep) == e
  {
    LastSegmentShape(s, sep);
    if EndsWith(s, [sep] + e) {
      assert s[|s| - |e| - 1] == ([sep] + e)[0] == sep;
      assert s[|s| - |e|..] == s[|s| - |e| - 1..][1..] == e;
      LastSegmentUnique(s, e, sep);
    }
    if sep in s && LastSegment(s, sep) == e {
      assert s[|s| - |e| - 1..] == [s[|s| - |e| - 1]] + s[|s| - |e|..];
    }
  }

  /** Lower-casing keeps every character that is not an upper-case letter where it
      was, and creates no new one. */
  lemma LowerKeeps(s: string, c: char)
    requires !('A' <= c <= 'Z') && !('a' <= c <= 'z')
    ensures c in Lower(s) <==> c in s
  {
    var low := Lower(s);
    if c in s {
      var i :| 0 <= i < |s| && s[i] == c;
      assert low[i] == c;
    }
    if c in low {
      var i :| 0 <= i < |low| && low[i] == c;
      assert s[i] == c;
    }
  }

  /** A pattern whose first character is absent from `s` does not occur in `s`. */
  lemma {:induction false} OccursNeedsHead(pat: string, s: string)
    requires |pat| > 0 && pat[0] !in s
    ensures !OccursIn(pat, s)
    decreases |s|
  {
    if |s| > 0 {
      assert |pat| <= |s| ==> s[..|pat|][0] == s[0];
      OccursNeedsHead(pat, s[1..]);
    }
  }

  /** Lower-casing keeps suffixes. */
  lemma LowerSuffix(s: string, e: string)
    requires EndsWith(s, e)
    ensures EndsWith(Lower(s), Lower(e))
  {
    var low := Lower(s);
    forall k | 0 <= k < |e| ensures low[|s| - |e|..][k] == Lower(e)[k] {
      assert s[|s| - |e| + k] == e[k];
    }
  }

  /** Lower-casing commutes with taking the last segment, for a separator that is
      not a letter. */
  lemma LowerLastSegment(s: string, sep: char)
    requires !('A' <= sep <= 'Z') && !('a' <= sep <= 'z')
    ensures LastSegment(Lower(s), sep) == Lower(LastSegment(s, sep))
  {
    var e := LastSegment(s, sep);
    LastSegmentShape(s, sep);
    LowerKeeps(e, sep);
    LowerSuffix(s, e);
    LastSegmentUnique(Lower(s), Lower(e), sep);
  }

  // ---------------------------------------------------------------------------
  // Replace

  /** Replacing a pattern that does not occur leaves the string unchanged. */
  lemma {:induction false} ReplaceAbsent(s: string, pat: string, rep: string)
    requires |pat| > 0 && !OccursIn(pat, s)
    ensures Replace(s, pat, rep) == s
    decreases |s|
  {
    if |s| >= |pat| {
      ReplaceAbsent(s[1..], pat, rep);
      assert [s[0]] + s[1..] == s;
    }
  }

  /** A string is left unchanged by replacing a different pattern of its own length. */
  lemma ReplaceSameLength(s: string, pat: string, rep: string)
    requires |pat| == |s| > 0 && s != pat
    ensures Replace(s, pat, rep) == s
  {
    assert s[..|pat|] == s;
    assert |s[1..]| < |pat|;
    assert [s[0]] + s[1..] == s;
  }

  /** A pattern is replaced by itself's replacement when it is the whole string. */
  lemma ReplaceWhole(pat: string, rep: string)
    requires |pat| > 0
    ensures Replace(pat, pat, rep) == rep
  {
    assert pat[..|pat|] == pat;
    assert pat[|pat|..] == [];
  }

  /** No occurrence of a separator-free pattern can span a separator, so replacing
      works on the two sides of a separator independently. */
  lemma {:induction false} ReplaceAcross(a: string, b: string, pat: string, rep: string, sep: char)
    requires |pat| > 0 && sep !in pat
    ensures Replace(a + [sep] + b, pat, rep) == Replace(a, pat, rep) + [sep] + Replace(b, pat, rep)
    decreases |a|, 1
  {
    var s := a + [sep] + b;
    if |s| < |pat| {
      assert |a| < |pat| && |b| < |pat|;
    } else if s[..|pat|] == pat {
      ReplaceAcrossMatch(a, b, pat, rep, sep);
    } else {
      ReplaceAcrossSkip(a, b, pat, rep, sep);
    }
  }

  /** Each prefix of `a + [sep] + b` longer than `a` contains the separator. */
  lemma SepInLongPrefix(a: string, b: string, sep: char)
    ensures forall k :: |a| < k <= |a + [sep] + b| ==> sep in (a + [sep] + b)[..k]
  {
    var s := a + [sep] + b;
    forall k | |a| < k <= |s| ensures sep in s[..k] {
      assert s[..k][|a|] == sep;
    }
  }

  /** `ReplaceAcross` when the pattern is found at the start: it lies inside `a`. */
  lemma {:induction false} ReplaceAcrossMatch(a: string, b: string, pat: string, rep: string, sep: char)
    requires |pat| > 0 && sep !in pat
    requires |pat| <= |a + [sep] + b| && (a + [sep] + b)[..|pat|] == pat
    ensures Replace(a + [sep] + b, pat, rep) == Replace(a, pat, rep) + [sep] + Replace(b, pat, rep)
    decreases |a|, 0
  {
    var s := a + [sep] + b;
    SepInLongPrefix(a, b, sep);
    assert |pat| <= |a|;
    assert a[..|pat|] == pat;
    assert s[|pat|..] == a[|pat|..] + [sep] + b;
    ReplaceAcross(a[|pat|..], b, pat, rep, sep);
  }

  /** A string that does not start with the pattern keeps its first character and
      the rest is replaced on its own. */
  lemma ReplaceHead(s: string, pat: string, rep: string)
    requires |pat| > 0 && |s| > 0
    requires !(|pat| <= |s| && s[..|pat|] == pat)
    ensures Replace(s, pat, rep) == [s[0]] + Replace(s[1..], pat, rep)
  {
    if |s| < |pat| {
      assert Replace(s[1..], pat, rep) == s[1..];
      assert [s[0]] + s[1..] == s;
    }
  }

  /** `ReplaceAcross` when the pattern is not found at the start: the first character
      is kept. */
  lemma {:induction false} ReplaceAcrossSkip(a: string, b: string, pat: string, rep: string, sep: char)
    requires |pat| > 0 && sep !in pat
    requires |pat| <= |a + [sep] + b| && (a + [sep] + b)[..|pat|] != pat
    ensures Replace(a + [sep] + b, pat, rep) == Replace(a, pat, rep) + [sep] + Replace(b, pat, rep)
    decreases |a|, 0
  {
    var s := a + [sep] + b;
    ReplaceHead(s, pat, rep);
    if |a| == 0 {
      assert s[0] == sep && s[1..] == b;
    } else {
      assert s[0] == a[0] && s[1..] == a[1..] + [sep] + b;
      ReplaceAcross(a[1..], b, pat, rep, sep);
      if |pat| <= |a| {
        assert a[..|pat|] == s[..|pat|];
      }
      ReplaceHead(a, pat, rep);
      ConsAssoc(a[0], Replace(a[1..], pat, rep), sep, Replace(b, pat, rep));
    }
  }

  /** Regrouping a character in front of `x + [sep] + y`; kept as a lemma so that the
      proof of `ReplaceAcrossSkip` does not reason about concatenation itself. */
  lemma ConsAssoc(c: char, x: string, sep: char, y: string)
    ensures [c] + (x + [sep] + y) == ([c] + x) + [sep] + y
  {
  }
}
