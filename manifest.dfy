/** `print_filenames` (main.py:82-91): the names of a directory listing that end with
    ".jpg" (case-sensitive), sorted ascending with `list.sort`, each written followed
    by a newline. The listing is an input sequence and the text written to
    "list.txt" is returned instead of written. */
module Manifest {
  import opened Seqs
  import opened Text

  /** `name.endswith(".jpg")`, case-sensitive (main.py:86). */
  predicate IsJpg(name: string)
  {
    EndsWith(name, ".jpg")
  }

  // ---------------------------------------------------------------------------
  // Python's ordering of str

  /** `a <= b` on Python strings: lexicographic by code point, a proper prefix first. */
  predicate Le(a: string, b: string)
    decreases |a|
  {
    |a| == 0 || (|b| > 0 && (a[0] < b[0] || (a[0] == b[0] && Le(a[1..], b[1..]))))
  }

  lemma {:induction false} LeReflexive(a: string)
    ensures Le(a, a)
    decreases |a|
  {
    if |a| > 0 {
      LeReflexive(a[1..]);
    }
  }

  lemma {:induction false} LeTotal(a: string, b: string)
    ensures Le(a, b) || Le(b, a)
    decreases |a|
  {
    if |a| > 0 && |b| > 0 && a[0] == b[0] {
      LeTotal(a[1..], b[1..]);
    }
  }

  lemma {:induction false} LeAntisymmetric(a: string, b: string)
    requires Le(a, b) && Le(b, a)
    ensures a == b
    decreases |a|
  {
    if |a| > 0 {
      LeAntisymmetric(a[1..], b[1..]);
      assert a == [a[0]] + a[1..] && b == [b[0]] + b[1..];
    }
  }

  lemma {:induction false} LeTransitive(a: string, b: string, c: string)
    requires Le(a, b) && Le(b, c)
    ensures Le(a, c)
    decreases |a|
  {
    if |a| > 0 && a[0] == b[0] && b[0] == c[0] {
      LeTransitive(a[1..], b[1..], c[1..]);
    }
  }

  /** Ascending order, as `list.sort()` leaves a list of strings. */
  ghost predicate Sorted(s: seq<string>)
  {
    forall i, j :: 0 <= i < j < |s| ==> Le(s[i], s[j])
  }

  // ---------------------------------------------------------------------------
  // Sorting

  /** Inserts `x` into `s` before the first element it does not exceed. */
  function Insert(x: string, s: seq<string>): (r: seq<string>)
    ensures multiset(r) == multiset(s) + multiset{x}
    decreases |s|
  {
    if s == [] then [x]
    else if Le(x, s[0]) then [x] + s
    else
      assert s == [s[0]] + s[1..];
      [s[0]] + Insert(x, s[1..])
  }

  lemma {:induction false} InsertSorted(x: string, s: seq<string>)
    requires Sorted(s)
    ensures Sorted(Insert(x, s))
    decreases |s|
  {
    if s != [] {
      if Le(x, s[0]) {
        forall k | 0 < k < |s| ensures Le(x, s[k]) {
          LeTransitive(x, s[0], s[k]);
        }
        ConsSorted(x, s);
      } else {
        LeTotal(x, s[0]);
        InsertSorted(x, s[1..]);
        var r := Insert(x, s[1..]);
        forall k | 0 <= k < |r| ensures Le(s[0], r[k]) {
          assert r[k] in multiset(r);
          if r[k] != x {
            SortedHeadIsLeast(s, r[k]);
          }
        }
        ConsSorted(s[0], r);
      }
    }
  }

  /** The first element of a sorted sequence is at most each of its elements. */
  lemma SortedHeadIsLeast(s: seq<string>, y: string)
    requires Sorted(s) && y in s
    ensures Le(s[0], y)
  {
    var j :| 0 <= j < |s| && s[j] == y;
    if j == 0 {
      LeReflexive(y);
    }
  }

  /** Putting an element in front of a sorted sequence keeps it sorted when the
      element is at most the sequence's first element. */
  lemma ConsSorted(x: string, s: seq<string>)
    requires Sorted(s)
    requires forall k :: 0 <= k < |s| ==> Le(x, s[k])
    ensures Sorted([x] + s)
  {
    var r := [x] + s;
    forall i, j | 0 <= i < j < |r| ensures Le(r[i], r[j]) {
      assert r[j] == s[j - 1];
      if i > 0 {
        assert r[i] == s[i - 1];
      }
    }
  }

  /** The sorted copy of `s`, by insertion; `list.sort()` leaves the list in this
      order, because a sorted arrangement of a multiset of strings is unique. */
  function Sort(s: seq<string>): (r: seq<string>)
    ensures multiset(r) == multiset(s)
    decreases |s|
  {
    if s == [] then []
    else
      assert s == [s[0]] + s[1..];
      Insert(s[0], Sort(s[1..]))
  }

  lemma {:induction false} SortSorted(s: seq<string>)
    ensures Sorted(Sort(s))
    decreases |s|
  {
    if s != [] {
      SortSorted(s[1..]);
      InsertSorted(s[0], Sort(s[1..]));
    }
  }

  /** Two sorted sequences with the same elements are equal: sorting determines the
      manifest whatever order the directory was listed in. */
  lemma {:induction false} SortedUnique(a: seq<string>, b: seq<string>)
    requires Sorted(a) && Sorted(b) && multiset(a) == multiset(b)
    ensures a == b
    decreases |a|
  {
    assert |a| == |multiset(a)| == |multiset(b)| == |b|;
    if |a| > 0 {
      SameHead(a, b);
      SortedTail(a);
      SortedTail(b);
      MultisetTail(a);
      MultisetTail(b);
      SortedUnique(a[1..], b[1..]);
      assert a == [a[0]] + a[1..] && b == [b[0]] + b[1..];
    }
  }

  /** Two non-empty sorted sequences with the same elements start alike. */
  lemma SameHead(a: seq<string>, b: seq<string>)
    requires Sorted(a) && Sorted(b) && multiset(a) == multiset(b)
    requires |a| > 0 && |b| > 0
    ensures a[0] == b[0]
  {
    assert a[0] in multiset(b) && b[0] in multiset(a);
    SortedHeadIsLeast(a, b[0]);
    SortedHeadIsLeast(b, a[0]);
    LeAntisymmetric(a[0], b[0]);
  }

  lemma MultisetTail(s: seq<string>)
    requires |s| > 0
    ensures multiset(s[1..]) == multiset(s) - multiset{s[0]}
  {
    assert s == [s[0]] + s[1..];
  }

  lemma SortedTail(s: seq<string>)
    requires Sorted(s) && |s| > 0
    ensures Sorted(s[1..])
  {
    forall i, j | 0 <= i < j < |s| - 1 ensures Le(s[1..][i], s[1..][j]) {
      assert s[1..][i] == s[i + 1] && s[1..][j] == s[j + 1];
    }
  }

  // ---------------------------------------------------------------------------
  // The manifest text

  /** Each name followed by "\n", in order: what the loop at main.py:90-91 writes. */
  function Lines(names: seq<string>): string
    decreases |names|
  {
    if names == [] then [] else names[0] + "\n" + Lines(names[1..])
  }

  lemma {:induction false} LinesSnoc(names: seq<string>, name: string)
    ensures Lines(names + [name]) == Lines(names) + name + "\n"
    decreases |names|
  {
    if names == [] {
      assert [name][1..] == [];
    } else {
      assert (names + [name])[1..] == names[1..] + [name];
      LinesSnoc(names[1..], name);
    }
  }

  lemma {:induction false} LinesJoin(names: seq<string>)
    ensures Lines(names) == Join(names + [""], '\n')
    decreases |names|
  {
    if names != [] {
      assert (names + [""])[1..] == names[1..] + [""];
      LinesJoin(names[1..]);
    }
  }

  /** Reading the manifest back: splitting the text at newlines gives the names and
      the empty text after the final newline, provided no name contains a newline. */
  lemma ManifestReadsBack(names: seq<string>)
    requires forall i :: 0 <= i < |names| ==> '\n' !in names[i]
    ensures Split(Lines(names), '\n') == names + [""]
  {
    LinesJoin(names);
    SplitJoin(names + [""], '\n');
  }

  /** `print_filenames` over one listing: collect the ".jpg" names in listing order,
      sort them, and write each followed by a newline. The names written are exactly
      the ".jpg" names of the listing, each as often as it is listed, in ascending
      order. */
  method PrintFilenames(listing: seq<string>) returns (filenames: seq<string>, text: string)
    ensures Sorted(filenames)
    ensures multiset(filenames) == multiset(Filter(listing, IsJpg))
    ensures text == Lines(filenames)
  {
    filenames := [];
    for i := 0 to |listing|
      invariant filenames == Filter(listing[..i], IsJpg)
    {
      assert listing[..i + 1][..i] == listing[..i];
      if IsJpg(listing[i]) {
        filenames := filenames + [listing[i]];
      }
    }
    assert listing[..|listing|] == listing;

    SortSorted(filenames);
    filenames := Sort(filenames);

    text := [];
    for i := 0 to |filenames|
      invariant text == Lines(filenames[..i])
    {
      assert filenames[..i + 1] == filenames[..i] + [filenames[i]];
      LinesSnoc(filenames[..i], filenames[i]);
      text := text + filenames[i] + "\n";
    }
    assert filenames[..|filenames|] == filenames;
  }
}
