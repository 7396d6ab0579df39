/** `iterate_through_folder` (main.py:70-80): which names of a directory listing are
    images, the name each is saved under, and the `compress_img` calls made for one
    output folder. The listing is an input sequence; joined paths are kept opaque. */
module Batch {
  import opened Common
  import opened Seqs
  import opened Text
  import opened Resize

  /** The extensions, lower-cased, that make a file an image to compress. */
  const ImageExtensions: set<string> := {"jpg", "jpeg", "png"}

  /** main.py:73 and main.py:78: the lower-cased name ends with ".jpg", ".jpeg" or
      ".png". */
  predicate IsEligible(name: string)
  {
    var low := Lower(name);
    EndsWith(low, ".jpg") || EndsWith(low, ".jpeg") || EndsWith(low, ".png")
  }

  /** `file.lower().split(".")[-1]`: the part of the lower-cased name after its last
      dot, or the whole lower-cased name when it has none. */
  function LowerExtension(name: string): string
  {
    LastSegment(Lower(name), '.')
  }

  /** A name is eligible exactly when it has a dot and its lower-cased extension is
      one of "jpg", "jpeg" and "png". */
  lemma EligibleIffExtension(name: string)
    ensures IsEligible(name) <==> '.' in name && LowerExtension(name) in ImageExtensions
  {
    var low := Lower(name);
    LowerKeeps(name, '.');
    SepSuffix(low, "jpg", '.');
    SepSuffix(low, "jpeg", '.');
    SepSuffix(low, "png", '.');
    assert ['.'] + "jpg" == ".jpg" && ['.'] + "jpeg" == ".jpeg" && ['.'] + "png" == ".png";
  }

  /** main.py:79: `file.replace(file.lower().split(".")[-1], "jpg")`. */
  function OutputName(file: string): string
  {
    Replace(file, LowerExtension(file), "jpg")
  }

  /** When the real extension of an eligible name is already lower case, the output
      name ends with ".jpg": the extension after the last dot becomes "jpg", and so
      does every other occurrence of it in the part before that dot. */
  lemma RenameLowercaseExtension(file: string)
    requires IsEligible(file)
    requires Lower(LastSegment(file, '.')) == LastSegment(file, '.')
    ensures var ext := LastSegment(file, '.');
      && |ext| < |file|
      && OutputName(file) == Replace(file[..|file| - |ext| - 1], ext, "jpg") + ".jpg"
    ensures EndsWith(OutputName(file), ".jpg")
  {
    var ext := LastSegment(file, '.');
    LowerCaseExtension(file);
    var stem := SplitAtLastDot(file);
    ReplaceAcross(stem, ext, ext, "jpg", '.');
    ReplaceWhole(ext, "jpg");
    AppendJpg(Replace(stem, ext, "jpg"));
  }

  /** When the real extension of an eligible name is not lower case, it is kept as
      written: only occurrences of its lower-cased form in the part before the last
      dot are replaced, so "png.PNG" is saved as "jpg.PNG". */
  lemma RenameKeepsNonLowerExtension(file: string)
    requires IsEligible(file)
    requires Lower(LastSegment(file, '.')) != LastSegment(file, '.')
    ensures var ext := LastSegment(file, '.');
      && |ext| < |file|
      && OutputName(file) == Replace(file[..|file| - |ext| - 1], LowerExtension(file), "jpg") + ['.'] + ext
  {
    var ext := LastSegment(file, '.');
    var low := LowerExtension(file);
    LowerLastSegment(file, '.');
    EligibleIffExtension(file);
    assert low == Lower(ext) && low in ImageExtensions;
    LowerKeeps(ext, '.');
    var stem := SplitAtLastDot(file);
    ReplaceAcross(stem, ext, low, "jpg", '.');
    ReplaceSameLength(ext, low, "jpg");
  }

  /** The extension of an eligible name whose last segment is lower case is that last
      segment, which is non-empty and follows a dot. */
  lemma LowerCaseExtension(file: string)
    requires IsEligible(file)
    requires Lower(LastSegment(file, '.')) == LastSegment(file, '.')
    ensures LowerExtension(file) == LastSegment(file, '.')
    ensures '.' in file && |LastSegment(file, '.')| > 0
  {
    LowerLastSegment(file, '.');
    EligibleIffExtension(file);
  }

  lemma AppendJpg(head: string)
    ensures head + ['.'] + "jpg" == head + ".jpg"
    ensures EndsWith(head + ".jpg", ".jpg")
  {
    assert ['.'] + "jpg" == ".jpg";
    var out := head + ".jpg";
    assert out[|out| - 4..] == ".jpg";
  }

  /** A name with a dot is the text before its last dot, the dot, and the last
      segment. */
  lemma SplitAtLastDot(file: string) returns (stem: string)
    requires '.' in file
    ensures var ext := LastSegment(file, '.');
      && |ext| < |file| && '.' !in ext
      && stem == file[..|file| - |ext| - 1]
      && file == stem + ['.'] + ext
  {
    var ext := LastSegment(file, '.');
    LastSegmentShape(file, '.');
    stem := file[..|file| - |ext| - 1];
    assert file[|file| - |ext| - 1..] == [file[|file| - |ext| - 1]] + file[|file| - |ext|..];
    assert file == stem + file[|file| - |ext| - 1..];
  }

  /** When the lower-cased extension does not occur in the name as written, as for an
      upper-case extension, the output name is the input name unchanged. */
  lemma RenameUnchangedWhenAbsent(file: string)
    requires IsEligible(file)
    requires !OccursIn(LowerExtension(file), file)
    ensures OutputName(file) == file
  {
    EligibleIffExtension(file);
    ReplaceAbsent(file, LowerExtension(file), "jpg");
  }

  /** In particular an eligible name without lower-case letters, such as
      "IMG_0001.JPG" or "A.PNG", is kept as it is: its ".JPG" or ".PNG" is not changed. */
  lemma RenameKeepsUpperCaseName(file: string)
    requires IsEligible(file)
    requires forall i :: 0 <= i < |file| ==> !('a' <= file[i] <= 'z')
    ensures OutputName(file) == file
  {
    var ext := LowerExtension(file);
    EligibleIffExtension(file);
    assert 'a' <= ext[0] <= 'z';
    OccursNeedsHead(ext, file);
    RenameUnchangedWhenAbsent(file);
  }

  /** A name ending in ".png" is eligible and its extension is "png", whatever the
      case of the rest of the name. */
  lemma PngName(f: string, stem: string)
    requires f == stem + ".png"
    ensures IsEligible(f)
    ensures LastSegment(f, '.') == "png"
  {
    PngSuffix(stem);
    PngEligible(f);
    SepSuffix(f, "png", '.');
  }

  lemma PngSuffix(stem: string)
    ensures EndsWith(stem + ".png", ".png")
    ensures EndsWith(stem + ".png", ['.'] + "png")
  {
    assert ['.'] + "png" == ".png";
    var f := stem + ".png";
    assert f[|f| - 4..] == ".png";
  }

  lemma PngEligible(f: string)
    requires EndsWith(f, ".png")
    ensures IsEligible(f)
  {
    LowerSuffix(f, ".png");
    LowerPng();
  }

  lemma LowerPng()
    ensures Lower(".png") == ".png"
  {
    var low := Lower(".png");
    assert low[0] == '.' && low[1] == 'p' && low[2] == 'n' && low[3] == 'g';
  }

  /** The renaming of a name whose last segment is "png". */
  lemma RenamePng(f: string, stem: string)
    requires f == stem + ".png"
    ensures OutputName(f) == Replace(stem, "png", "jpg") + ".jpg"
  {
    PngName(f, stem);
    assert Lower("png") == "png";
    RenameLowercaseExtension(f);
    assert f[..|f| - 4] == stem;
  }

  /** The usual case: "name.png" is saved as "name.jpg" when "png" does not occur in
      "name". */
  lemma RenamePlainPng(stem: string)
    requires !OccursIn("png", stem)
    ensures OutputName(stem + ".png") == stem + ".jpg"
  {
    RenamePng(stem + ".png", stem);
    ReplaceAbsent(stem, "png", "jpg");
  }

  /** Every occurrence of the extension is replaced, not only the last one:
      "png" + rest + ".png" is saved as "jpg" + rest + ".jpg". */
  lemma RenameEveryOccurrence(rest: string)
    requires !OccursIn("png", rest)
    ensures OutputName("png" + rest + ".png") == "jpg" + rest + ".jpg"
  {
    var stem := "png" + rest;
    assert "png" + rest + ".png" == stem + ".png";
    RenamePng(stem + ".png", stem);
    assert stem[..3] == "png" && stem[3..] == rest;
    assert Replace(stem, "png", "jpg") == "jpg" + Replace(rest, "png", "jpg");
    ReplaceAbsent(rest, "png", "jpg");
  }

  /** An upper-case extension is left as it is: the file keeps ".PNG". */
  lemma RenameExampleUpperCase()
    ensures OutputName("A.PNG") == "A.PNG"
  {
    var f := "A.PNG";
    assert Lower(f) == "a.png";
    RenameKeepsUpperCaseName(f);
  }

  /** `os.path.join(dir, name)`, kept as the pair it is built from. */
  datatype Path = Joined(dir: string, name: string)

  /** One call `compress_img(source, dest, quality, width, height)`. */
  datatype CompressCall = CompressCall(source: Path, dest: Path, quality: int, width: Option<int>, height: Option<int>)

  /** The call made for an eligible file `file` of `folder` (main.py:79-80). */
  function CallFor(folder: string, outputFolder: string, quality: int, width: Option<int>, height: Option<int>, file: string): CompressCall
  {
    CompressCall(Joined(folder, file), Joined(outputFolder, OutputName(file)), quality, width, height)
  }

  /** The calls made for the given files, in their order: one per file. */
  function CallsFor(folder: string, outputFolder: string, quality: int, width: Option<int>, height: Option<int>, files: seq<string>): (calls: seq<CompressCall>)
    ensures |calls| == |files|
    decreases |files|
  {
    if files == [] then []
    else
      var last := CallFor(folder, outputFolder, quality, width, height, files[|files| - 1]);
      CallsFor(folder, outputFolder, quality, width, height, files[..|files| - 1]) + [last]
  }

  /** The `k`-th call is the one made for the `k`-th file. */
  lemma {:induction false} CallsForAt(folder: string, outputFolder: string, quality: int, width: Option<int>, height: Option<int>, files: seq<string>, k: nat)
    requires k < |files|
    ensures CallsFor(folder, outputFolder, quality, width, height, files)[k] == CallFor(folder, outputFolder, quality, width, height, files[k])
    decreases |files|
  {
    if k < |files| - 1 {
      CallsForAt(folder, outputFolder, quality, width, height, files[..|files| - 1], k);
    }
  }

  /** The calls for the eligible names of a prefix of the listing, one name longer. */
  lemma CallsStep(folder: string, outputFolder: string, quality: int, width: Option<int>, height: Option<int>, listing: seq<string>, i: nat)
    requires i < |listing|
    ensures IsEligible(listing[i]) ==>
      CallsFor(folder, outputFolder, quality, width, height, Filter(listing[..i + 1], IsEligible))
      == CallsFor(folder, outputFolder, quality, width, height, Filter(listing[..i], IsEligible))
         + [CallFor(folder, outputFolder, quality, width, height, listing[i])]
    ensures !IsEligible(listing[i]) ==>
      CallsFor(folder, outputFolder, quality, width, height, Filter(listing[..i + 1], IsEligible))
      == CallsFor(folder, outputFolder, quality, width, height, Filter(listing[..i], IsEligible))
  {
    FilterPrefixStep(listing, i, IsEligible);
    var before := Filter(listing[..i], IsEligible);
    if IsEligible(listing[i]) {
      assert (before + [listing[i]])[..|before|] == before;
    } else {
      assert before + [] == before;
    }
  }

  /** The calls for the eligible names of a listing are exactly the calls for the
      eligible names it lists: each call reads a listed, eligible name, and each
      listed, eligible name is read by a call. */
  lemma CallsMatchEligible(folder: string, outputFolder: string, quality: int, width: Option<int>, height: Option<int>, listing: seq<string>)
    ensures var calls := CallsFor(folder, outputFolder, quality, width, height, Filter(listing, IsEligible));
      forall k :: 0 <= k < |calls| ==> calls[k].source.name in listing && IsEligible(calls[k].source.name)
    ensures var calls := CallsFor(folder, outputFolder, quality, width, height, Filter(listing, IsEligible));
      forall name :: name in listing && IsEligible(name) ==> CallFor(folder, outputFolder, quality, width, height, name) in calls
  {
    var files := Filter(listing, IsEligible);
    var calls := CallsFor(folder, outputFolder, quality, width, height, files);
    FilterMembers(listing, IsEligible);
    forall k | 0 <= k < |calls|
      ensures calls[k].source.name in listing && IsEligible(calls[k].source.name)
    {
      CallsForAt(folder, outputFolder, quality, width, height, files, k);
      assert files[k] in files;
    }
    forall name | name in listing && IsEligible(name)
      ensures CallFor(folder, outputFolder, quality, width, height, name) in calls
    {
      var k :| 0 <= k < |files| && files[k] == name;
      CallsForAt(folder, outputFolder, quality, width, height, files, k);
    }
  }

  /** The first loop of `iterate_through_folder` (main.py:71-74): the number of
      eligible names in the listing. */
  method CountEligible(listing: seq<string>) returns (counter: nat)
    ensures counter == |Filter(listing, IsEligible)|
  {
    counter := 0;
    for i := 0 to |listing|
      invariant counter == |Filter(listing[..i], IsEligible)|
    {
      FilterPrefixStep(listing, i, IsEligible);
      if IsEligible(listing[i]) {
        counter := counter + 1;
      }
    }
    assert listing[..|listing|] == listing;
  }

  /** The second loop of `iterate_through_folder` (main.py:76-80): one
      `compress_img` call per eligible name, in listing order. With neither bound
      given, the first call raises at main.py:36 and the exception ends the loop. */
  method DispatchCalls(folder: string, listing: seq<string>, outputFolder: string, quality: int, width: Option<int>, height: Option<int>)
    returns (calls: seq<CompressCall>, outcome: Result<(), ResizeError>)
    ensures outcome.Err? <==> width.None? && height.None? && |Filter(listing, IsEligible)| > 0
    ensures outcome.Ok? ==> calls == CallsFor(folder, outputFolder, quality, width, height, Filter(listing, IsEligible))
    ensures outcome.Err? ==> calls == CallsFor(folder, outputFolder, quality, width, height, Filter(listing, IsEligible)[..1])
  {
    calls := [];
    for i := 0 to |listing|
      invariant calls == CallsFor(folder, outputFolder, quality, width, height, Filter(listing[..i], IsEligible))
      invariant width.None? && height.None? ==> calls == []
    {
      CallsStep(folder, outputFolder, quality, width, height, listing, i);
      var file := listing[i];
      if IsEligible(file) {
        calls := calls + [CallFor(folder, outputFolder, quality, width, height, file)];
        // Neither bound given: exactly when `Resize.SizeRatio` returns `Err` for
        // every image size, so this call raises at main.py:36.
        if width.None? && height.None? {
          FirstAccepted(listing, i, IsEligible);
          return calls, Err(NoneOperand);
        }
      }
    }
    assert listing[..|listing|] == listing;
    return calls, Ok(());
  }

  /** `iterate_through_folder` over one listing of `folder`: the counter is the number
      of eligible names, and the calls are one per eligible name, in listing order,
      and none for any other name. With neither bound given, the batch stops with
      the error raised by the first call, once there is an eligible name. */
  method IterateThroughFolder(folder: string, listing: seq<string>, outputFolder: string, quality: int, width: Option<int>, height: Option<int>)
    returns (counter: nat, calls: seq<CompressCall>, outcome: Result<(), ResizeError>)
    ensures counter == |Filter(listing, IsEligible)|
    ensures outcome.Err? <==> width.None? && height.None? && counter > 0
    ensures outcome.Ok? ==> calls == CallsFor(folder, outputFolder, quality, width, height, Filter(listing, IsEligible))
    ensures outcome.Ok? ==> |calls| == counter
    ensures outcome.Err? ==> calls == CallsFor(folder, outputFolder, quality, width, height, Filter(listing, IsEligible)[..1])
    ensures outcome.Err? ==> |calls| == 1
  {
    counter := CountEligible(listing);
    calls, outcome := DispatchCalls(folder, listing, outputFolder, quality, width, height);
  }
}
