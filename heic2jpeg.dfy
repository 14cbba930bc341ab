/** The batch converter: choosing the files to convert from a directory
    listing (`get_files`) and deriving the output path of each one
    (`convert_files`). Listing the directory, decoding and encoding images
    and writing files happen outside this model; the listing is an input and
    a saved file is the output path it is written to. */
module Heic2Jpeg {
  import opened PosixPath

  datatype Option<T> = None | Some(value: T)

  /** One name from the listing of the source directory, and whether the
      path it names is a directory. */
  datatype Entry = Entry(name: string, isDir: bool)

  /** Why listing the source directory failed. */
  datatype ListError = PermissionDenied | NotADirectory | NotFound | OtherOsError

  /** What listing the source directory gave. */
  datatype Listing = Listed(entries: seq<Entry>) | ListFailed(error: ListError)

  /** A call either returns a value or lets an exception escape to its caller. */
  datatype Outcome<T> = Returned(value: T) | Raised(error: ListError)

  /** A real directory listing: names are distinct, non-empty and hold no
      separator. */
  predicate WellFormed(entries: seq<Entry>) {
    && (forall i :: 0 <= i < |entries| ==> entries[i].name != [] && NoSep(entries[i].name))
    && (forall i, j :: 0 <= i < j < |entries| ==> entries[i].name != entries[j].name)
  }

  /** The comprehension's condition: not a directory, and the name ends with
      the filter as a raw, case-sensitive suffix. */
  predicate Selected(e: Entry, ext: string) {
    !e.isDir && EndsWith(e.name, ext)
  }

  /** The errors `get_files` catches and logs; any other escapes. */
  predicate Caught(e: ListError) {
    e == PermissionDenied || e == NotADirectory
  }

  /** The number of entries the filter keeps, counted from the front. */
  function CountSelected(entries: seq<Entry>, ext: string): (n: nat)
    ensures n <= |entries|
  {
    if entries == [] then 0
    else (if Selected(entries[0], ext) then 1 else 0) + CountSelected(entries[1..], ext)
  }

  /** The positions of the entries the filter keeps, in listing order. */
  function SelectedIndices(entries: seq<Entry>, ext: string): (ix: seq<nat>)
    ensures forall k :: 0 <= k < |ix| ==> ix[k] < |entries| && Selected(entries[ix[k]], ext)
    ensures forall k, l :: 0 <= k < l < |ix| ==> ix[k] < ix[l]
    ensures forall i :: 0 <= i < |entries| && Selected(entries[i], ext) ==> i in ix
  {
    if entries == [] then []
    else
      var n := |entries| - 1;
      var front := entries[..n];
      SelectedIndices(front, ext) + (if Selected(entries[n], ext) then [n] else [])
  }

  /** The list comprehension of `get_files`: each kept entry joined onto
      `path`, in listing order. */
  function Filtered(path: string, entries: seq<Entry>, ext: string): (r: seq<string>)
    ensures |r| <= |entries|
    ensures forall k :: 0 <= k < |r| ==> EndsWith(r[k], ext)
  {
    if entries == [] then []
    else
      var n := |entries| - 1;
      var rest := Filtered(path, entries[..n], ext);
      if Selected(entries[n], ext) then
        var p := Join(path, entries[n].name);
        EndsWithTrans(p, entries[n].name, ext);
        rest + [p]
      else
        rest
  }

  /** `get_files(path, ext)` given what listing `path` gives. A permission or
      not-a-directory failure is logged and the function returns nothing
      (Python's `None`), not an empty list; any other listing failure, such as
      a missing directory, escapes. */
  function GetFiles(path: string, listing: Listing, ext: string): (r: Outcome<Option<seq<string>>>)
    ensures r == Returned(None) <==> listing.ListFailed? && Caught(listing.error)
    ensures r.Raised? <==> listing.ListFailed? && !Caught(listing.error)
    ensures r.Raised? ==> r.error == listing.error
    ensures listing.Listed? ==> r == Returned(Some(Filtered(path, listing.entries, ext)))
    ensures r.Returned? && r.value.Some? ==>
      && listing.Listed?
      && |r.value.value| == CountSelected(listing.entries, ext)
      && forall k :: 0 <= k < |r.value.value| ==> EndsWith(r.value.value[k], ext)
  {
    match listing
    case Listed(entries) =>
      FilteredCount(path, entries, ext);
      Returned(Some(Filtered(path, entries, ext)))
    case ListFailed(e) =>
      if Caught(e) then Returned(None) else Raised(e)
  }

  /** The name a converted file is saved under: the input's base name with
      its last extension replaced by `.` and the output format. */
  function NewFileName(fileName: string, fileFormat: string): (r: string)
    ensures EndsWith(r, [ExtSep] + fileFormat)
    ensures r[..|r| - |fileFormat| - 1] + SplitExt(fileName).1 == fileName
  {
    var (oldFileName, _) := SplitExt(fileName);
    oldFileName + [ExtSep] + fileFormat
  }

  /** The path `convert_files` saves the image decoded from `f` to. */
  function OutputFileName(outputPath: string, fileFormat: string, f: string): (r: string)
    ensures EndsWith(r, [ExtSep] + fileFormat)
  {
    var (srcPath, fileName) := Split(f);
    var p := Join(outputPath, NewFileName(fileName, fileFormat));
    EndsWithTrans(p, NewFileName(fileName, fileFormat), [ExtSep] + fileFormat);
    p
  }

  /** The paths `convert_files` saves to, one per input and in input order. */
  function ConvertTargets(outputPath: string, fileFormat: string, files: seq<string>): (r: seq<string>)
    ensures |r| == |files|
    ensures forall i :: 0 <= i < |files| ==> r[i] == OutputFileName(outputPath, fileFormat, files[i])
  {
    if files == [] then []
    else [OutputFileName(outputPath, fileFormat, files[0])] + ConvertTargets(outputPath, fileFormat, files[1..])
  }

  /** Which save each output path holds once the batch is done: saving to a
      path that exists overwrites it, so the last save to a path wins. */
  function FinalWriters(targets: seq<string>): (w: map<string, nat>)
    ensures w.Keys == set i | 0 <= i < |targets| :: targets[i]
    ensures forall p :: p in w ==> w[p] < |targets| && targets[w[p]] == p
    ensures forall p, j :: p in w && w[p] < j < |targets| ==> targets[j] != p
  {
    if targets == [] then map[]
    else
      var n := |targets| - 1;
      var front := targets[..n];
      var w := FinalWriters(front);
      assert forall i :: 0 <= i < n ==> targets[i] == front[i];
      w[targets[n] := n]
  }

  /** A suffix of a suffix is a suffix. */
  lemma EndsWithTrans(a: string, b: string, c: string)
    requires EndsWith(a, b) && EndsWith(b, c)
    ensures EndsWith(a, c)
  {
  }

  /** The comprehension keeps exactly the entries the filter selects, in
      listing order: its k-th path is the joined name of the k-th selected
      entry. */
  lemma {:induction false} FilteredIsSelection(path: string, entries: seq<Entry>, ext: string)
    ensures var r, ix := Filtered(path, entries, ext), SelectedIndices(entries, ext);
      |r| == |ix| && forall k :: 0 <= k < |r| ==> r[k] == Join(path, entries[ix[k]].name)
  {
    if entries != [] {
      var n := |entries| - 1;
      var front := entries[..n];
      FilteredIsSelection(path, front, ext);
      var r', ix' := Filtered(path, front, ext), SelectedIndices(front, ext);
      var r, ix := Filtered(path, entries, ext), SelectedIndices(entries, ext);
      forall k | 0 <= k < |ix'|
        ensures ix[k] == ix'[k] && r[k] == r'[k] && entries[ix[k]] == front[ix'[k]]
      {
      }
      if Selected(entries[n], ext) {
        assert r == r' + [Join(path, entries[n].name)];
        assert ix == ix' + [n];
      } else {
        assert r == r' && ix == ix';
      }
    }
  }

  /** Counting kept entries distributes over concatenation. */
  lemma {:induction false} CountSelectedAppend(a: seq<Entry>, b: seq<Entry>, ext: string)
    ensures CountSelected(a + b, ext) == CountSelected(a, ext) + CountSelected(b, ext)
  {
    if a == [] {
      assert a + b == b;
    } else {
      assert (a + b)[0] == a[0];
      assert (a + b)[1..] == a[1..] + b;
      CountSelectedAppend(a[1..], b, ext);
    }
  }

  /** The comprehension returns one path per selected entry. */
  lemma {:induction false} FilteredCount(path: string, entries: seq<Entry>, ext: string)
    ensures |Filtered(path, entries, ext)| == CountSelected(entries, ext)
  {
    if entries != [] {
      var n := |entries| - 1;
      FilteredCount(path, entries[..n], ext);
      assert entries == entries[..n] + [entries[n]];
      CountSelectedAppend(entries[..n], [entries[n]], ext);
    }
  }

  /** Every selected entry's path is in the result. */
  lemma FilteredComplete(path: string, entries: seq<Entry>, ext: string, i: nat)
    requires i < |entries| && Selected(entries[i], ext)
    ensures Join(path, entries[i].name) in Filtered(path, entries, ext)
  {
  }

  /** Joining plain components onto one path never merges two of them. */
  lemma JoinInjective(path: string, a: string, b: string)
    requires NoSep(a) && NoSep(b) && Join(path, a) == Join(path, b)
    ensures a == b
  {
    var pa := JoinPrefix(path, a);
    var pb := JoinPrefix(path, b);
    assert pa == pb;
    assert (pa + a)[|pa|..] == a;
    assert (pb + b)[|pb|..] == b;
  }

  /** In a real listing, no entry flagged as a directory has its path in the
      result, whatever its name. */
  lemma FilteredExcludesDirectories(path: string, entries: seq<Entry>, ext: string, i: nat)
    requires WellFormed(entries)
    requires i < |entries| && entries[i].isDir
    ensures Join(path, entries[i].name) !in Filtered(path, entries, ext)
  {
    var r := Filtered(path, entries, ext);
    var ix := SelectedIndices(entries, ext);
    FilteredIsSelection(path, entries, ext);
    if Join(path, entries[i].name) in r {
      var k :| 0 <= k < |r| && r[k] == Join(path, entries[i].name);
      JoinInjective(path, entries[ix[k]].name, entries[i].name);
      assert false;
    }
  }

  /** Splitting a path `get_files` returns gives back the listed name as the
      base name `convert_files` works on. */
  lemma FilteredSplitsToName(path: string, entries: seq<Entry>, ext: string, k: nat)
    requires WellFormed(entries)
    requires k < |Filtered(path, entries, ext)|
    ensures var ix := SelectedIndices(entries, ext);
      |ix| == |Filtered(path, entries, ext)| &&
      Split(Filtered(path, entries, ext)[k]).1 == entries[ix[k]].name
  {
    FilteredIsSelection(path, entries, ext);
    var ix := SelectedIndices(entries, ext);
    SplitJoinTail(path, entries[ix[k]].name);
  }

  /** A new name built from a plain base name and a plain format holds no
      separator. */
  lemma NewFileNameNoSep(fileName: string, fileFormat: string)
    requires NoSep(fileName) && NoSep(fileFormat)
    ensures NoSep(NewFileName(fileName, fileFormat))
  {
    var stem := SplitExt(fileName).0;
    var newName := NewFileName(fileName, fileFormat);
    assert newName == stem + [ExtSep] + fileFormat;
    assert forall k :: 0 <= k < |stem| ==> newName[k] == fileName[k];
    assert forall k :: |stem| < k < |newName| ==> newName[k] == fileFormat[k - |stem| - 1];
  }

  /** A converted file lands directly inside the output directory under its
      new name, whatever form the output directory is given in: the head is
      the output directory without its trailing separators, or unchanged when
      it is empty or made of separators only. */
  lemma OutputFileNameSplits(outputPath: string, fileFormat: string, f: string)
    requires NoSep(fileFormat)
    ensures Split(OutputFileName(outputPath, fileFormat, f)) ==
      (if HasNonSep(outputPath) then RStripSep(outputPath) else outputPath,
       NewFileName(Split(f).1, fileFormat))
  {
    var fileName := Split(f).1;
    NewFileNameNoSep(fileName, fileFormat);
    SplitJoinAny(outputPath, NewFileName(fileName, fileFormat));
  }

  /** The output keeps the input's base name: splitting the new name's
      extension off gives the stem of the input's name and `.` followed by
      the output format. */
  lemma NewFileNameKeepsStem(fileName: string, fileFormat: string)
    requires NoSep(fileName) && HasNonDot(fileName)
    requires NoSep(fileFormat) && NoExtSep(fileFormat)
    ensures SplitExt(NewFileName(fileName, fileFormat)) == (SplitExt(fileName).0, [ExtSep] + fileFormat)
  {
    var (stem, ext) := SplitExt(fileName);
    assert forall k :: 0 <= k < |stem| ==> stem[k] == fileName[k];
    if ext == [] {
      assert stem == fileName;
    }
    SplitExtAppend(stem, fileFormat);
  }

  /** A file `stem.ext` anywhere is saved as `stem.fileFormat` inside the
      output directory, when the stem is not made of dots only. */
  lemma ConvertSwapsExtension(dir: string, stem: string, ext: string, outputPath: string, fileFormat: string)
    requires NoSep(stem) && HasNonDot(stem)
    requires NoSep(ext) && NoExtSep(ext)
    requires NoSep(fileFormat)
    ensures OutputFileName(outputPath, fileFormat, Join(dir, stem + [ExtSep] + ext)) ==
      Join(outputPath, stem + [ExtSep] + fileFormat)
  {
    var name := stem + [ExtSep] + ext;
    assert NoSep(name) by {
      assert forall k :: 0 <= k < |stem| ==> name[k] == stem[k];
      assert forall k :: |stem| < k < |name| ==> name[k] == ext[k - |stem| - 1];
    }
    SplitJoinTail(dir, name);
    SplitExtAppend(stem, ext);
  }

  /** Only the last extension is replaced. */
  lemma NewFileNameReplacesLastExtension()
    ensures NewFileName("a.b.HEIC", "JPEG") == "a.b.JPEG"
  {
    assert "a.b"[0] != ExtSep;
    assert "a.b.HEIC" == "a.b" + [ExtSep] + "HEIC";
    SplitExtAppend("a.b", "HEIC");
  }

  /** A name whose only `.` is its first character, such as `.bashrc`, has
      no extension: the format is appended to the whole name. */
  lemma NewFileNameKeepsLeadingDot(rest: string, fileFormat: string)
    requires NoSep(rest) && NoExtSep(rest)
    ensures NewFileName([ExtSep] + rest, fileFormat) == [ExtSep] + rest + [ExtSep] + fileFormat
  {
  }

  /** A name without a `.` has no extension: the format is appended to the
      whole name. */
  lemma NewFileNameWithoutExtension(name: string, fileFormat: string)
    requires NoSep(name) && NoExtSep(name)
    ensures NewFileName(name, fileFormat) == name + [ExtSep] + fileFormat
  {
  }

  /** The filter is a raw suffix: `heic` keeps `thing.noheic`, and the empty
      filter keeps every file. */
  lemma SuffixFilterIsRaw(e: Entry)
    requires !e.isDir
    ensures Selected(Entry("thing.noheic", false), "heic")
    ensures Selected(e, "")
  {
  }

  /** A listing of two files that both pass the filter yields both paths,
      in order. */
  lemma FilteredKeepsBoth(dir: string, n1: string, n2: string, ext: string)
    requires EndsWith(n1, ext) && EndsWith(n2, ext)
    ensures Filtered(dir, [Entry(n1, false), Entry(n2, false)], ext) == [Join(dir, n1), Join(dir, n2)]
  {
  }

  /** The targets of a two-file batch, one per file. */
  lemma ConvertTargetsPair(outputPath: string, fileFormat: string, f1: string, f2: string)
    ensures ConvertTargets(outputPath, fileFormat, [f1, f2]) ==
      [OutputFileName(outputPath, fileFormat, f1), OutputFileName(outputPath, fileFormat, f2)]
  {
    var r := ConvertTargets(outputPath, fileFormat, [f1, f2]);
    assert |r| == 2 && r[0] == OutputFileName(outputPath, fileFormat, f1);
    assert r[1] == OutputFileName(outputPath, fileFormat, f2);
  }

  /** Saving twice to one path leaves the second save there. */
  lemma SavedTwiceKeepsLast(saved: string)
    ensures FinalWriters([saved, saved]) == map[saved := 1]
  {
  }

  /** Two inputs with the same stem, such as `a.HEIC` and `a.xHEIC` under
      the filter `HEIC`, are both kept by the filter and saved to the same
      path, so the later one overwrites the earlier. */
  lemma SameStemCollides(dir: string, stem: string, e1: string, e2: string, ext: string,
                         outputPath: string, fileFormat: string)
    requires NoSep(stem) && HasNonDot(stem)
    requires NoSep(e1) && NoExtSep(e1) && NoSep(e2) && NoExtSep(e2)
    requires EndsWith(stem + [ExtSep] + e1, ext) && EndsWith(stem + [ExtSep] + e2, ext)
    requires NoSep(fileFormat)
    ensures var listing := [Entry(stem + [ExtSep] + e1, false), Entry(stem + [ExtSep] + e2, false)];
      var files := Filtered(dir, listing, ext);
      var saved := Join(outputPath, stem + [ExtSep] + fileFormat);
      && files == [Join(dir, stem + [ExtSep] + e1), Join(dir, stem + [ExtSep] + e2)]
      && ConvertTargets(outputPath, fileFormat, files) == [saved, saved]
      && FinalWriters(ConvertTargets(outputPath, fileFormat, files)) == map[saved := 1]
  {
    FilteredKeepsBoth(dir, stem + [ExtSep] + e1, stem + [ExtSep] + e2, ext);
    ConvertSwapsExtension(dir, stem, e1, outputPath, fileFormat);
    ConvertSwapsExtension(dir, stem, e2, outputPath, fileFormat);
    ConvertTargetsPair(outputPath, fileFormat, Join(dir, stem + [ExtSep] + e1), Join(dir, stem + [ExtSep] + e2));
    SavedTwiceKeepsLast(Join(outputPath, stem + [ExtSep] + fileFormat));
  }

  /** Of `s1.HEIC`, `s2.HEIC` and `s3.txt`, the filter `HEIC` keeps the
      first two. */
  lemma FilteredSkipsOtherSuffix(dir: string, s1: string, s2: string, s3: string)
    ensures Filtered(dir, [Entry(s1 + ".HEIC", false), Entry(s2 + ".HEIC", false), Entry(s3 + ".txt", false)], "HEIC") ==
      [Join(dir, s1 + ".HEIC"), Join(dir, s2 + ".HEIC")]
  {
    var n1, n2, n3 := s1 + ".HEIC", s2 + ".HEIC", s3 + ".txt";
    var entries := [Entry(n1, false), Entry(n2, false), Entry(n3, false)];
    assert n1[|s1| + 1..] == "HEIC" && n2[|s2| + 1..] == "HEIC";
    assert n3[|s3| + 1..] == "txt";
    assert !Selected(entries[2], "HEIC");
    assert entries[..2] == [Entry(n1, false), Entry(n2, false)];
    FilteredKeepsBoth(dir, n1, n2, "HEIC");
  }

  /** Two `.HEIC` files are saved as the matching `.JPEG` names, in order. */
  lemma ConvertTargetsOfHeicPair(dir: string, s1: string, s2: string, outputPath: string)
    requires NoSep(s1) && HasNonDot(s1) && NoSep(s2) && HasNonDot(s2)
    ensures ConvertTargets(outputPath, "JPEG", [Join(dir, s1 + ".HEIC"), Join(dir, s2 + ".HEIC")]) ==
      [Join(outputPath, s1 + ".JPEG"), Join(outputPath, s2 + ".JPEG")]
  {
    var n1, n2 := s1 + ".HEIC", s2 + ".HEIC";
    assert n1 == s1 + [ExtSep] + "HEIC" && n2 == s2 + [ExtSep] + "HEIC";
    assert s1 + ".JPEG" == s1 + [ExtSep] + "JPEG" && s2 + ".JPEG" == s2 + [ExtSep] + "JPEG";
    ConvertSwapsExtension(dir, s1, "HEIC", outputPath, "JPEG");
    ConvertSwapsExtension(dir, s2, "HEIC", outputPath, "JPEG");
    ConvertTargetsPair(outputPath, "JPEG", Join(dir, n1), Join(dir, n2));
  }

  /** Saving to two paths leaves those two paths. */
  lemma FinalWritersOfPair(a: string, b: string)
    ensures FinalWriters([a, b]).Keys == {a, b}
  {
  }

  /** A directory holding `s1.HEIC`, `s2.HEIC` and `s3.txt`, converted with
      the filter `HEIC` to `JPEG`, makes the batch write exactly the paths of
      `s1.JPEG` and `s2.JPEG` in the output directory and ignores `s3.txt`. */
  lemma ConvertDirectoryExample(dir: string, s1: string, s2: string, s3: string, outputPath: string)
    requires NoSep(s1) && HasNonDot(s1) && NoSep(s2) && HasNonDot(s2)
    ensures var listing := Listed([Entry(s1 + ".HEIC", false), Entry(s2 + ".HEIC", false), Entry(s3 + ".txt", false)]);
      var got := GetFiles(dir, listing, "HEIC");
      && got == Returned(Some([Join(dir, s1 + ".HEIC"), Join(dir, s2 + ".HEIC")]))
      && FinalWriters(ConvertTargets(outputPath, "JPEG", got.value.value)).Keys ==
         {Join(outputPath, s1 + ".JPEG"), Join(outputPath, s2 + ".JPEG")}
  {
    FilteredSkipsOtherSuffix(dir, s1, s2, s3);
    ConvertTargetsOfHeicPair(dir, s1, s2, outputPath);
    FinalWritersOfPair(Join(outputPath, s1 + ".JPEG"), Join(outputPath, s2 + ".JPEG"));
  }
}
