/**
 * The known-face loader of `FaceRecognition.load_known_faces`, as functions:
 * which directory entries are candidate images, the name derived from each
 * path, and the sequence of faces a loading pass produces.
 */
module KnownFaces {
  import opened Wrappers
  import opened PyStr
  import opened PosixPath
  import opened Sequences

  /** A face feature vector, produced and compared by the face-recognition library. */
  datatype Encoding = Encoding(features: seq<real>)

  /** One loaded reference face: the name derived from its file and its encoding. */
  datatype KnownFace = KnownFace(name: string, encoding: Encoding)

  /** The suffixes the loader accepts, compared against the lower-cased entry name. */
  const ImageExtensions: seq<string> := [".png", ".jpg", ".jpeg", ".bmp"]

  /** `f.lower().endswith(('.png', '.jpg', '.jpeg', '.bmp'))`. */
  predicate IsImageFile(entry: string) {
    EndsWithAny(Lower(entry), ImageExtensions)
  }

  /** Every image extension is one dot followed by characters that are not dots. */
  lemma ExtensionShape(k: nat)
    requires k < |ImageExtensions|
    ensures 1 <= |ImageExtensions[k]| && ImageExtensions[k][0] == ExtSep
    ensures forall j :: 1 <= j < |ImageExtensions[k]| ==> ImageExtensions[k][j] != ExtSep
  {
  }

  /** A kept entry has a last '.', and the text from there on is an image extension in some letter case. */
  lemma ImageFileHasExtension(entry: string)
    requires IsImageFile(entry)
    ensures var d := RFind(entry, ExtSep); 0 <= d && Lower(entry[d..]) in ImageExtensions
  {
    var low := Lower(entry);
    EndsWithAnyIff(low, ImageExtensions);
    var k :| 0 <= k < |ImageExtensions| && EndsWith(low, ImageExtensions[k]);
    var ext := ImageExtensions[k];
    ExtensionShape(k);
    var start := |entry| - |ext|;
    assert low[start..] == ext;
    assert low[start] == ExtSep;
    LowerKeepsDots(entry, start);
    forall j | start < j < |entry| ensures entry[j] != ExtSep {
      assert low[j] == ext[j - start];
      LowerKeepsDots(entry, j);
    }
    RFindAt(entry, ExtSep, start);
    LowerSuffix(entry, start);
  }

  /** An entry whose text from its last '.' on is an image extension in some letter case is kept. */
  lemma ExtensionMakesImageFile(entry: string)
    requires var d := RFind(entry, ExtSep); 0 <= d && Lower(entry[d..]) in ImageExtensions
    ensures IsImageFile(entry)
  {
    var low := Lower(entry);
    var d := RFind(entry, ExtSep);
    LowerSuffix(entry, d);
    var k :| 0 <= k < |ImageExtensions| && ImageExtensions[k] == low[d..];
    assert EndsWith(low, ImageExtensions[k]);
    EndsWithAnyIff(low, ImageExtensions);
  }

  /**
   * An independent reading of the filter: an entry is kept exactly when it
   * has a last '.' and the text from there on, in any letter case, is one of
   * the image extensions.
   */
  lemma ImageFileByExtension(entry: string)
    ensures IsImageFile(entry) <==>
      (var d := RFind(entry, ExtSep); 0 <= d && Lower(entry[d..]) in ImageExtensions)
  {
    if IsImageFile(entry) {
      ImageFileHasExtension(entry);
    }
    var d := RFind(entry, ExtSep);
    if 0 <= d && Lower(entry[d..]) in ImageExtensions {
      ExtensionMakesImageFile(entry);
    }
  }

  /** An entry whose lower-cased name ends with the k-th image extension is kept. */
  lemma KeptBySuffix(entry: string, k: nat)
    requires k < |ImageExtensions| && EndsWith(Lower(entry), ImageExtensions[k])
    ensures IsImageFile(entry)
  {
    EndsWithAnyIff(Lower(entry), ImageExtensions);
  }

  /** An upper-case extension is kept. */
  lemma ImageFileKeptUpper()
    ensures IsImageFile("A.JPG")
  {
    assert Lower("A.JPG") == "a.jpg";
    KeptBySuffix("A.JPG", 1);
  }

  /** A lower-case extension is kept. */
  lemma ImageFileKeptPlain()
    ensures IsImageFile("alice.jpg")
  {
    assert Lower("alice.jpg") == "alice.jpg";
    KeptBySuffix("alice.jpg", 1);
  }

  /** A mixed-case four-letter extension is kept. */
  lemma ImageFileKeptMixed()
    ensures IsImageFile("scan.Jpeg")
  {
    assert Lower("scan.Jpeg") == "scan.jpeg";
    KeptBySuffix("scan.Jpeg", 2);
  }

  /** Letter case in the extension does not matter. */
  lemma ImageFileKeptExamples()
    ensures IsImageFile("A.JPG") && IsImageFile("alice.jpg") && IsImageFile("scan.Jpeg")
  {
    ImageFileKeptUpper();
    ImageFileKeptPlain();
    ImageFileKeptMixed();
  }

  /** Every image extension ends in 'g' or 'p', so an entry whose lower-cased name ends otherwise is dropped. */
  lemma DroppedByLastChar(entry: string)
    requires 0 < |entry| && Lower(entry)[|entry| - 1] != 'g' && Lower(entry)[|entry| - 1] != 'p'
    ensures !IsImageFile(entry)
  {
    var low := Lower(entry);
    EndsWithAnyIff(low, ImageExtensions);
    forall k | 0 <= k < |ImageExtensions| ensures !EndsWith(low, ImageExtensions[k]) {
      var ext := ImageExtensions[k];
      assert ext[|ext| - 1] == 'g' || ext[|ext| - 1] == 'p';
    }
  }

  /** Every image extension holds a dot, so an entry without one is dropped. */
  lemma DroppedWithoutDot(entry: string)
    requires ExtSep !in entry
    ensures !IsImageFile(entry)
  {
    var low := Lower(entry);
    EndsWithAnyIff(low, ImageExtensions);
    forall k | 0 <= k < |ImageExtensions| ensures !EndsWith(low, ImageExtensions[k]) {
      var ext := ImageExtensions[k];
      ExtensionShape(k);
      if EndsWith(low, ext) {
        var start := |low| - |ext|;
        assert low[start..][0] == low[start];
        LowerKeepsDots(entry, start);
      }
    }
  }

  /** Other suffixes are dropped, also when an image extension appears earlier in the name. */
  lemma ImageFileDroppedExamples()
    ensures !IsImageFile("note.txt") && !IsImageFile("photo.jpg.txt") && !IsImageFile("jpg")
  {
    assert LowerChar('t') == 't';
    DroppedByLastChar("note.txt");
    DroppedByLastChar("photo.jpg.txt");
    DroppedWithoutDot("jpg");
  }

  /**
   * The list comprehension of candidate paths: `os.path.join(dir, f)` for
   * every listing entry `f` that passes the image filter, in listing order.
   */
  function ImagePaths(dir: string, entries: seq<string>): (paths: seq<string>)
    ensures |paths| <= |entries|
  {
    if entries == [] then []
    else (if IsImageFile(entries[0]) then [Join(dir, entries[0])] else []) + ImagePaths(dir, entries[1..])
  }

  /** Filtering a concatenated listing filters each part and keeps them in order. */
  lemma {:induction false} ImagePathsAppend(dir: string, a: seq<string>, b: seq<string>)
    ensures ImagePaths(dir, a + b) == ImagePaths(dir, a) + ImagePaths(dir, b)
  {
    if a == [] {
      assert a + b == b;
    } else {
      var head := if IsImageFile(a[0]) then [Join(dir, a[0])] else [];
      assert (a + b)[0] == a[0];
      assert (a + b)[1..] == a[1..] + b;
      assert ImagePaths(dir, a + b) == head + ImagePaths(dir, a[1..] + b);
      ImagePathsAppend(dir, a[1..], b);
      AppendAssoc(head, ImagePaths(dir, a[1..]), ImagePaths(dir, b));
    }
  }

  /** The candidate paths are exactly the joined names of the entries that pass the filter. */
  lemma {:induction false} ImagePathsMembers(dir: string, entries: seq<string>, p: string)
    ensures p in ImagePaths(dir, entries) <==> exists e :: e in entries && IsImageFile(e) && p == Join(dir, e)
  {
    if entries != [] {
      ImagePathsMembers(dir, entries[1..], p);
      if exists e :: e in entries && IsImageFile(e) && p == Join(dir, e) {
        var e :| e in entries && IsImageFile(e) && p == Join(dir, e);
        if e != entries[0] {
          assert e in entries[1..];
        }
      }
    }
  }

  /** `os.path.splitext(os.path.basename(path))[0]`: the name stored for a loaded face. */
  function FaceName(path: string): (name: string)
    ensures Sep !in name
    ensures |name| <= |Basename(path)| && Basename(path)[..|name|] == name
  {
    SplitExtRoot(Basename(path))
  }

  /** For a plain entry name, the face name is the entry's own splitext root. */
  lemma FaceNameOfEntry(dir: string, entry: string)
    requires Sep !in entry
    ensures FaceName(Join(dir, entry)) == SplitExtRoot(entry)
  {
    BasenameOfJoin(dir, entry);
  }

  /**
   * The face name drops the last extension of the entry's basename: for an
   * entry `stem.ext` with no '.' in `ext` and a stem that is not all dots,
   * the name is `stem`.
   */
  lemma FaceNameDropsExtension(dir: string, stem: string, ext: string)
    requires Sep !in stem && Sep !in ext && ExtSep !in ext
    requires exists k :: 0 <= k < |stem| && stem[k] != ExtSep
    ensures FaceName(Join(dir, stem + [ExtSep] + ext)) == stem
  {
    var entry := stem + [ExtSep] + ext;
    assert Sep !in entry by {
      forall j | 0 <= j < |entry| ensures entry[j] != Sep {
        if j < |stem| {
          assert entry[j] == stem[j];
        } else if j > |stem| {
          assert entry[j] == ext[j - |stem| - 1];
        }
      }
    }
    FaceNameOfEntry(dir, entry);
    SplitExtRootDropsExtension(stem, ext);
  }

  /**
   * The name of a candidate image is its entry name without the last
   * extension, letter case kept; an entry whose stem is only dots keeps its
   * whole name. What the filter adds here is that a candidate always has a
   * dot; the rest is `SplitExtRootOfName`, the splitext rule unfolded for
   * names without separators.
   */
  lemma FaceNameOfImage(dir: string, entry: string)
    requires Sep !in entry && IsImageFile(entry)
    ensures var d := RFind(entry, ExtSep);
      0 <= d &&
      FaceName(Join(dir, entry)) == (if forall k :: 0 <= k < d ==> entry[k] == ExtSep then entry else entry[..d])
  {
    ImageFileByExtension(entry);
    FaceNameOfEntry(dir, entry);
    SplitExtRootOfName(entry);
  }

  /** "Bob.Smith.JPG" is named "Bob.Smith": only the last extension goes, and the letter case stays. */
  lemma BobSmithName(dir: string)
    ensures FaceName(Join(dir, "Bob.Smith.JPG")) == "Bob.Smith"
  {
    var entry := "Bob.Smith.JPG";
    var stem, ext := entry[..9], entry[10..];
    assert stem == "Bob.Smith" && ext == "JPG";
    assert entry == stem + [ExtSep] + ext;
    assert stem[0] != ExtSep;
    SplitExtRootDropsExtension(stem, ext);
    FaceNameOfEntry(dir, entry);
  }

  /** "alice.jpg" is named "alice". */
  lemma AliceName(dir: string)
    ensures FaceName(Join(dir, "alice.jpg")) == "alice"
  {
    var entry := "alice.jpg";
    var stem, ext := entry[..5], entry[6..];
    assert stem == "alice" && ext == "jpg";
    assert entry == stem + [ExtSep] + ext;
    assert stem[0] != ExtSep;
    SplitExtRootDropsExtension(stem, ext);
    FaceNameOfEntry(dir, entry);
  }

  /** A hidden file ".bmp" has no extension in splitext's sense, so its name is ".bmp". */
  lemma HiddenFileName(dir: string)
    ensures FaceName(Join(dir, ".bmp")) == ".bmp"
  {
    var entry := ".bmp";
    var stem, ext := entry[..0], entry[1..];
    assert stem == [] && ext == "bmp";
    assert entry == stem + [ExtSep] + ext;
    SplitExtRootKeepsDotStem(stem, ext);
    FaceNameOfEntry(dir, entry);
  }

  /** What one candidate path contributes: its face when encoding succeeds, nothing when it fails. */
  function LoadOne(path: string, encodeFile: string -> Option<Encoding>): (faces: seq<KnownFace>)
    ensures |faces| <= 1
    ensures faces != [] <==> encodeFile(path).Some?
    ensures faces != [] ==> faces[0].name == FaceName(path) && encodeFile(path) == Some(faces[0].encoding)
  {
    match encodeFile(path)
    case None => []
    case Some(e) => [KnownFace(FaceName(path), e)]
  }

  /** The faces a pass over the candidate paths loads, in path order, failures skipped. */
  function Loaded(paths: seq<string>, encodeFile: string -> Option<Encoding>): (faces: seq<KnownFace>)
    ensures |faces| <= |paths|
  {
    if paths == [] then []
    else Loaded(paths[..|paths| - 1], encodeFile) + LoadOne(paths[|paths| - 1], encodeFile)
  }

  /** The number of candidate paths whose encoding fails. */
  function CountFailures(paths: seq<string>, encodeFile: string -> Option<Encoding>): (n: nat)
    ensures n <= |paths|
  {
    if paths == [] then 0
    else CountFailures(paths[..|paths| - 1], encodeFile) + (if encodeFile(paths[|paths| - 1]).None? then 1 else 0)
  }

  /** Loading a concatenation loads each part in turn: order is kept and no file affects another. */
  lemma {:induction false} LoadedAppend(a: seq<string>, b: seq<string>, encodeFile: string -> Option<Encoding>)
    ensures Loaded(a + b, encodeFile) == Loaded(a, encodeFile) + Loaded(b, encodeFile)
  {
    if b != [] {
      var b' := b[..|b| - 1];
      var last := LoadOne(b[|b| - 1], encodeFile);
      assert (a + b)[..|a + b| - 1] == a + b';
      assert (a + b)[|a + b| - 1] == b[|b| - 1];
      assert Loaded(a + b, encodeFile) == Loaded(a + b', encodeFile) + last;
      LoadedAppend(a, b', encodeFile);
      AppendAssoc(Loaded(a, encodeFile), Loaded(b', encodeFile), last);
    } else {
      assert a + b == a;
    }
  }

  /** A single candidate path loads what LoadOne says. */
  lemma LoadedSingle(path: string, encodeFile: string -> Option<Encoding>)
    ensures Loaded([path], encodeFile) == LoadOne(path, encodeFile)
  {
  }

  /** Loading one more candidate path appends what that path contributes. */
  lemma LoadedStep(paths: seq<string>, i: nat, encodeFile: string -> Option<Encoding>)
    requires i < |paths|
    ensures Loaded(paths[..i + 1], encodeFile) == Loaded(paths[..i], encodeFile) + LoadOne(paths[i], encodeFile)
  {
    assert paths[..i + 1][..i] == paths[..i];
  }

  /** The same step seen on the two lists: a success appends to both, a failure to neither. */
  lemma ListsStep(paths: seq<string>, i: nat, encodeFile: string -> Option<Encoding>)
    requires i < |paths|
    ensures encodeFile(paths[i]).None? ==>
      EncodingsOf(Loaded(paths[..i + 1], encodeFile)) == EncodingsOf(Loaded(paths[..i], encodeFile)) &&
      NamesOf(Loaded(paths[..i + 1], encodeFile)) == NamesOf(Loaded(paths[..i], encodeFile))
    ensures encodeFile(paths[i]).Some? ==>
      EncodingsOf(Loaded(paths[..i + 1], encodeFile)) == EncodingsOf(Loaded(paths[..i], encodeFile)) + [encodeFile(paths[i]).value] &&
      NamesOf(Loaded(paths[..i + 1], encodeFile)) == NamesOf(Loaded(paths[..i], encodeFile)) + [FaceName(paths[i])]
  {
    LoadedStep(paths, i, encodeFile);
    var before := Loaded(paths[..i], encodeFile);
    match encodeFile(paths[i])
    case None =>
      assert Loaded(paths[..i + 1], encodeFile) == before;
    case Some(e) =>
      ListsOfAppend(before, KnownFace(FaceName(paths[i]), e));
  }

  /** A file whose encoding fails adds nothing, and the files after it are still loaded. */
  lemma LoadedSkipsFailure(a: seq<string>, path: string, b: seq<string>, encodeFile: string -> Option<Encoding>)
    requires encodeFile(path).None?
    ensures Loaded(a + [path] + b, encodeFile) == Loaded(a, encodeFile) + Loaded(b, encodeFile)
  {
    LoadedAppend(a + [path], b, encodeFile);
    LoadedAppend(a, [path], encodeFile);
    LoadedSingle(path, encodeFile);
  }

  /** A file whose encoding succeeds is loaded at its own place: its face comes right after those of the files before it. */
  lemma LoadedSuccess(a: seq<string>, path: string, b: seq<string>, encodeFile: string -> Option<Encoding>)
    requires encodeFile(path).Some?
    ensures Loaded(a + [path] + b, encodeFile) ==
      Loaded(a, encodeFile) + [KnownFace(FaceName(path), encodeFile(path).value)] + Loaded(b, encodeFile)
  {
    LoadedAppend(a + [path], b, encodeFile);
    LoadedAppend(a, [path], encodeFile);
    LoadedSingle(path, encodeFile);
  }

  /** The number of faces loaded is the number of candidates minus the failures. */
  lemma {:induction false} LoadedCount(paths: seq<string>, encodeFile: string -> Option<Encoding>)
    ensures |Loaded(paths, encodeFile)| == |paths| - CountFailures(paths, encodeFile)
  {
    if paths != [] {
      LoadedCount(paths[..|paths| - 1], encodeFile);
    }
  }

  /** Every loaded face comes from a candidate path whose encoding succeeded, named after that path. */
  lemma {:induction false} LoadedOrigin(paths: seq<string>, encodeFile: string -> Option<Encoding>, k: nat)
    requires k < |Loaded(paths, encodeFile)|
    ensures exists j :: (0 <= j < |paths| &&
      encodeFile(paths[j]) == Some(Loaded(paths, encodeFile)[k].encoding) &&
      Loaded(paths, encodeFile)[k].name == FaceName(paths[j]))
  {
    var all := Loaded(paths, encodeFile);
    var last := |paths| - 1;
    var init := paths[..last];
    var before := Loaded(init, encodeFile);
    var one := LoadOne(paths[last], encodeFile);
    assert all == before + one;
    var j: nat;
    if k < |before| {
      LoadedOrigin(init, encodeFile, k);
      j :| 0 <= j < |init| && encodeFile(init[j]) == Some(before[k].encoding) && before[k].name == FaceName(init[j]);
      assert paths[j] == init[j] && all[k] == before[k];
    } else {
      j := last;
      assert all[k] == one[0];
    }
    assert 0 <= j < |paths| && encodeFile(paths[j]) == Some(all[k].encoding) && all[k].name == FaceName(paths[j]);
  }

  /** The names of loaded faces, the list `known_names`. */
  function NamesOf(faces: seq<KnownFace>): (names: seq<string>)
    ensures |names| == |faces|
  {
    seq(|faces|, k requires 0 <= k < |faces| => faces[k].name)
  }

  /** The encodings of loaded faces, the list `known_encodings`. */
  function EncodingsOf(faces: seq<KnownFace>): (encodings: seq<Encoding>)
    ensures |encodings| == |faces|
  {
    seq(|faces|, k requires 0 <= k < |faces| => faces[k].encoding)
  }

  /** Appending a face appends its name and its encoding to the two lists. */
  lemma ListsOfAppend(faces: seq<KnownFace>, face: KnownFace)
    ensures NamesOf(faces + [face]) == NamesOf(faces) + [face.name]
    ensures EncodingsOf(faces + [face]) == EncodingsOf(faces) + [face.encoding]
  {
  }

  /** A whole `load_known_faces` pass: nothing when the directory cannot be listed, the loaded candidates otherwise. */
  function LoadResult(dir: string, listing: Option<seq<string>>, encodeFile: string -> Option<Encoding>): (faces: seq<KnownFace>)
    ensures listing.None? ==> faces == []
    ensures listing.Some? ==> |faces| <= |listing.value|
  {
    match listing
    case None => []
    case Some(entries) => Loaded(ImagePaths(dir, entries), encodeFile)
  }

  /** The two lists a pass produces stay in step: the k-th name belongs to the k-th encoding. */
  lemma ParallelLists(faces: seq<KnownFace>)
    ensures |NamesOf(faces)| == |EncodingsOf(faces)| == |faces|
    ensures forall k :: 0 <= k < |faces| ==> KnownFace(NamesOf(faces)[k], EncodingsOf(faces)[k]) == faces[k]
  {
  }

  /** A directory with one single-face image and one text file loads exactly that face, named "alice". */
  lemma AliceScenario(dir: string, encodeFile: string -> Option<Encoding>)
    requires encodeFile(Join(dir, "alice.jpg")).Some?
    ensures LoadResult(dir, Some(["alice.jpg", "note.txt"]), encodeFile) ==
      [KnownFace("alice", encodeFile(Join(dir, "alice.jpg")).value)]
    ensures NamesOf(LoadResult(dir, Some(["alice.jpg", "note.txt"]), encodeFile)) == ["alice"]
  {
    var alice, note := "alice.jpg", "note.txt";
    var entries := [alice, note];
    var path := Join(dir, alice);
    ImageFileKeptExamples();
    ImageFileDroppedExamples();
    assert IsImageFile(alice) && !IsImageFile(note);
    assert entries[1..] == [note];
    assert [note][1..] == [];
    assert ImagePaths(dir, [note]) == [];
    assert ImagePaths(dir, entries) == [path];
    LoadedSingle(path, encodeFile);
    AliceName(dir);
  }
}
