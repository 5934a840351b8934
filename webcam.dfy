/**
 * The `FaceRecognition` object of webcam.py: the two parallel lists of
 * known encodings and names that the loader fills in place, the recognition
 * session, the `run` guard, and the `main` entry point.
 */
module Webcam {
  import opened Wrappers
  import opened KnownFaces
  import opened Recognition
  import opened Sequences

  /** The constructor's default directory of known faces. */
  const DefaultKnownFacesDir: string := "images/known"

  /** The output path `main` passes. */
  const DefaultOutputVideoPath: string := "output.avi"

  /** What `run` does: refuse to start, or run a session that writes a video. */
  datatype RunOutcome = NoKnownFaces | Recorded(video: Video)

  class FaceRecognition {
    var knownEncodings: seq<Encoding>
    var knownNames: seq<string>
    var knownFacesDir: string
    var outputVideoPath: string

    /** The two lists are parallel: one name per encoding. */
    ghost predicate Valid()
      reads this
    {
      |knownEncodings| == |knownNames|
    }

    /**
     * `__init__`: start from two empty lists and load the directory.
     * `listing` is what `os.listdir` returns (None when it raises) and
     * `encodeFile` the outcome of encoding each image path.
     */
    constructor (knownFacesDir: string, outputVideoPath: string,
                 listing: Option<seq<string>>, encodeFile: string -> Option<Encoding>)
      ensures Valid()
      ensures this.knownFacesDir == knownFacesDir && this.outputVideoPath == outputVideoPath
      ensures knownEncodings == EncodingsOf(LoadResult(knownFacesDir, listing, encodeFile))
      ensures knownNames == NamesOf(LoadResult(knownFacesDir, listing, encodeFile))
    {
      this.knownEncodings := [];
      this.knownNames := [];
      this.knownFacesDir := knownFacesDir;
      this.outputVideoPath := outputVideoPath;
      new;
      LoadKnownFaces(listing, encodeFile);
    }

    /**
     * `load_known_faces`: for each candidate image path, in order, append its
     * encoding and then its name when encoding succeeds, and skip it when it
     * fails. A listing failure leaves both lists as they were.
     */
    method LoadKnownFaces(listing: Option<seq<string>>, encodeFile: string -> Option<Encoding>)
      requires Valid()
      modifies this`knownEncodings, this`knownNames
      ensures Valid()
      ensures knownEncodings == old(knownEncodings) + EncodingsOf(LoadResult(knownFacesDir, listing, encodeFile))
      ensures knownNames == old(knownNames) + NamesOf(LoadResult(knownFacesDir, listing, encodeFile))
      ensures listing.None? ==> knownEncodings == old(knownEncodings) && knownNames == old(knownNames)
    {
      match listing {
        case None =>
          // the directory could not be listed: reported, nothing loaded
        case Some(entries) =>
          LoadPaths(ImagePaths(knownFacesDir, entries), encodeFile);
      }
    }

    /** The loop of `load_known_faces` over the candidate image paths. */
    method LoadPaths(paths: seq<string>, encodeFile: string -> Option<Encoding>)
      requires Valid()
      modifies this`knownEncodings, this`knownNames
      ensures Valid()
      ensures knownEncodings == old(knownEncodings) + EncodingsOf(Loaded(paths, encodeFile))
      ensures knownNames == old(knownNames) + NamesOf(Loaded(paths, encodeFile))
    {
      ghost var encodings0, names0 := knownEncodings, knownNames;
      var i := 0;
      while i < |paths|
        invariant 0 <= i <= |paths|
        invariant knownEncodings == encodings0 + EncodingsOf(Loaded(paths[..i], encodeFile))
        invariant knownNames == names0 + NamesOf(Loaded(paths[..i], encodeFile))
      {
        var path := paths[i];
        ghost var encodingsBefore := EncodingsOf(Loaded(paths[..i], encodeFile));
        ghost var namesBefore := NamesOf(Loaded(paths[..i], encodeFile));
        ListsStep(paths, i, encodeFile);
        match encodeFile(path) {
          case None =>
            // this image is reported and skipped
          case Some(encoding) =>
            knownEncodings := knownEncodings + [encoding];
            var name := FaceName(path);
            knownNames := knownNames + [name];
            AppendAssoc(encodings0, encodingsBefore, [encoding]);
            AppendAssoc(names0, namesBefore, [name]);
        }
        i := i + 1;
      }
      assert paths[..i] == paths;
    }

    /** The loop over the faces of one frame: the label drawn for each face, in detection order. */
    method LabelFaces(faces: seq<Encoding>, isMatch: (Encoding, Encoding) -> bool) returns (labels: seq<string>)
      requires Valid()
      ensures |labels| == |faces|
      ensures forall j :: 0 <= j < |faces| ==> labels[j] == FaceLabel(knownEncodings, knownNames, faces[j], isMatch)
    {
      labels := [];
      for j := 0 to |faces|
        invariant |labels| == j
        invariant forall m :: 0 <= m < j ==> labels[m] == FaceLabel(knownEncodings, knownNames, faces[m], isMatch)
      {
        var matches := CompareFaces(knownEncodings, faces[j], isMatch);
        var name := UnknownName;
        if true in matches {
          var firstMatchIndex := IndexOfTrue(matches);
          name := knownNames[firstMatchIndex];
        }
        labels := labels + [name];
      }
    }

    /**
     * `recognize_faces_in_video`: probe the device, then read, label and
     * write frames until a read fails (or the reads run out) or the quit key
     * is seen after a frame has been written.
     */
    method RecognizeFacesInVideo(device: Device, isMatch: (Encoding, Encoding) -> bool) returns (video: Video)
      requires Valid()
      ensures video == SessionVideo(outputVideoPath, device, knownEncodings, knownNames, isMatch)
    {
      var width := Truncate(device.width);
      var height := Truncate(device.height);
      var fps := FrameRate(device.fps);
      var written: seq<seq<string>> := [];
      var captures := device.captures;
      ghost var whole := Recording(captures, knownEncodings, knownNames, isMatch);
      var i := 0;
      while i < |captures|
        invariant 0 <= i <= |captures|
        invariant written + Recording(captures[i..], knownEncodings, knownNames, isMatch) == whole
      {
        RecordingStep(captures, i, knownEncodings, knownNames, isMatch);
        match captures[i] {
          case ReadFailed =>
            // failed to grab a frame
            break;
          case Captured(faces, key) =>
            var labels := LabelFaces(faces, isMatch);
            FrameLabelsPointwise(knownEncodings, knownNames, faces, isMatch, labels);
            AppendAssoc(written, [labels], Recording(captures[i + 1..], knownEncodings, knownNames, isMatch));
            written := written + [labels];
            if QuitPressed(key) {
                break;
            }
        }
        i := i + 1;
      }
      video := Video(outputVideoPath, Codec, fps, width, height, written);
    }

    /** `run`: refuse to start when no encodings are loaded, otherwise run a session. */
    method Run(device: Device, isMatch: (Encoding, Encoding) -> bool) returns (outcome: RunOutcome)
      requires Valid()
      ensures outcome.NoKnownFaces? <==> knownEncodings == []
      ensures outcome.Recorded? ==> outcome.video == SessionVideo(outputVideoPath, device, knownEncodings, knownNames, isMatch)
    {
      if knownEncodings == [] {
        // no known faces loaded
        return NoKnownFaces;
      }
      var video := RecognizeFacesInVideo(device, isMatch);
      outcome := Recorded(video);
    }
  }

  /**
   * `main`: build the recogniser over the default directory with output
   * "output.avi" and run it. An unreadable directory, or one in which no
   * image encodes, never reaches the camera loop.
   */
  method Start(listing: Option<seq<string>>, encodeFile: string -> Option<Encoding>,
               device: Device, isMatch: (Encoding, Encoding) -> bool) returns (outcome: RunOutcome)
    ensures outcome.NoKnownFaces? <==> LoadResult(DefaultKnownFacesDir, listing, encodeFile) == []
    ensures listing.None? ==> outcome.NoKnownFaces?
    ensures outcome.Recorded? ==>
      var faces := LoadResult(DefaultKnownFacesDir, listing, encodeFile);
      outcome.video == SessionVideo(DefaultOutputVideoPath, device, EncodingsOf(faces), NamesOf(faces), isMatch)
  {
    var recognizer := new FaceRecognition(DefaultKnownFacesDir, DefaultOutputVideoPath, listing, encodeFile);
    outcome := recognizer.Run(device, isMatch);
  }
}
