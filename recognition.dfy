/**
 * The per-frame logic of `FaceRecognition.recognize_faces_in_video`: the
 * label chosen for a detected face, the labels of one frame, which frames end
 * up in the output video, the quit-key test and the frame-rate fallback.
 */
module Recognition {
  import opened KnownFaces

  /** `matches.index(True)`: the first index holding true. */
  function IndexOfTrue(matches: seq<bool>): (i: nat)
    requires true in matches
    ensures i < |matches| && matches[i]
    ensures forall j :: 0 <= j < i ==> !matches[j]
  {
    if matches[0] then 0 else 1 + IndexOfTrue(matches[1..])
  }

  /** The label drawn for a face that matches no known face. */
  const UnknownName: string := "Unknown"

  /**
   * The label of a face given its match vector against the known faces:
   * the name at the first matching index, or "Unknown" when nothing matches.
   */
  function SelectLabel(matches: seq<bool>, names: seq<string>): (name: string)
    requires |matches| == |names|
    ensures (forall i :: 0 <= i < |matches| ==> !matches[i]) ==> name == UnknownName
    ensures forall i :: 0 <= i < |matches| && matches[i] && (forall j :: 0 <= j < i ==> !matches[j]) ==>
      name == names[i]
  {
    if true in matches then names[IndexOfTrue(matches)] else UnknownName
  }

  /**
   * A first-match tie-break: once some index before j matches, the entries
   * from j on play no part in the label.
   */
  lemma SelectLabelPrefersEarlier(matches: seq<bool>, names: seq<string>, i: nat, j: nat)
    requires |matches| == |names| && i < j <= |matches|
    requires matches[i]
    ensures SelectLabel(matches, names) == SelectLabel(matches[..j], names[..j])
  {
    var front := matches[..j];
    assert front[i];
    var f := IndexOfTrue(front);
    assert matches[f] && names[..j][f] == names[f];
    assert forall k :: 0 <= k < f ==> !matches[k] by {
      forall k | 0 <= k < f ensures !matches[k] {
        assert front[k] == matches[k];
      }
    }
  }

  /** `face_recognition.compare_faces(known, candidate)`: one match test per known encoding. */
  function CompareFaces(known: seq<Encoding>, candidate: Encoding, isMatch: (Encoding, Encoding) -> bool): (matches: seq<bool>)
    ensures |matches| == |known|
  {
    seq(|known|, k requires 0 <= k < |known| => isMatch(known[k], candidate))
  }

  /** The label of one detected face. */
  function FaceLabel(known: seq<Encoding>, names: seq<string>, face: Encoding,
                     isMatch: (Encoding, Encoding) -> bool): (name: string)
    requires |known| == |names|
    ensures name == UnknownName || name in names
  {
    SelectLabel(CompareFaces(known, face, isMatch), names)
  }

  /**
   * The label of a face in terms of the match predicate: "Unknown" when no
   * known encoding matches it (a face far from all of them), otherwise the
   * name of the first known encoding that matches (a face identical to a
   * stored one, when nothing earlier matches it too).
   */
  lemma FaceLabelMeaning(known: seq<Encoding>, names: seq<string>, face: Encoding,
                         isMatch: (Encoding, Encoding) -> bool, i: nat)
    requires |known| == |names| && i <= |known|
    requires forall k :: 0 <= k < i ==> !isMatch(known[k], face)
    ensures i == |known| ==> FaceLabel(known, names, face, isMatch) == UnknownName
    ensures i < |known| && isMatch(known[i], face) ==> FaceLabel(known, names, face, isMatch) == names[i]
  {
    var matches := CompareFaces(known, face, isMatch);
    assert forall k :: 0 <= k < i ==> !matches[k];
  }

  /** The labels of every face found in one frame, in detection order. */
  function FrameLabels(known: seq<Encoding>, names: seq<string>, faces: seq<Encoding>,
                       isMatch: (Encoding, Encoding) -> bool): (labels: seq<string>)
    requires |known| == |names|
    ensures |labels| == |faces|
  {
    if faces == [] then []
    else [FaceLabel(known, names, faces[0], isMatch)] + FrameLabels(known, names, faces[1..], isMatch)
  }

  /** The j-th label of a frame is the label of its j-th face. */
  lemma {:induction false} FrameLabelsAt(known: seq<Encoding>, names: seq<string>, faces: seq<Encoding>,
                                         isMatch: (Encoding, Encoding) -> bool, j: nat)
    requires |known| == |names| && j < |faces|
    ensures FrameLabels(known, names, faces, isMatch)[j] == FaceLabel(known, names, faces[j], isMatch)
  {
    if j > 0 {
      FrameLabelsAt(known, names, faces[1..], isMatch, j - 1);
    }
  }

  /** A sequence of labels that agrees with a frame's labels face by face is that frame's labels. */
  lemma FrameLabelsPointwise(known: seq<Encoding>, names: seq<string>, faces: seq<Encoding>,
                             isMatch: (Encoding, Encoding) -> bool, labels: seq<string>)
    requires |known| == |names| && |labels| == |faces|
    requires forall j :: 0 <= j < |faces| ==> labels[j] == FaceLabel(known, names, faces[j], isMatch)
    ensures labels == FrameLabels(known, names, faces, isMatch)
  {
    forall j | 0 <= j < |faces|
      ensures labels[j] == FrameLabels(known, names, faces, isMatch)[j]
    {
      FrameLabelsAt(known, names, faces, isMatch, j);
    }
  }

  /** One `video_capture.read()`: a failure, or the encodings of the faces found in the frame and the key polled after showing it. */
  datatype CameraRead = ReadFailed | Captured(faces: seq<Encoding>, key: int)

  /** `ord('q')`. */
  const QuitKey: int := 113

  /** `cv2.waitKey(1) & 0xFF == ord('q')`; masking with 0xFF keeps the value modulo 256, also for -1 (no key). */
  predicate QuitPressed(key: int) {
    key % 256 == QuitKey
  }

  /** The mask: no key (-1) and 'Q' do not quit; 'q', also with bits above the low byte set, does. */
  lemma QuitPressedExamples()
    ensures !QuitPressed(-1) && !QuitPressed(81) && !QuitPressed(0)
    ensures QuitPressed(113) && QuitPressed(113 + 0x10_0000)
  {
  }

  /**
   * The mask reads only the low byte of the key code: adding any multiple of
   * 256 changes nothing, and among the byte values only 'q' quits.
   */
  lemma QuitPressedLowByte(key: int, m: int)
    ensures QuitPressed(key + 256 * m) <==> QuitPressed(key)
    ensures 0 <= key < 256 ==> (QuitPressed(key) <==> key == QuitKey)
  {
  }

  /**
   * The frames written to the output video, each given by the labels drawn
   * on it. Reading stops at the first failed read (or when the reads run
   * out); a frame on which the quit key is seen is still written, since the
   * write comes before the key poll.
   */
  function Recording(captures: seq<CameraRead>, known: seq<Encoding>, names: seq<string>,
                     isMatch: (Encoding, Encoding) -> bool): (frames: seq<seq<string>>)
    requires |known| == |names|
    ensures |frames| <= |captures|
  {
    if captures == [] then []
    else match captures[0]
      case ReadFailed => []
      case Captured(faces, key) =>
        [FrameLabels(known, names, faces, isMatch)] +
        (if QuitPressed(key) then [] else Recording(captures[1..], known, names, isMatch))
  }

  /** Recording from position i on: what the read at i contributes, then (unless it stops) the rest. */
  lemma RecordingStep(captures: seq<CameraRead>, i: nat, known: seq<Encoding>, names: seq<string>,
                      isMatch: (Encoding, Encoding) -> bool)
    requires |known| == |names| && i < |captures|
    ensures captures[i].ReadFailed? ==> Recording(captures[i..], known, names, isMatch) == []
    ensures captures[i].Captured? ==>
      (Recording(captures[i..], known, names, isMatch) ==
         [FrameLabels(known, names, captures[i].faces, isMatch)] +
         (if QuitPressed(captures[i].key) then [] else Recording(captures[i + 1..], known, names, isMatch)))
  {
    assert captures[i..][0] == captures[i] && captures[i..][1..] == captures[i + 1..];
  }

  /**
   * Every written frame is a captured frame, labelled face by face, in
   * capture order; all but the last written frame passed the key poll
   * without a quit.
   */
  lemma {:induction false} RecordingFrames(captures: seq<CameraRead>, known: seq<Encoding>, names: seq<string>,
                                           isMatch: (Encoding, Encoding) -> bool, j: nat)
    requires |known| == |names|
    requires j < |Recording(captures, known, names, isMatch)|
    ensures captures[j].Captured?
    ensures Recording(captures, known, names, isMatch)[j] == FrameLabels(known, names, captures[j].faces, isMatch)
    ensures j + 1 < |Recording(captures, known, names, isMatch)| ==> !QuitPressed(captures[j].key)
  {
    if j > 0 {
      RecordingFrames(captures[1..], known, names, isMatch, j - 1);
    }
  }

  /**
   * Where writing stops: after every read, at a failed read, or right after
   * the frame on which the quit key was seen.
   */
  lemma {:induction false} RecordingEnd(captures: seq<CameraRead>, known: seq<Encoding>, names: seq<string>,
                                        isMatch: (Encoding, Encoding) -> bool)
    requires |known| == |names|
    ensures var n := |Recording(captures, known, names, isMatch)|;
      n == |captures| || captures[n].ReadFailed? || (0 < n && captures[n - 1].Captured? && QuitPressed(captures[n - 1].key))
  {
    if captures != [] && captures[0].Captured? && !QuitPressed(captures[0].key) {
      RecordingEnd(captures[1..], known, names, isMatch);
      var rest := Recording(captures[1..], known, names, isMatch);
      assert |Recording(captures, known, names, isMatch)| == 1 + |rest|;
      assert forall m :: 0 <= m < |captures| - 1 ==> captures[1..][m] == captures[m + 1];
    }
  }

  /** Python's `int(x)` on a float: truncation toward zero. */
  function Truncate(x: real): (n: int)
    ensures 0.0 <= x ==> n as real <= x < n as real + 1.0
    ensures x < 0.0 ==> n as real - 1.0 < x <= n as real
  {
    if x >= 0.0 then x.Floor else -((-x).Floor)
  }

  /** The frame rate used when the device reports none. */
  const DefaultFps: int := 20

  /** `int(video_capture.get(cv2.CAP_PROP_FPS)) or 20`. */
  function FrameRate(reported: real): (fps: int)
    ensures -1.0 < reported < 1.0 ==> fps == DefaultFps
    ensures 1.0 <= reported ==> fps as real <= reported < fps as real + 1.0
    ensures reported <= -1.0 ==> fps as real - 1.0 < reported <= fps as real
  {
    var t := Truncate(reported);
    if t == 0 then DefaultFps else t
  }

  /** A device that reports 0 gets 20; a fractional rate is truncated, not rounded. */
  lemma FrameRateExamples()
    ensures FrameRate(0.0) == 20 && FrameRate(0.5) == 20
    ensures FrameRate(30.0) == 30 && FrameRate(29.97) == 29
  {
  }

  /** The FourCC code of the output video. */
  const Codec: string := "XVID"

  /** What the capture device offers: its reported width, height and frame rate, and the reads it will deliver. */
  datatype Device = Device(width: real, height: real, fps: real, captures: seq<CameraRead>)

  /** The output video: where it is written, its codec, frame rate and size, and the frames written to it. */
  datatype Video = Video(path: string, codec: string, fps: int, width: int, height: int, frames: seq<seq<string>>)

  /** The video one recognition session writes. */
  function SessionVideo(path: string, device: Device, known: seq<Encoding>, names: seq<string>,
                        isMatch: (Encoding, Encoding) -> bool): (video: Video)
    requires |known| == |names|
    ensures video.path == path && video.codec == Codec
    ensures device.fps > -1.0 ==> video.fps >= 1
    ensures |video.frames| <= |device.captures|
  {
    Video(path, Codec, FrameRate(device.fps), Truncate(device.width), Truncate(device.height),
          Recording(device.captures, known, names, isMatch))
  }
}
