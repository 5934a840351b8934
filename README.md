# Face recognition from a webcam, modelled in Dafny

This project models `webcam.py` of the face_recognation repository. The
program loads reference faces from a directory of images. From each image it
stores a face encoding and a name taken from the file name. It then reads
frames from a camera and labels every face it detects with the name of the
first stored face that matches, or with "Unknown". Each frame is written to an
XVID video until a frame cannot be read or the user presses `q`.

The face-recognition library, OpenCV and the file system are not modelled.
Their answers are inputs of the model:

- `listing: Option<seq<string>>` is what `os.listdir` returns. `None` means it raised.
- `encodeFile: string -> Option<Encoding>` is the outcome of loading and encoding one image path. `None` means any exception on that file, including an image with no face.
- `isMatch: (Encoding, Encoding) -> bool` is the thresholded comparison that `compare_faces` applies to each known encoding.
- `Device` holds the width, height and frame rate the camera reports, and the finite script of reads it will deliver. Each read is either a failure or the encodings of the faces found plus the key `waitKey` returns after the frame.

Modules:

- `PyStr` covers ASCII `str.lower` and `str.endswith` with a tuple of suffixes.
- `PosixPath` covers POSIX `os.path.join`, `os.path.basename` and the root part of `os.path.splitext`.
- `KnownFaces` covers the image filter, the name derivation, and the faces one loading pass produces, as functions.
- `Recognition` covers label selection, per-frame labels, which frames are written, the quit-key test and the frame-rate fallback.
- `Webcam` holds the `FaceRecognition` class and `Start`, which models `main`. The class has the two parallel list fields that `load_known_faces` appends to in place. Its loops are written as `while`/`for` loops proved against the functions above.

The model follows the code in these places:

- The name is `splitext(basename(path))[0]`. Only the last extension is removed. A hidden file such as `.bmp` keeps its whole name.
- Entries that fail the extension filter are dropped silently. Only candidate images whose encoding fails are reported and skipped. A pass over `alice.jpg` and `note.txt` therefore loads one face and reports nothing about `note.txt`.
- The frame rate is `int(fps) or 20`. Any reported rate that truncates to 0 (so anything strictly between -1 and 1) becomes 20. A negative rate of -1 or below passes through truncated.

## Model

| member | source | states |
|---|---|---|
| PyStr.Lower | webcam.py:28 | `f.lower()` keeps the length; it maps each ASCII capital to its small letter (definition, no further ensures) |
| PyStr.EndsWith | webcam.py:28 | `s.endswith(suffix)`: predicate without ensures; its tuple form is characterised by `EndsWithAnyIff` |
| PyStr.EndsWithAny | webcam.py:28 | `s.endswith(tuple)`: predicate without ensures; its meaning is stated by `EndsWithAnyIff` |
| PyStr.EndsWithAnyIff | webcam.py:28 | `endswith` with a tuple holds exactly when the string ends with one of the suffixes |
| PosixPath.RFind | webcam.py:41 | the index of the last occurrence of a character, or -1; there is no later occurrence |
| PosixPath.Join | webcam.py:26 | `os.path.join(dir, f)` ends with `f`, and starts with `dir` when `f` is relative |
| PosixPath.RFindAt | webcam.py:41 | an occurrence with no occurrence after it is the one `rfind` returns |
| PosixPath.JoinBeforeEntry | webcam.py:26 | in `join(dir, f)` with a relative `f`, a separator or the start of the path comes right before `f` |
| PosixPath.Basename | webcam.py:41 | the basename is a suffix of the path with no separator; a separator comes right before it |
| PosixPath.SplitExtRoot | webcam.py:41 | the splitext root is a prefix of its argument |
| PosixPath.BasenameOfJoin | webcam.py:26 | the basename of `join(dir, entry)` is `entry` for every directory and every listing entry without '/' |
| PosixPath.SplitExtRootDropsExtension | webcam.py:41 | for a stem without '/' that holds some character other than '.', and an extension without '.' or '/', the root of stem + '.' + ext is stem |
| PosixPath.SplitExtRootKeepsDotStem | webcam.py:41 | when everything before the last dot is dots, splitext removes nothing |
| PosixPath.SplitAtLastDot | webcam.py:41 | a name without separators splits at its last dot into a stem and an extension holding no dot |
| PosixPath.SplitExtRootOfName | webcam.py:41 | the root of a name with a dot is the text before its last dot, unless only dots precede it |
| KnownFaces.IsImageFile | webcam.py:28 | the filter `f.lower().endswith(('.png', '.jpg', '.jpeg', '.bmp'))`: predicate without ensures; its meaning is stated by `ImageFileByExtension` |
| KnownFaces.ExtensionShape | webcam.py:28 | each of the four extensions is one dot followed by non-dots |
| KnownFaces.ImageFileHasExtension | webcam.py:28 | a kept entry has a last '.', and the text from it on, lower-cased, is one of the four extensions |
| KnownFaces.ExtensionMakesImageFile | webcam.py:28 | an entry whose text from its last '.' on, lower-cased, is one of the four extensions is kept |
| KnownFaces.KeptBySuffix | webcam.py:28 | an entry whose lower-cased name ends with one of the four extensions is kept |
| KnownFaces.ImageFileByExtension | webcam.py:28 | an entry is kept iff it has a last '.' and the text from it on, lower-cased, is .png, .jpg, .jpeg or .bmp |
| KnownFaces.ImageFileKeptUpper | webcam.py:28 | "A.JPG" is kept |
| KnownFaces.ImageFileKeptPlain | webcam.py:28 | "alice.jpg" is kept |
| KnownFaces.ImageFileKeptMixed | webcam.py:28 | "scan.Jpeg" is kept |
| KnownFaces.ImageFileKeptExamples | webcam.py:28 | "A.JPG", "alice.jpg" and "scan.Jpeg" are kept: letter case does not matter |
| KnownFaces.DroppedByLastChar | webcam.py:28 | an entry whose lower-cased name ends in neither 'g' nor 'p' is dropped, since every extension ends in one of them |
| KnownFaces.DroppedWithoutDot | webcam.py:28 | an entry without a dot is dropped, since every extension starts with one |
| KnownFaces.ImageFileDroppedExamples | webcam.py:28 | "note.txt", "photo.jpg.txt" and "jpg" are dropped |
| KnownFaces.ImagePaths | webcam.py:25-29 | there are no more candidate paths than listing entries |
| KnownFaces.ImagePathsAppend | webcam.py:25-29 | filtering a concatenated listing filters each part and keeps listing order |
| KnownFaces.ImagePathsMembers | webcam.py:25-29 | a path is a candidate iff it is `join(dir, e)` for some listed entry `e` that passes the filter |
| KnownFaces.FaceName | webcam.py:41 | `splitext(basename(path))[0]` holds no separator and is a prefix of the basename |
| KnownFaces.FaceNameOfEntry | webcam.py:41 | the stored name of `join(dir, entry)` is the splitext root of the entry itself |
| KnownFaces.FaceNameDropsExtension | webcam.py:41 | the name stored for `join(dir, stem + '.' + ext)` is `stem` (the basename without its last extension), for a stem without '/' holding some non-dot and an extension without '.' or '/' |
| KnownFaces.FaceNameOfImage | webcam.py:41 | a candidate image is named by its entry name up to its last dot, letter case kept, and a dots-only stem keeps the whole name |
| KnownFaces.BobSmithName | webcam.py:41 | "Bob.Smith.JPG" is named "Bob.Smith" |
| KnownFaces.AliceName | webcam.py:41 | "alice.jpg" is named "alice" |
| KnownFaces.HiddenFileName | webcam.py:41 | ".bmp" is named ".bmp" |
| KnownFaces.LoadOne | webcam.py:33-45 | one path gives at most one face: one exactly when its encoding succeeds, named `FaceName(path)` and holding that encoding |
| KnownFaces.Loaded | webcam.py:32-45 | a pass loads at most one face per candidate path |
| KnownFaces.LoadedAppend | webcam.py:32-45 | loading a concatenation loads each part in turn; no file affects another |
| KnownFaces.LoadedSingle | webcam.py:33-42 | one path contributes its face on success and nothing on failure |
| KnownFaces.LoadedStep | webcam.py:32-45 | one more path appends exactly what that path contributes |
| KnownFaces.ListsStep | webcam.py:36-42 | a success appends the encoding to one list and the name to the other; a failure appends to neither |
| KnownFaces.LoadedSkipsFailure | webcam.py:44-45 | a file whose encoding fails adds nothing, and the files after it are still loaded |
| KnownFaces.LoadedSuccess | webcam.py:36-42 | a file whose encoding succeeds is loaded at its own place, after the faces of the files before it and before those after it |
| KnownFaces.CountFailures | webcam.py:44-45 | the number of candidate paths whose encoding fails is at most the number of candidates |
| KnownFaces.LoadedCount | webcam.py:32-47 | the number of faces loaded is the number of candidates minus the failures |
| KnownFaces.LoadedOrigin | webcam.py:36-42 | every loaded face comes from a candidate path whose encoding succeeded, named after that path |
| KnownFaces.NamesOf | webcam.py:14 | `known_names` has one name per loaded face |
| KnownFaces.EncodingsOf | webcam.py:13 | `known_encodings` has one encoding per loaded face |
| KnownFaces.ListsOfAppend | webcam.py:39-42 | appending a face appends its name and its encoding to the two lists |
| KnownFaces.ParallelLists | webcam.py:13-14 | the two lists have equal length and the k-th name belongs to the k-th encoding |
| KnownFaces.LoadResult | webcam.py:23-50 | a listing failure (no listing) loads nothing; otherwise a pass loads at most one face per listed entry |
| KnownFaces.AliceScenario | webcam.py:23-47 | a directory with `alice.jpg` (one face) and `note.txt` loads exactly one face, named "alice" |
| Recognition.IndexOfTrue | webcam.py:93 | `matches.index(True)` is a true index with no true before it |
| Recognition.SelectLabel | webcam.py:88-94 | the label is "Unknown" when nothing matches, and otherwise the name at the first matching index |
| Recognition.SelectLabelPrefersEarlier | webcam.py:92-94 | once an index before j matches, the entries from j on do not affect the label |
| Recognition.CompareFaces | webcam.py:88 | `compare_faces` gives one match flag per known encoding |
| Recognition.FaceLabel | webcam.py:88-94 | the label of a detected face is "Unknown" or one of the known names |
| Recognition.FaceLabelMeaning | webcam.py:88-94 | in terms of the match predicate: "Unknown" when no known encoding matches, else the name of the first one that does |
| Recognition.FrameLabels | webcam.py:86-94 | a frame gets exactly one label per detected face |
| Recognition.FrameLabelsAt | webcam.py:86-94 | the j-th label of a frame is the label of its j-th face |
| Recognition.FrameLabelsPointwise | webcam.py:86-94 | labels that agree face by face with a frame's labels are that frame's labels |
| Recognition.QuitPressed | webcam.py:111 | `waitKey(1) & 0xFF == ord('q')` as the key modulo 256: predicate without ensures; its meaning is stated by `QuitPressedLowByte` |
| Recognition.QuitPressedLowByte | webcam.py:111 | only the low byte of the key code matters, and among the byte values exactly 'q' quits |
| Recognition.QuitPressedExamples | webcam.py:111 | no key (-1), 'Q' and 0 do not quit; 'q' does, also with bits above the low byte set |
| Recognition.Recording | webcam.py:70-112 | no more frames are written than reads are delivered |
| Recognition.RecordingStep | webcam.py:72-112 | a failed read writes nothing more; a captured frame is written, and reading goes on unless the key is 'q' |
| Recognition.RecordingFrames | webcam.py:70-112 | every written frame is a captured frame with its faces' labels, in capture order; all but the last were followed by no quit |
| Recognition.RecordingEnd | webcam.py:70-112 | writing stops after every read, at a failed read, or right after the frame on which 'q' was seen |
| Recognition.Truncate | webcam.py:62-64 | `int(x)` truncates toward zero |
| Recognition.FrameRate | webcam.py:64 | 20 when the reported rate truncates to 0, otherwise the truncated rate |
| Recognition.FrameRateExamples | webcam.py:64 | 0.0 and 0.5 give 20, 30.0 gives 30, and 29.97 gives 29 |
| Recognition.SessionVideo | webcam.py:62-112 | the session's video goes to the given path with codec XVID, has a positive frame rate unless the device reports -1 or less, and holds no more frames than reads |
| Webcam.FaceRecognition.Valid | webcam.py:13-14 | the class invariant: the two lists have equal length (predicate without ensures) |
| Webcam.FaceRecognition.constructor | webcam.py:6-17 | the fields are set, and the lists are the encodings and names of one loading pass over the directory |
| Webcam.FaceRecognition.LoadKnownFaces | webcam.py:19-50 | the lists are extended in place by the encodings and names of the pass, staying parallel; an unlistable directory changes nothing |
| Webcam.FaceRecognition.LoadPaths | webcam.py:32-45 | after the loop, each list is its old value followed by the encodings and the names loaded from the paths, in order |
| Webcam.FaceRecognition.LabelFaces | webcam.py:86-94 | the loop yields, for every face, the label of that face |
| Webcam.FaceRecognition.RecognizeFacesInVideo | webcam.py:52-117 | the video goes to the output path with codec XVID, the fallback frame rate and the truncated size, and holds exactly the recorded frames |
| Webcam.FaceRecognition.Run | webcam.py:119-129 | no session runs iff no encodings are loaded; otherwise the session's video is produced |
| Webcam.Start | webcam.py:132-138 | the camera is used iff the default directory loads some face; an unlistable directory never reaches it; the video is the session over the loaded faces |

## Left out

- Face detection, encoding and comparison are inputs (`encodeFile`, `isMatch`, the encodings in each camera read), not computed. When an image holds several faces, `encodeFile` gives the first face's encoding, as `face_encodings(image)[0]` does.
- Face locations, the rectangles and text drawn on frames, and the BGR-to-RGB slice are left out. A written frame is represented by the labels drawn on it.
- The camera index is left out. The device is passed in directly.
- `cv2.imshow`, the `release` calls and `destroyAllWindows` are left out, because they do not affect any modelled value. In the source they are not in a `finally` block, so an exception inside the camera loop would skip them; the model has no such exception.
- The `while True` camera loop is modelled over a finite script of reads. Running out of reads ends the loop like a failed read.
- Console messages (`print`) and the exception texts they show are left out.
- The catch-all `except` in `main` is left out, because no modelled step raises.
- Exceptions raised inside the camera loop are not modelled. The lists cannot be out of step, so `known_names[first_match_index]` cannot raise in the model.
- Reported width, height and frame rate are reals. A NaN or infinite value, on which Python's `int` raises, cannot be expressed.
- PyStr.Lower: lower-cases ASCII letters only, because Unicode case mapping is not modelled.
- PosixPath.Join: models POSIX path rules only; Windows (`ntpath`) drive letters and backslashes are not modelled.
