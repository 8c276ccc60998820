# Face capture from subtitled video, modelled in Dafny

This project models the core of `FaceCaptureUtils` (utils/face_util.py), the code that pulls face crops out of a subtitled video:

- **Subtitle time ranges.** `parse_subtitles` scans the text of a SubRip file for `hh:mm:ss,mmm --> hh:mm:ss,mmm` ranges. `convert_time_to_frames` turns one timestamp into a frame number.
- **Key-frame selection.** `extract_keyframes_from_subtitle_ranges` pads and clamps each subtitle range into a set of candidate frame numbers. It keeps the candidates that the decoder flags as key frames and returns them sorted.
- **Face curation.** `capture_avatar_from_video` visits every selected key frame. For each face the analyser reports, it applies:
  - the confidence gate (`face_confidence >= 0.95`);
  - the frontal-eye test `is_frontal_face`;
  - label resolution, where `get_max_prediction` picks the top label and `get_enum_by_value` looks it up ignoring case;
  - the padded-square crop.

  An admitted face is recorded as `(path, age, gender, race, emotion)`.
- **Label enumerations.** `RaceType`, `EmotionType` and `GenderType` from utils/character_Info_enum.py, with their values and `chinese_name` tables.

The foreign libraries are inputs:

- The video container is a `Video` value. It records whether `av.open` succeeds, the integer frame rate, `stream.frames`, and the `key_frame` flag of each decoded frame in decoding order. It also records whether `cv2.VideoCapture` opens, and a `FrameCapture` per frame number: whether `cap.read()` succeeds, the frame's width and height, and the analyser's face records or the fact that the analyser raised.
- Writing the resized crop is modelled as appending the record.

Modules:

- `Wrappers`: `Option` and `Result`.
- `Text`: the Python string primitives the code relies on (`str.lower`, `str.split`, `int(text)`, `'%s' % n`), restricted to ASCII.
- `CharacterInfo`: the three enumerations.
- `Subtitles`: `parse_subtitles` over content and `convert_time_to_frames`.
- `Keyframes`: `extract_keyframes_from_subtitle_ranges`. Its loops are methods proved against the specification function `KeyframeList`.
- `Labels`: `get_max_prediction` and `get_enum_by_value`.
- `FaceAdmission`: `is_frontal_face`, the crop geometry, the per-face decision `AdmitFace`, and the per-frame and per-video loops. The loops are methods proved against `FacesOfFrames` and `CaptureResult`.

Behaviours of the code that the model keeps as written:

- A decode exception does not skip one frame and continue. The `try` at utils/face_util.py:88-111 wraps the whole decode loop, so decoding stops. The key frames collected so far are still sorted and returned (`Keyframes.StoppedDecodeKeepsPrefix`).
- A timestamp that fails to convert raises inside the same `try`, before any decoding. The result is then the empty list (`Keyframes.ConversionErrorEmptiesResult`).
- The crop's far corner is computed from the clamped near corner, not from the centre.
- A face without a `region` passes the frontal test, but it is never recorded.
- A label that names no member raises `ValueError` inside the per-frame `try`. That drops the rest of that frame's faces and keeps the faces recorded before it.

## Model

| member | source | states |
|---|---|---|
| `Text.Split` | utils/face_util.py:51 | `str.split(sep)` yields at least one part, and no part contains the separator |
| `Text.JoinOfSplit` | utils/face_util.py:51 | joining the parts of a split with the separator gives back the original text |
| `Text.SplitWithoutSeparator` | utils/face_util.py:51-53 | text without the separator splits into one part, so text without a comma has no `time_parts[1]` |
| `Text.SplitAtFirstSeparator` | utils/face_util.py:51 | a piece without the separator, followed by the separator, is split off as the first part |
| `Text.SplitOfJoin` | utils/face_util.py:55 | splitting undoes joining when no part holds the separator |
| `Text.Lower` | utils/face_util.py:44 | `lower()` keeps the length, turns each upper-case ASCII letter into its lower-case letter, and changes no other character |
| `Text.LowerKeepsLowercase` | utils/face_util.py:44 | `lower()` leaves a string without upper-case letters unchanged |
| `Text.LowerIdempotent` | utils/face_util.py:44 | lower-casing twice is lower-casing once |
| `Text.ParseInt` | utils/face_util.py:53-55 | definition of `int(text)`; its meaning is stated by `Text.ParseDigits`, `Text.ParseIntShaped`, `Text.ParseIntRejects` and `Text.ParseIntKeepsSeparators` |
| `Text.GroupsValueChars` | utils/face_util.py:53-55 | digit groups that `int()` reads are non-empty and hold only digits and `_` |
| `Text.ParseIntKeepsSeparators` | utils/face_util.py:53-55 | `int()` does not strip the separator 0x1C: `"\x1c5"` raises `ValueError` |
| `Text.ParseIntShaped` | utils/face_util.py:53-55 | text `int()` accepts is, once trimmed, non-empty digits and `_` with at most a sign in front |
| `Text.ParseIntRejects` | utils/face_util.py:53-55 | `int()` raises on text that is empty once trimmed, or holds a character other than a digit, `_` or a sign in front |
| `Text.GroupsValueOfDigits` | utils/face_util.py:53 | `int()` reads a plain run of digits as its decimal value |
| `Text.ParseDigits` | utils/face_util.py:53-55 | `int()` of a non-empty run of digits is its decimal value, with no sign and no whitespace involved |
| `Text.NatToString` | utils/face_util.py:251 | `'%s' % n` is a non-empty run of digits whose decimal value is `n`, and it starts with `0` only when it is exactly `0` |
| `Text.ParseOfNatToString` | utils/face_util.py:251 | `int()` reads back the number that `'%s'` printed |
| `Text.NatToStringInjective` | utils/face_util.py:251 | different numbers print differently |
| `CharacterInfo.MembersListed` | utils/character_Info_enum.py:4-50 | each enumeration lists every member once, in declaration order, as iteration visits them |
| `CharacterInfo.RaceValueLowered` | utils/character_Info_enum.py:5-10 | every race value is already lower case |
| `CharacterInfo.RaceValuesDistinctLowered` | utils/character_Info_enum.py:5-10 | the six race values are pairwise distinct after lower-casing |
| `CharacterInfo.EmotionValueLowered` | utils/character_Info_enum.py:26-32 | every emotion value is already lower case |
| `CharacterInfo.EmotionValuesDistinctLowered` | utils/character_Info_enum.py:26-32 | the seven emotion values are pairwise distinct after lower-casing |
| `CharacterInfo.GenderValuesDistinctLowered` | utils/character_Info_enum.py:49-50 | the two gender values differ after lower-casing |
| `CharacterInfo.GenderValuesMixedCase` | utils/character_Info_enum.py:49-50 | `'Man'` and `'Woman'` differ from the analyser's `'man'` and `'woman'`, and agree with them only after both sides are lower-cased |
| `CharacterInfo.ChineseNamesDistinct` | utils/character_Info_enum.py:12-58 | `chinese_name` is defined for every member of each enumeration, and distinct members get distinct names |
| `Subtitles.MatchStarts` | utils/face_util.py:66-67 | every reported start is a full match of the time-range pattern, and each match ends before the next one starts |
| `Subtitles.ParseSubtitles` | utils/face_util.py:61-70 | one `(start, end)` pair per match, in document order; each component is the 12-character `\d{2}:\d{2}:\d{2},\d{3}` text of its group |
| `Subtitles.MatchStartsLeftmost` | utils/face_util.py:66-67 | the scan is leftmost and non-overlapping: every position where the pattern matches is reported or lies inside a reported match |
| `Subtitles.NoMatchNoIntervals` | utils/face_util.py:66-70 | the result is empty exactly when the pattern matches nowhere in the text |
| `Subtitles.ConvertTimeToFrames` | utils/face_util.py:49-58 | definition of `convert_time_to_frames`; its meaning is stated by `Subtitles.ConvertWellFormed`, `Subtitles.NoCommaRaises`, `Subtitles.WrongFieldCountRaises` and `Subtitles.NonIntegerFieldRaises` |
| `Subtitles.SplitTimestamp` | utils/face_util.py:51-55 | a well-formed timestamp splits at its comma into `hh:mm:ss` and `mmm`, and the former at its colons into three fields |
| `Subtitles.TimestampFields` | utils/face_util.py:51-55 | the four `int()` calls on a well-formed timestamp return the values of its digit fields |
| `Subtitles.ConvertWellFormed` | utils/face_util.py:49-58 | a well-formed timestamp converts to `int(elapsed_ms * fps / 1000)`, truncated toward zero; when `fps >= 0` that is `elapsed_ms * fps / 1000` rounded down, and non-negative |
| `Subtitles.NoCommaRaises` | utils/face_util.py:51-53 | text without a comma raises `IndexError` |
| `Subtitles.WrongFieldCountRaises` | utils/face_util.py:55 | text whose part before the first comma does not have three `:`-separated fields raises `ValueError` |
| `Subtitles.NonIntegerFieldRaises` | utils/face_util.py:53-55 | with a comma present, a milliseconds part or one of three `:` fields that is not an integer raises `ValueError` |
| `Subtitles.LettersInHoursRaise` | utils/face_util.py:49-55 | `ab:00:00,000` raises `ValueError` |
| `Subtitles.FrameOfMonotone` | utils/face_util.py:56-57 | for `fps >= 0`, more elapsed time never gives an earlier frame |
| `Subtitles.ConvertMonotone` | utils/face_util.py:49-58 | two well-formed timestamps convert without error, in the order of their times |
| `Subtitles.OneAndTwoSeconds` | utils/face_util.py:49-58 | at 25 fps, `00:00:01,000` is frame 25 and `00:00:02,000` is frame 50 |
| `Keyframes.FrameIntervals` | utils/face_util.py:94-96 | the frame intervals exist exactly when every subtitle interval converts, one interval per subtitle |
| `Keyframes.Sorted` | utils/face_util.py:115 | `sorted(list(s))` is strictly ascending and holds exactly the members of `s` |
| `Keyframes.SortedLength` | utils/face_util.py:115 | the sorted list has one entry per member of the set, so there are no duplicates |
| `Keyframes.FramesBetween` | utils/face_util.py:99-101 | the inner loop adds exactly the integers from `lo` to `hi` |
| `Keyframes.AddSubtitleInterval` | utils/face_util.py:94-101 | one pass of the range loop converts the interval and, on success, adds its padded range to the set |
| `Keyframes.CandidateSetAppend` | utils/face_util.py:94-101 | a further interval adds its padded range to the candidate set |
| `Keyframes.FailedIntervalFails` | utils/face_util.py:94-96 | one interval that fails to convert makes the whole conversion fail |
| `Keyframes.ConvertedIntervals` | utils/face_util.py:94-96 | when every interval converts, the frame intervals are the converted pairs in order |
| `Keyframes.BuildFrameRanges` | utils/face_util.py:93-101 | the range loop succeeds exactly when every interval converts, and then `frame_ranges` is exactly the candidate set |
| `Keyframes.CandidateSet` | utils/face_util.py:93-101 | definition of `frame_ranges` after the range loop; its meaning is stated by `Keyframes.CandidateUnion`, `Keyframes.CandidateBounds` and `Keyframes.BuildFrameRanges` |
| `Keyframes.SelectedKeyframes` | utils/face_util.py:88-111 | definition of the set of selected key frames; its meaning is stated by `Keyframes.KeyframesInRange`, `Keyframes.StoppedDecodeKeepsPrefix` and `Keyframes.ConversionErrorEmptiesResult` |
| `Keyframes.KeyframeList` | utils/face_util.py:73-119 | definition of the function's result; its meaning is stated by `Keyframes.ExtractKeyframesFromSubtitleRanges` |
| `Keyframes.ExtractKeyframesFromSubtitleRanges` | utils/face_util.py:73-119 | the result is strictly ascending, and `i` is in it exactly when every interval converts, `i` is a candidate and the `i`-th decoded frame is a key frame |
| `Keyframes.CandidateUnion` | utils/face_util.py:93-101 | a frame is a candidate exactly when the padded, clamped range of some interval holds it |
| `Keyframes.CandidateBounds` | utils/face_util.py:99-100 | every candidate lies in `[0, total_frames - 1]` |
| `Keyframes.CandidateEmptyWithoutFrames` | utils/face_util.py:99-100 | `total_frames <= 0` leaves no candidate |
| `Keyframes.CrossedIntervalAddsNothing` | utils/face_util.py:99-101 | an interval whose padded bounds cross adds no frame |
| `Keyframes.RedundancyMonotone` | utils/face_util.py:99-100 | a larger `frame_redundancy` never removes a candidate |
| `Keyframes.KeyframesInRange` | utils/face_util.py:104-115 | every returned frame was decoded with `key_frame` set and is at most `total_frames - 1` |
| `Keyframes.KeyframesRedundancyMonotone` | utils/face_util.py:93-115 | a larger `frame_redundancy` never removes a returned key frame |
| `Keyframes.StoppedDecodeKeepsPrefix` | utils/face_util.py:104-115 | decoding that stops after `n` frames returns exactly the full result's frames below `n` |
| `Keyframes.ConversionErrorEmptiesResult` | utils/face_util.py:88-115 | a subtitle interval that fails to convert leaves the result empty |
| `Keyframes.SingleIntervalFrames` | utils/face_util.py:94-96 | a single subtitle interval yields its single frame pair |
| `Keyframes.OneSubtitleIntervals` | utils/face_util.py:94-96 | the subtitle from 1 s to 2 s gives frame interval (25, 50) at 25 fps |
| `Keyframes.OneSubtitleSelection` | utils/face_util.py:104-108 | candidates 15 to 60 with a key frame every 30 frames select frames 30 and 60 |
| `Keyframes.SortedPair` | utils/face_util.py:115 | two distinct frames sort into ascending order |
| `Keyframes.OneSubtitleExample` | utils/face_util.py:73-119 | one subtitle from 1 s to 2 s, with redundancy 10 at 25 fps and a key frame every 30 frames, gives `[30, 60]` |
| `Labels.MaxIndex` | utils/face_util.py:38 | `max(items, key=score)` picks an item whose score no other item exceeds, and every item before it scores strictly less |
| `Labels.FirstMaximalUnique` | utils/face_util.py:38 | the first maximal item is the only item with both of those properties |
| `Labels.GetMaxPrediction` | utils/face_util.py:36-38 | an empty mapping raises; otherwise the result is an item of the mapping with a maximal score |
| `Labels.TieGoesToFirst` | utils/face_util.py:38 | of two labels that tie for the top score, the earlier one is returned |
| `Labels.FirstMatch` | utils/face_util.py:44 | the search finds the first member whose value matches the label ignoring case, or reports that none matches |
| `Labels.GetEnumByValue` | utils/face_util.py:41-46 | definition of `get_enum_by_value`; its meaning is stated by `Labels.GetEnumByValueMeaning` and `Labels.LookupExact` |
| `Labels.GetEnumByValueMeaning` | utils/face_util.py:41-46 | the lookup returns a member whose value matches ignoring case; it raises `ValueError` naming the label exactly when no member matches |
| `Labels.LookupExact` | utils/face_util.py:41-46 | when the members' lower-cased values are distinct, the lookup returns a given member exactly when that member's value matches |
| `Labels.RaceLookup` | utils/face_util.py:211-212 | the race lookup returns a race exactly when its value matches the label ignoring case |
| `Labels.EmotionLookup` | utils/face_util.py:213-214 | the emotion lookup returns an emotion exactly when its value matches the label ignoring case |
| `Labels.GenderLookup` | utils/face_util.py:209-210 | the gender lookup returns a gender exactly when its value matches the label ignoring case |
| `Labels.LowerCaseGenderLabels` | utils/character_Info_enum.py:48-50 | the analyser's labels `'man'` and `'woman'` resolve to `MAN` and `WOMAN` |
| `Labels.UnknownRaceRaises` | utils/face_util.py:45-46 | a label that matches no race raises `ValueError` naming the label |
| `FaceAdmission.IsFrontalFace` | utils/face_util.py:122-150 | definition of `is_frontal_face`; its meaning is stated by `FaceAdmission.FrontalIff` and `FaceAdmission.FrontalExamples` |
| `FaceAdmission.FrontalIff` | utils/face_util.py:122-150 | frontal exactly when both eyes are tuples or lists of length 2 whose first coordinates are numbers more than the threshold apart; every other case answers false without raising |
| `FaceAdmission.FrontalExamples` | utils/face_util.py:122-146 | with threshold 50, eyes 100 apart pass; eyes 30 apart, a missing eye, or a one-element eye fail |
| `FaceAdmission.PaddedSize` | utils/face_util.py:233-235 | the padded side is at least the face's larger side |
| `FaceAdmission.CropBox` | utils/face_util.py:231-241 | the crop's near corner is non-negative, its far corner lies within the frame, and each side is at most the padded size |
| `FaceAdmission.CropArea` | utils/face_util.py:244-247 | definition of `cropped_face.size` in pixels; its meaning is stated by `FaceAdmission.CropNonEmptyIff` |
| `FaceAdmission.CropNonEmptyIff` | utils/face_util.py:244-247 | the cropped image has pixels exactly when the near corner lies inside the frame |
| `FaceAdmission.CropExample` | utils/face_util.py:231-241 | region (100, 100, 40, 60) in a frame of at least 200 by 200 is cropped to (72, 82)-(168, 178) |
| `FaceAdmission.AvatarFileNameInjective` | utils/face_util.py:251 | different (frame, face) pairs give different `frame_<frame>_face_<i>.jpg` names |
| `FaceAdmission.FacePathInjective` | utils/face_util.py:251-252 | within one output directory, different (frame, face) pairs give different paths |
| `FaceAdmission.ResolveLabels` | utils/face_util.py:204-214 | definition of the label resolution; its meaning is stated by `FaceAdmission.ResolveLabelsMeaning` |
| `FaceAdmission.ResolveLabelsMeaning` | utils/face_util.py:204-214 | labels resolve exactly when the three score mappings are non-empty and each top label names a member; the recorded names are those members' `chinese_name`s |
| `FaceAdmission.AdmitFace` | utils/face_util.py:192-261 | a recorded face's path is `<out>/frame_<frame>_face_<i>.jpg` |
| `FaceAdmission.AdmissionIff` | utils/face_util.py:192-261 | a face is recorded exactly when it is confident, has a frontal region of positive size with a non-empty crop, and its labels resolve; the record carries its path, age and label names |
| `FaceAdmission.RaisedIff` | utils/face_util.py:192-214 | a label error is raised exactly for confident faces that are not rejected as profiles and whose labels fail to resolve |
| `FaceAdmission.ConfidenceGate` | utils/face_util.py:193-195 | a face is skipped for low confidence exactly when `face_confidence` is missing or below 0.95; 0.95 passes and 0.94 does not |
| `FaceAdmission.NoRegionNeverRecorded` | utils/face_util.py:198-261 | a confident face without a region passes the frontal test but is never recorded |
| `FaceAdmission.AbortedFrameKeepsFaces` | utils/face_util.py:263-264 | once a label error has ended a frame, later faces change nothing |
| `FaceAdmission.LabelErrorKeepsEarlierFaces` | utils/face_util.py:209-264 | a label error on face `j` keeps the faces recorded before it and drops the rest of the frame |
| `FaceAdmission.FrameFaces` | utils/face_util.py:192-264 | definition of one frame's recorded faces; its meaning is stated by `FaceAdmission.FrameFacesStep`, `FaceAdmission.FrameFacesWithoutErrors`, `FaceAdmission.FrameFacesAccepted` and `FaceAdmission.LabelErrorKeepsEarlierFaces` |
| `FaceAdmission.FrameFacesStep` | utils/face_util.py:192-261 | a face that does not raise appends its record if accepted and otherwise changes nothing |
| `FaceAdmission.FrameFacesWithoutErrors` | utils/face_util.py:192-257 | without label errors, a record is kept exactly when some face's outcome accepted it |
| `FaceAdmission.FrameFacesAccepted` | utils/face_util.py:192-257 | every kept record is the record of some accepted face |
| `FaceAdmission.OutcomesPaths` | utils/face_util.py:251-252 | every accepted face of a frame is saved under that frame's number and its own face number |
| `FaceAdmission.FrameFacesPaths` | utils/face_util.py:192-257 | the faces recorded from one frame name that frame and are written to distinct files |
| `FaceAdmission.FacesOfFrame` | utils/face_util.py:168-264 | definition of one key frame's contribution; its meaning is stated by `FaceAdmission.FacesOfFramePaths`, `FaceAdmission.RecordedFaceAdmissible` and `FaceAdmission.CaptureFrame` |
| `FaceAdmission.FacesOfFramePaths` | utils/face_util.py:192-257 | the faces a key frame contributes name that frame and are written to distinct files |
| `FaceAdmission.RecordedFaceAdmissible` | utils/face_util.py:168-257 | a face recorded from a key frame comes from a frame that was read and analysed, and is the record of one of its admissible faces |
| `FaceAdmission.FacesOfFrames` | utils/face_util.py:167-268 | definition of the faces recorded over the key frames; its meaning is stated by `FaceAdmission.FacesOfFramesPaths` and `FaceAdmission.CaptureFrames` |
| `FaceAdmission.FacesOfFramesPaths` | utils/face_util.py:168-257 | over strictly ascending key frames, every recorded path names one of the frames and no two recorded faces share a file |
| `FaceAdmission.CaptureResult` | utils/face_util.py:152-268 | definition of `capture_avatar_from_video`'s outcome; its meaning is stated by `FaceAdmission.CaptureDistinctPaths` and `FaceAdmission.CaptureAvatarFromVideo` |
| `FaceAdmission.CaptureDistinctPaths` | utils/face_util.py:152-268 | a successful run never writes two faces to the same file |
| `FaceAdmission.RecordFaces` | utils/face_util.py:192-264 | the per-face loop appends exactly the records of accepted faces, in detection order, up to the first label error |
| `FaceAdmission.CaptureFrame` | utils/face_util.py:168-264 | a frame that cannot be read, or whose analysis raises, adds nothing; otherwise the frame's recorded faces are appended |
| `FaceAdmission.CaptureFrames` | utils/face_util.py:167-268 | the result lists the faces in key-frame order, then detection order |
| `FaceAdmission.CaptureAvatarFromVideo` | utils/face_util.py:152-268 | a container that cannot be opened and a video capture that cannot be opened raise; otherwise the result lists the recorded faces of the selected key frames, in order |

## Left out

- Reading the subtitle file, `ensure_directory_exists`, the `hlog` logging, and `interrupt_from_keyboard_handler` with its `exit(1)`: these are I/O, process control and signals. `ParseSubtitles` takes the file's text as input.
- `av.open`, `container.decode`, `cv2.VideoCapture` seek and read, `DeepFace.analyze`, `cv2.resize` and `cv2.imwrite`: foreign libraries. They are the inputs described above, and saving a crop is "record appended". `target_size` is used only by `cv2.resize`, so it is not modelled.
- A failure while reading the stream's `average_rate` or `frames`, or a missing video stream: these raise inside the same `try` and give the empty list, just like a conversion error. The model takes `fps` and `total_frames` as integers and does not model this separate failure.
- Floating point: `milliseconds / 1000` and `size * 0.3` are computed exactly (`FrameOf`, `Padding`). Binary rounding could differ at exact boundaries. `face_confidence` is a `real` compared with 0.95.
- `int(stream.average_rate)` is an integer `fps` input.
- Python's `\d`, `str.lower` and `int()` also accept non-ASCII digits and letters, and `int()` strips non-ASCII whitespace such as U+00A0. Only ASCII is modelled; in that range `int()` strips tab, line feed, vertical tab, form feed, carriage return and space, and not the separators 0x1C to 0x1F.
- Missing `age`, `gender`, `race` or `emotion` keys, and a region without `x`, `y`, `w` or `h`, would raise `KeyError`. The record types always carry these fields.
- Non-integer region coordinates are not modelled. An eye coordinate is either an integer or a value for which subtraction raises (`NotANumber`), and `is_frontal_face` answers `False` for the latter.
- An analyser result that is not a list is wrapped into a one-element list; the model takes the list directly.
- `cropped_face.size` counts channels too. The model counts pixels, which is positive exactly when the pixel count is, for a frame with at least one channel.
- `str(avatar_output_path / avatar_file)` is modelled as `out + "/" + name`. `Path` normalisation is not modelled.
- main.py and utils/config_builder.py are command-line and configuration plumbing. utils/face_conf.py holds default values only. None of them is part of this model.
- Labels.GetEnumByValue: carries no contract of its own. Its meaning is stated by `Labels.GetEnumByValueMeaning` and `Labels.LookupExact`.
- FaceAdmission.ResolveLabels: carries no contract of its own. Its meaning is stated by `FaceAdmission.ResolveLabelsMeaning`.
- FaceAdmission.AdmitFace: its own contract states only the saved path. The full admission condition is `FaceAdmission.AdmissionIff`, `FaceAdmission.RaisedIff` and `FaceAdmission.ConfidenceGate`.
- Subtitles.ConvertTimeToFrames: carries no contract of its own. Its meaning is stated by the lemmas named in its row.
- Text.ParseInt: carries no contract of its own. Its meaning is stated by `Text.ParseDigits`, `Text.ParseIntShaped` and `Text.ParseIntRejects`.
- Keyframes.CandidateSet: carries no contract of its own. Its meaning is stated by `Keyframes.CandidateUnion` and `Keyframes.CandidateBounds`.
- Keyframes.SelectedKeyframes: carries no contract of its own. Its meaning is stated by the lemmas named in its row.
- Keyframes.KeyframeList: carries no contract of its own. Its meaning is stated by `Keyframes.ExtractKeyframesFromSubtitleRanges`.
- FaceAdmission.IsFrontalFace: carries no contract of its own. Its meaning is stated by `FaceAdmission.FrontalIff`.
- FaceAdmission.CropArea: carries no contract of its own. Its meaning is stated by `FaceAdmission.CropNonEmptyIff`.
- FaceAdmission.FrameFaces: carries no contract of its own. Its meaning is stated by the lemmas named in its row.
- FaceAdmission.FacesOfFrame: carries no contract of its own. Its meaning is stated by the lemmas named in its row.
- FaceAdmission.FacesOfFrames: carries no contract of its own. Its meaning is stated by `FaceAdmission.FacesOfFramesPaths` and `FaceAdmission.CaptureFrames`.
- FaceAdmission.CaptureResult: carries no contract of its own. Its meaning is stated by `FaceAdmission.CaptureDistinctPaths` and `FaceAdmission.CaptureAvatarFromVideo`.
