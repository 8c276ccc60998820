/**
 * Face curation of `capture_avatar_from_video` in utils/face_util.py: for each
 * selected key frame, the analyser's faces pass a confidence gate, the
 * frontal-eye test `is_frontal_face`, label resolution and the padded-square
 * crop; an admitted face is saved and recorded as
 * `(path, age, gender, race, emotion)`.
 *
 * The analyser, the frame reader and the image writer are inputs: per frame
 * number, whether it could be read, its width and height, and the analysis
 * records of its faces. Saving an image is "record appended".
 */
module FaceAdmission {
  import opened Wrappers
  import opened Text
  import opened CharacterInfo
  import opened Labels
  import opened Keyframes

  // ---------------------------------------------------------------------------
  // Analyser output

  /** An eye coordinate: a number, or a value for which subtraction raises. */
  datatype Coordinate = Number(n: int) | NotANumber

  /**
   * `region.get('left_eye')` and its right-hand twin: missing (`None`), a value
   * that is not a tuple or list (with its truthiness), or a tuple or list.
   */
  datatype EyeValue =
    | Absent
    | NonSequence(truthy: bool)
    | Sequence(items: seq<Coordinate>)

  /** The `region` entry of a face: its bounding box and its eyes. */
  datatype Region = Region(x: int, y: int, w: int, h: int, leftEye: EyeValue, rightEye: EyeValue)

  /** One face record of the analyser; `None` stands for a missing key. */
  datatype FaceAnalysis = FaceAnalysis(
    faceConfidence: Option<real>,
    region: Option<Region>,
    age: int,
    gender: Predictions,
    race: Predictions,
    emotion: Predictions)

  /** The tuple appended to `detected_faces`; the labels are the members' `chinese_name`s. */
  datatype AcceptedFace = AcceptedFace(path: string, age: int, gender: string, race: string, emotion: string)

  /** What does not change while one frame is processed. */
  datatype FrameContext = FrameContext(frameCount: nat, width: int, height: int)

  /** The caller's choices: output directory and `eye_diff_threshold`. */
  datatype Settings = Settings(outDir: string, eyeDiffThreshold: int)

  // ---------------------------------------------------------------------------
  // is_frontal_face

  function Abs(n: int): nat {
    if n < 0 then -n else n
  }

  /** Python truthiness of an eye value. */
  predicate Truthy(e: EyeValue) {
    match e
    case Absent => false
    case NonSequence(t) => t
    case Sequence(items) => |items| > 0
  }

  /**
   * `is_frontal_face(region, threshold)`: every missing or malformed eye, and a
   * coordinate that cannot be subtracted, answer `False` instead of raising.
   */
  predicate IsFrontalFace(region: Region, threshold: int) {
    var left, right := region.leftEye, region.rightEye;
    if !(Truthy(left) && Truthy(right)) then false
    else if !(left.Sequence? && right.Sequence?) then false
    else if |left.items| != 2 || |right.items| != 2 then false
    else
      match (left.items[0], right.items[0])
      case (Number(l), Number(r)) => Abs(l - r) > threshold
      case _ => false
  }

  /**
   * A face is frontal exactly when both eyes are tuples or lists of length two
   * whose first coordinates are numbers more than `threshold` apart.
   */
  lemma FrontalIff(region: Region, threshold: int)
    ensures IsFrontalFace(region, threshold) <==>
      && region.leftEye.Sequence? && |region.leftEye.items| == 2 && region.leftEye.items[0].Number?
      && region.rightEye.Sequence? && |region.rightEye.items| == 2 && region.rightEye.items[0].Number?
      && Abs(region.leftEye.items[0].n - region.rightEye.items[0].n) > threshold
  {
  }

  /** Eyes 100 pixels apart pass a threshold of 50; eyes 30 apart or a missing eye do not. */
  lemma FrontalExamples(threshold: int)
    requires threshold == 50
    ensures IsFrontalFace(Region(0, 0, 10, 10, Sequence([Number(0), Number(0)]), Sequence([Number(100), Number(0)])), threshold)
    ensures !IsFrontalFace(Region(0, 0, 10, 10, Sequence([Number(0), Number(0)]), Sequence([Number(30), Number(0)])), threshold)
    ensures !IsFrontalFace(Region(0, 0, 10, 10, Sequence([Number(0), Number(0)]), Absent), threshold)
    ensures !IsFrontalFace(Region(0, 0, 10, 10, Sequence([Number(0)]), Sequence([Number(100), Number(0)])), threshold)
  {
  }

  // ---------------------------------------------------------------------------
  // Crop geometry

  /** `int(size * 0.3)` for a positive size. */
  function Padding(size: int): int
    requires size > 0
  {
    size * 3 / 10
  }

  /** Side of the padded square: `size + 2 * padding`. */
  function PaddedSize(size: int): (n: int)
    requires size > 0
    ensures n >= size
  {
    size + 2 * Padding(size)
  }

  /** A crop rectangle `[y1:y2, x1:x2]`. */
  datatype Box = Box(x1: int, y1: int, x2: int, y2: int)

  /**
   * The crop of a face with box `(x, y, w, h)` in a `width` by `height` frame:
   * a square of side `PaddedSize(max(w, h))` centred on the face, whose far
   * corner is computed from the clamped near corner.
   */
  function CropBox(x: int, y: int, w: int, h: int, width: int, height: int): (b: Box)
    requires w > 0 && h > 0
    ensures 0 <= b.x1 && 0 <= b.y1
    ensures b.x2 <= width && b.y2 <= height
    ensures b.x2 - b.x1 <= PaddedSize(Max(w, h)) && b.y2 - b.y1 <= PaddedSize(Max(w, h))
  {
    var size := Max(w, h);
    var newSize := PaddedSize(size);
    var centerX, centerY := x + w / 2, y + h / 2;
    var x1 := Max(0, centerX - newSize / 2);
    var y1 := Max(0, centerY - newSize / 2);
    Box(x1, y1, Min(width, x1 + newSize), Min(height, y1 + newSize))
  }

  /** Length of the slice `[start:stop]` of an axis of length `n`, for non-negative bounds. */
  function SliceLength(start: int, stop: int, n: int): nat
    requires 0 <= start && 0 <= stop && 0 <= n
  {
    Max(0, Min(stop, n) - Min(start, n))
  }

  /** Number of pixels of the cropped image. */
  function CropArea(b: Box, width: int, height: int): nat
    requires 0 <= b.x1 && 0 <= b.y1 && 0 <= b.x2 && 0 <= b.y2 && 0 <= width && 0 <= height
  {
    SliceLength(b.y1, b.y2, height) * SliceLength(b.x1, b.x2, width)
  }

  /** The crop is empty exactly when its near corner lies outside the frame. */
  lemma CropNonEmptyIff(x: int, y: int, w: int, h: int, width: int, height: int)
    requires w > 0 && h > 0 && width >= 0 && height >= 0
    ensures var b := CropBox(x, y, w, h, width, height);
      CropArea(b, width, height) > 0 <==> b.x1 < width && b.y1 < height
  {
    var b := CropBox(x, y, w, h, width, height);
    var rows, cols := SliceLength(b.y1, b.y2, height), SliceLength(b.x1, b.x2, width);
    assert rows > 0 <==> b.y1 < height;
    assert cols > 0 <==> b.x1 < width;
    PositiveProduct(rows, cols);
  }

  lemma PositiveProduct(a: nat, b: nat)
    ensures a * b > 0 <==> a > 0 && b > 0
  {
    if a > 0 && b > 0 {
      assert a * b >= b;
    }
  }

  /** A 40 by 60 face at (100, 100) in a large frame is cropped to (72, 82)-(168, 178). */
  lemma CropExample(width: int, height: int)
    requires width >= 200 && height >= 200
    ensures CropBox(100, 100, 40, 60, width, height) == Box(72, 82, 168, 178)
  {
  }

  // ---------------------------------------------------------------------------
  // File names

  /** `'frame_%s_face_%s.jpg' % (frame_count, i)`. */
  function AvatarFileName(frameCount: nat, i: nat): string {
    "frame_" + NatToString(frameCount) + "_face_" + NatToString(i) + ".jpg"
  }

  /** `str(avatar_output_path / avatar_file)`. */
  function FacePath(outDir: string, frameCount: nat, i: nat): string {
    outDir + "/" + AvatarFileName(frameCount, i)
  }

  /** The length of the run of digits `s` starts with; a helper of the file-name injectivity lemmas. */
  function DigitRunLength(s: string): (k: nat)
    ensures k <= |s|
    decreases |s|
  {
    if |s| == 0 || !IsAsciiDigit(s[0]) then 0 else 1 + DigitRunLength(s[1..])
  }

  /** Digits followed by a non-digit: the digits are exactly the leading run. */
  lemma {:induction false} DigitRunOfPrefix(a: string, x: string)
    requires AllDigits(a) && |x| > 0 && !IsAsciiDigit(x[0])
    ensures DigitRunLength(a + x) == |a|
    decreases |a|
  {
    if |a| > 0 {
      assert (a + x)[0] == a[0];
      assert (a + x)[1..] == a[1..] + x;
      DigitRunOfPrefix(a[1..], x);
    } else {
      assert a + x == x;
    }
  }

  /** Digits followed by a non-digit: the split point is determined. */
  lemma DigitsBeforeSeparator(a: string, x: string, b: string, y: string)
    requires AllDigits(a) && AllDigits(b)
    requires |x| > 0 && |y| > 0 && !IsAsciiDigit(x[0]) && !IsAsciiDigit(y[0])
    requires a + x == b + y
    ensures a == b && x == y
  {
    DigitRunOfPrefix(a, x);
    DigitRunOfPrefix(b, y);
    assert a == (a + x)[..|a|] && b == (b + y)[..|b|];
    assert x == (a + x)[|a|..] && y == (b + y)[|b|..];
  }

  /** Two digit strings set between the same fixed texts are recovered from the whole. */
  lemma TwoNumbersDetermined(pre: string, mid: string, post: string, a1: string, b1: string, a2: string, b2: string)
    requires AllDigits(a1) && AllDigits(b1) && AllDigits(a2) && AllDigits(b2)
    requires |mid| > 0 && |post| > 0 && !IsAsciiDigit(mid[0]) && !IsAsciiDigit(post[0])
    requires pre + a1 + mid + b1 + post == pre + a2 + mid + b2 + post
    ensures a1 == a2 && b1 == b2
  {
    var n1, n2 := pre + a1 + mid + b1 + post, pre + a2 + mid + b2 + post;
    var r1, r2 := mid + b1 + post, mid + b2 + post;
    assert n1[|pre|..] == a1 + r1;
    assert n2[|pre|..] == a2 + r2;
    assert r1[0] == mid[0] && r2[0] == mid[0];
    DigitsBeforeSeparator(a1, r1, a2, r2);
    assert r1[|mid|..] == b1 + post;
    assert r2[|mid|..] == b2 + post;
    DigitsBeforeSeparator(b1, post, b2, post);
  }

  /** Different faces get different file names. */
  lemma AvatarFileNameInjective(f1: nat, i1: nat, f2: nat, i2: nat)
    requires AvatarFileName(f1, i1) == AvatarFileName(f2, i2)
    ensures f1 == f2 && i1 == i2
  {
    TwoNumbersDetermined("frame_", "_face_", ".jpg", NatToString(f1), NatToString(i1), NatToString(f2), NatToString(i2));
    NatToStringInjective(f1, f2);
    NatToStringInjective(i1, i2);
  }

  /** Within one output directory, different faces get different paths. */
  lemma FacePathInjective(outDir: string, f1: nat, i1: nat, f2: nat, i2: nat)
    requires FacePath(outDir, f1, i1) == FacePath(outDir, f2, i2)
    ensures f1 == f2 && i1 == i2
  {
    var prefix := outDir + "/";
    assert FacePath(outDir, f1, i1)[|prefix|..] == AvatarFileName(f1, i1);
    assert FacePath(outDir, f2, i2)[|prefix|..] == AvatarFileName(f2, i2);
    AvatarFileNameInjective(f1, i1, f2, i2);
  }

  // ---------------------------------------------------------------------------
  // One face

  /** The display names of the three resolved labels. */
  datatype ResolvedLabels = ResolvedLabels(gender: string, race: string, emotion: string)

  /**
   * The three `get_max_prediction` calls, then the three `get_enum_by_value`
   * lookups, in the order the source makes them; the first error raised wins.
   */
  function ResolveLabels(face: FaceAnalysis): Result<ResolvedLabels, LabelError> {
    var genderTop, raceTop, emotionTop :=
      GetMaxPrediction(face.gender), GetMaxPrediction(face.race), GetMaxPrediction(face.emotion);
    if genderTop.Err? then Err(genderTop.error)
    else if raceTop.Err? then Err(raceTop.error)
    else if emotionTop.Err? then Err(emotionTop.error)
    else
      var gender := GetEnumByValue(GenderMembers, GenderValue, genderTop.value.0);
      var race := GetEnumByValue(RaceMembers, RaceValue, raceTop.value.0);
      var emotion := GetEnumByValue(EmotionMembers, EmotionValue, emotionTop.value.0);
      if gender.Err? then Err(gender.error)
      else if race.Err? then Err(race.error)
      else if emotion.Err? then Err(emotion.error)
      else Ok(ResolvedLabels(gender.value.ChineseName(), race.value.ChineseName(), emotion.value.ChineseName()))
  }

  /**
   * Labels resolve exactly when all three score mappings are non-empty and each
   * top label names a member; the names are then those members' display names.
   */
  lemma ResolveLabelsMeaning(face: FaceAnalysis)
    ensures var r := ResolveLabels(face);
      r.Ok? <==>
        && |face.gender| > 0 && |face.race| > 0 && |face.emotion| > 0
        && GetEnumByValue(GenderMembers, GenderValue, GetMaxPrediction(face.gender).value.0).Ok?
        && GetEnumByValue(RaceMembers, RaceValue, GetMaxPrediction(face.race).value.0).Ok?
        && GetEnumByValue(EmotionMembers, EmotionValue, GetMaxPrediction(face.emotion).value.0).Ok?
    ensures var r := ResolveLabels(face);
      r.Ok? ==>
        && r.value.gender == GetEnumByValue(GenderMembers, GenderValue, GetMaxPrediction(face.gender).value.0).value.ChineseName()
        && r.value.race == GetEnumByValue(RaceMembers, RaceValue, GetMaxPrediction(face.race).value.0).value.ChineseName()
        && r.value.emotion == GetEnumByValue(EmotionMembers, EmotionValue, GetMaxPrediction(face.emotion).value.0).value.ChineseName()
  {
  }

  /** Why a face was not recorded. */
  datatype SkipReason =
    | LowConfidence   // no `face_confidence`, or below 0.95
    | NotFrontal      // a `region` whose eyes fail `is_frontal_face`
    | NoRegion        // no `region`: the labels are resolved, but nothing is cropped
    | InvalidRegion   // `w` or `h` not positive
    | EmptyCrop       // the crop lies outside the frame

  /** The fate of one face: skipped, recorded, or a label error that abandons the frame. */
  datatype FaceOutcome =
    | Skipped(reason: SkipReason)
    | Accepted(face: AcceptedFace)
    | Raised(error: LabelError)

  const MinConfidence: real := 0.95

  predicate ConfidentEnough(face: FaceAnalysis) {
    face.faceConfidence.Some? && face.faceConfidence.value >= MinConfidence
  }

  /** The body of the per-face loop for face number `i` of a frame. */
  function AdmitFace(face: FaceAnalysis, i: nat, frame: FrameContext, settings: Settings): (r: FaceOutcome)
    ensures r.Accepted? ==> r.face.path == FacePath(settings.outDir, frame.frameCount, i)
  {
    if face.faceConfidence.None? || face.faceConfidence.value < MinConfidence then Skipped(LowConfidence)
    else if face.region.Some? && !IsFrontalFace(face.region.value, settings.eyeDiffThreshold) then Skipped(NotFrontal)
    else
      match ResolveLabels(face)
      case Err(e) => Raised(e)
      case Ok(labels) =>
        if face.region.None? then Skipped(NoRegion)
        else
          var region := face.region.value;
          if !(region.w > 0 && region.h > 0) then Skipped(InvalidRegion)
          else
            var box := CropBox(region.x, region.y, region.w, region.h, frame.width, frame.height);
            if !(box.x1 < frame.width && box.y1 < frame.height) then Skipped(EmptyCrop)
            else
              Accepted(AcceptedFace(FacePath(settings.outDir, frame.frameCount, i), face.age,
                                    labels.gender, labels.race, labels.emotion))
  }

  /** Every condition under which a face is recorded, and nothing else. */
  predicate Admissible(face: FaceAnalysis, frame: FrameContext, settings: Settings) {
    && ConfidentEnough(face)
    && face.region.Some?
    && IsFrontalFace(face.region.value, settings.eyeDiffThreshold)
    && ResolveLabels(face).Ok?
    && face.region.value.w > 0 && face.region.value.h > 0
    && frame.width >= 0 && frame.height >= 0
    && var r := face.region.value;
       CropArea(CropBox(r.x, r.y, r.w, r.h, frame.width, frame.height), frame.width, frame.height) > 0
  }

  /**
   * A face is recorded iff it is confident, has a frontal region of positive
   * size whose crop is non-empty, and its labels resolve; the record carries
   * the face's path, age and label names.
   */
  lemma AdmissionIff(face: FaceAnalysis, i: nat, frame: FrameContext, settings: Settings)
    requires frame.width >= 0 && frame.height >= 0
    ensures AdmitFace(face, i, frame, settings).Accepted? <==> Admissible(face, frame, settings)
    ensures AdmitFace(face, i, frame, settings).Accepted? ==>
      var rec := AdmitFace(face, i, frame, settings).face;
      && rec.path == FacePath(settings.outDir, frame.frameCount, i)
      && rec.age == face.age
      && rec == AcceptedFace(rec.path, face.age, ResolveLabels(face).value.gender,
                             ResolveLabels(face).value.race, ResolveLabels(face).value.emotion)
  {
    if face.region.Some? && face.region.value.w > 0 && face.region.value.h > 0 {
      var r := face.region.value;
      CropNonEmptyIff(r.x, r.y, r.w, r.h, frame.width, frame.height);
    }
  }

  /** Label errors are raised only for confident faces that are not rejected as profiles. */
  lemma RaisedIff(face: FaceAnalysis, i: nat, frame: FrameContext, settings: Settings)
    ensures AdmitFace(face, i, frame, settings).Raised? <==>
      && ConfidentEnough(face)
      && (face.region.None? || IsFrontalFace(face.region.value, settings.eyeDiffThreshold))
      && ResolveLabels(face).Err?
  {
  }

  /** The gate is `face_confidence >= 0.95`: 0.95 passes, 0.94 and a missing value do not. */
  lemma ConfidenceGate(face: FaceAnalysis, i: nat, frame: FrameContext, settings: Settings)
    ensures AdmitFace(face, i, frame, settings) == Skipped(LowConfidence) <==> !ConfidentEnough(face)
    ensures face.faceConfidence == Some(0.94) ==> AdmitFace(face, i, frame, settings) == Skipped(LowConfidence)
    ensures face.faceConfidence == Some(0.95) ==> AdmitFace(face, i, frame, settings) != Skipped(LowConfidence)
  {
  }

  /** A face without a region passes the frontal test but is never recorded. */
  lemma NoRegionNeverRecorded(face: FaceAnalysis, i: nat, frame: FrameContext, settings: Settings)
    requires face.region.None? && ConfidentEnough(face)
    ensures AdmitFace(face, i, frame, settings) != Skipped(NotFrontal)
    ensures !AdmitFace(face, i, frame, settings).Accepted?
  {
  }

  // ---------------------------------------------------------------------------
  // One frame

  /** The outcome of each face of a frame, in detection order (`enumerate(results)`). */
  function Outcomes(results: seq<FaceAnalysis>, frame: FrameContext, settings: Settings): (o: seq<FaceOutcome>)
    ensures |o| == |results|
  {
    seq(|results|, i requires 0 <= i < |results| => AdmitFace(results[i], i, frame, settings))
  }

  /** The faces recorded while processing a frame, and whether a label error ended it. */
  datatype FrameResult = FrameResult(accepted: seq<AcceptedFace>, aborted: bool)

  /**
   * The per-face loop after the first `n` outcomes: recorded faces are
   * appended, and the first label error ends the frame.
   */
  function FrameFaces(outcomes: seq<FaceOutcome>, n: nat): (fr: FrameResult)
    requires n <= |outcomes|
    decreases n
  {
    if n == 0 then FrameResult([], false)
    else
      var prev := FrameFaces(outcomes, n - 1);
      if prev.aborted then prev
      else
        match outcomes[n - 1]
        case Raised(_) => FrameResult(prev.accepted, true)
        case Skipped(_) => prev
        case Accepted(face) => FrameResult(prev.accepted + [face], false)
  }

  /** Once a label error has ended a frame, later faces change nothing. */
  lemma {:induction false} AbortedFrameKeepsFaces(outcomes: seq<FaceOutcome>, j: nat, n: nat)
    requires j <= n <= |outcomes|
    requires FrameFaces(outcomes, j).aborted
    ensures FrameFaces(outcomes, n) == FrameFaces(outcomes, j)
    decreases n
  {
    if n > j {
      AbortedFrameKeepsFaces(outcomes, j, n - 1);
    }
  }

  /**
   * A label error on face `j` keeps the faces recorded before it and drops the
   * rest of the frame.
   */
  lemma LabelErrorKeepsEarlierFaces(outcomes: seq<FaceOutcome>, j: nat)
    requires j < |outcomes|
    requires !FrameFaces(outcomes, j).aborted && outcomes[j].Raised?
    ensures FrameFaces(outcomes, |outcomes|).accepted == FrameFaces(outcomes, j).accepted
    ensures FrameFaces(outcomes, |outcomes|).aborted
  {
    assert FrameFaces(outcomes, j + 1) == FrameResult(FrameFaces(outcomes, j).accepted, true);
    AbortedFrameKeepsFaces(outcomes, j + 1, |outcomes|);
  }

  /** One step of the per-face loop for a face that does not raise. */
  lemma FrameFacesStep(outcomes: seq<FaceOutcome>, i: nat)
    requires i < |outcomes| && !FrameFaces(outcomes, i).aborted && !outcomes[i].Raised?
    ensures !FrameFaces(outcomes, i + 1).aborted
    ensures FrameFaces(outcomes, i + 1).accepted ==
      FrameFaces(outcomes, i).accepted + (if outcomes[i].Accepted? then [outcomes[i].face] else [])
  {
  }

  /** Without a label error, exactly the accepted faces are recorded, in order. */
  lemma {:induction false} FrameFacesWithoutErrors(outcomes: seq<FaceOutcome>, n: nat, face: AcceptedFace)
    requires n <= |outcomes|
    requires forall i :: 0 <= i < n ==> !outcomes[i].Raised?
    ensures !FrameFaces(outcomes, n).aborted
    ensures face in FrameFaces(outcomes, n).accepted <==> exists i :: 0 <= i < n && outcomes[i] == Accepted(face)
    decreases n
  {
    if n > 0 {
      FrameFacesWithoutErrors(outcomes, n - 1, face);
      if outcomes[n - 1] == Accepted(face) {
        assert FrameFaces(outcomes, n).accepted == FrameFaces(outcomes, n - 1).accepted + [face];
      }
    }
  }

  /** Every recorded face is the record of an accepted outcome among those processed. */
  lemma {:induction false} FrameFacesAccepted(outcomes: seq<FaceOutcome>, n: nat, face: AcceptedFace)
    requires n <= |outcomes| && face in FrameFaces(outcomes, n).accepted
    ensures exists i :: 0 <= i < n && outcomes[i] == Accepted(face)
    decreases n
  {
    var prev := FrameFaces(outcomes, n - 1);
    if face in prev.accepted {
      FrameFacesAccepted(outcomes, n - 1, face);
      var i :| 0 <= i < n - 1 && outcomes[i] == Accepted(face);
    } else {
      assert outcomes[n - 1] == Accepted(face);
    }
  }

  /** Every accepted outcome of a frame names that frame and its own face number. */
  predicate OutcomePaths(outcomes: seq<FaceOutcome>, outDir: string, frameCount: nat) {
    forall i :: 0 <= i < |outcomes| && outcomes[i].Accepted? ==>
      outcomes[i].face.path == FacePath(outDir, frameCount, i)
  }

  lemma OutcomesPaths(results: seq<FaceAnalysis>, frame: FrameContext, settings: Settings)
    ensures OutcomePaths(Outcomes(results, frame, settings), settings.outDir, frame.frameCount)
  {
    var o := Outcomes(results, frame, settings);
    forall i | 0 <= i < |o| && o[i].Accepted?
      ensures o[i].face.path == FacePath(settings.outDir, frame.frameCount, i)
    {
      assert o[i] == AdmitFace(results[i], i, frame, settings);
    }
  }

  /** Paths of faces recorded from frame `frameCount` name that frame and a face number below `bound`. */
  ghost predicate PathsFromFrame(faces: seq<AcceptedFace>, outDir: string, frameCount: nat, bound: nat) {
    forall p :: 0 <= p < |faces| ==> IsFileOfFrame(faces[p].path, outDir, frameCount, bound)
  }

  /** `path` is the file of face number `i < bound` of frame `frameCount`. */
  ghost predicate IsFileOfFrame(path: string, outDir: string, frameCount: nat, bound: nat) {
    exists i: nat :: i < bound && path == FacePath(outDir, frameCount, i)
  }

  predicate DistinctPaths(faces: seq<AcceptedFace>) {
    forall p, q :: 0 <= p < q < |faces| ==> faces[p].path != faces[q].path
  }

  /** Raising the bound on face numbers keeps paths naming the frame. */
  lemma WidenBound(faces: seq<AcceptedFace>, outDir: string, f: nat, bound: nat, wider: nat)
    requires bound <= wider && PathsFromFrame(faces, outDir, f, bound)
    ensures PathsFromFrame(faces, outDir, f, wider)
  {
    forall p | 0 <= p < |faces| ensures IsFileOfFrame(faces[p].path, outDir, f, wider) {
      var i: nat :| i < bound && faces[p].path == FacePath(outDir, f, i);
    }
  }

  /** Appending the file of face number `bound` keeps the frame's files distinct. */
  lemma AppendFaceOfFrame(prev: seq<AcceptedFace>, face: AcceptedFace, outDir: string, f: nat, bound: nat)
    requires PathsFromFrame(prev, outDir, f, bound) && DistinctPaths(prev)
    requires face.path == FacePath(outDir, f, bound)
    ensures PathsFromFrame(prev + [face], outDir, f, bound + 1) && DistinctPaths(prev + [face])
  {
    var acc := prev + [face];
    forall p | 0 <= p < |acc| ensures IsFileOfFrame(acc[p].path, outDir, f, bound + 1) {
      if p < |prev| {
        var i: nat :| i < bound && prev[p].path == FacePath(outDir, f, i);
        assert acc[p] == prev[p];
      } else {
        assert acc[p] == face;
      }
    }
    forall p, q | 0 <= p < q < |acc| ensures acc[p].path != acc[q].path {
      if q < |prev| {
        assert acc[p] == prev[p] && acc[q] == prev[q];
      } else {
        var i: nat :| i < bound && prev[p].path == FacePath(outDir, f, i);
        assert acc[p] == prev[p] && acc[q] == face;
        if acc[p].path == acc[q].path {
          FacePathInjective(outDir, f, i, f, bound);
        }
      }
    }
  }

  /** One step of the per-face loop keeps the recorded files naming the frame, and distinct. */
  lemma FrameFacesPathsStep(outcomes: seq<FaceOutcome>, n: nat, outDir: string, f: nat)
    requires 0 < n <= |outcomes| && OutcomePaths(outcomes, outDir, f)
    requires var prev := FrameFaces(outcomes, n - 1).accepted;
      PathsFromFrame(prev, outDir, f, n - 1) && DistinctPaths(prev)
    ensures var acc := FrameFaces(outcomes, n).accepted;
      PathsFromFrame(acc, outDir, f, n) && DistinctPaths(acc)
  {
    var prev := FrameFaces(outcomes, n - 1);
    WidenBound(prev.accepted, outDir, f, n - 1, n);
    if !prev.aborted && outcomes[n - 1].Accepted? {
      AppendFaceOfFrame(prev.accepted, outcomes[n - 1].face, outDir, f, n - 1);
    }
  }

  /** The faces recorded from one frame are written to different files of that frame. */
  lemma {:induction false} FrameFacesPaths(outcomes: seq<FaceOutcome>, n: nat, outDir: string, f: nat)
    requires n <= |outcomes| && OutcomePaths(outcomes, outDir, f)
    ensures var acc := FrameFaces(outcomes, n).accepted;
      PathsFromFrame(acc, outDir, f, n) && DistinctPaths(acc)
    decreases n
  {
    if n > 0 {
      FrameFacesPaths(outcomes, n - 1, outDir, f);
      FrameFacesPathsStep(outcomes, n, outDir, f);
    }
  }

  // ---------------------------------------------------------------------------
  // The whole run

  /** The analyser's answer for one frame: it raised, or it listed face records. */
  datatype Analysis = AnalyzeRaised | Analyzed(results: seq<FaceAnalysis>)

  /** Seeking to a frame and reading it: failure, or the frame's size and its analysis. */
  datatype FrameCapture = ReadFailed | Read(width: nat, height: nat, analysis: Analysis)

  /** `cap.set(CAP_PROP_POS_FRAMES, f); cap.read()`; frames past the end cannot be read. */
  function CaptureAt(captures: seq<FrameCapture>, frameCount: nat): FrameCapture {
    if frameCount < |captures| then captures[frameCount] else ReadFailed
  }

  /** The outcomes of the faces of one key frame; none when it cannot be read or analysed. */
  function FrameOutcomes(capture: FrameCapture, frameCount: nat, settings: Settings): seq<FaceOutcome> {
    match capture
    case ReadFailed => []
    case Read(width, height, analysis) =>
      match analysis
      case AnalyzeRaised => []
      case Analyzed(results) => Outcomes(results, FrameContext(frameCount, width, height), settings)
  }

  /** The faces one key frame contributes. */
  function FacesOfFrame(capture: FrameCapture, frameCount: nat, settings: Settings): seq<AcceptedFace> {
    var outcomes := FrameOutcomes(capture, frameCount, settings);
    FrameFaces(outcomes, |outcomes|).accepted
  }

  /** `detected_faces` after the given key frames: key-frame order, then detection order. */
  function FacesOfFrames(frames: seq<nat>, captures: seq<FrameCapture>, settings: Settings): seq<AcceptedFace>
    decreases |frames|
  {
    if |frames| == 0 then []
    else
      var last := frames[|frames| - 1];
      FacesOfFrames(frames[..|frames| - 1], captures, settings) + FacesOfFrame(CaptureAt(captures, last), last, settings)
  }

  /** The faces of one key frame name that frame and are written to different files. */
  lemma FacesOfFramePaths(capture: FrameCapture, f: nat, settings: Settings)
    ensures var outcomes := FrameOutcomes(capture, f, settings);
      var faces := FacesOfFrame(capture, f, settings);
      PathsFromFrame(faces, settings.outDir, f, |outcomes|) && DistinctPaths(faces)
  {
    var outcomes := FrameOutcomes(capture, f, settings);
    if capture.Read? && capture.analysis.Analyzed? {
      OutcomesPaths(capture.analysis.results, FrameContext(f, capture.width, capture.height), settings);
    }
    FrameFacesPaths(outcomes, |outcomes|, settings.outDir, f);
  }

  /**
   * A face recorded from a key frame comes from a frame that was read and
   * analysed, and is the record of one of its admissible faces.
   */
  lemma RecordedFaceAdmissible(capture: FrameCapture, f: nat, settings: Settings, face: AcceptedFace)
    requires face in FacesOfFrame(capture, f, settings)
    ensures capture.Read? && capture.analysis.Analyzed?
    ensures var results, frame := capture.analysis.results, FrameContext(f, capture.width, capture.height);
      exists i :: 0 <= i < |results| && Admissible(results[i], frame, settings)
        && AdmitFace(results[i], i, frame, settings) == Accepted(face)
  {
    var outcomes := FrameOutcomes(capture, f, settings);
    FrameFacesAccepted(outcomes, |outcomes|, face);
    var i :| 0 <= i < |outcomes| && outcomes[i] == Accepted(face);
    var results, frame := capture.analysis.results, FrameContext(f, capture.width, capture.height);
    assert outcomes[i] == AdmitFace(results[i], i, frame, settings);
    AdmissionIff(results[i], i, frame, settings);
  }

  /** Paths of recorded faces name one of the given key frames. */
  ghost predicate PathsFromFrames(faces: seq<AcceptedFace>, outDir: string, frames: seq<nat>) {
    forall p :: 0 <= p < |faces| ==> IsFileOfFrames(faces[p].path, outDir, frames)
  }

  /** `path` is the file of some face of one of `frames`. */
  ghost predicate IsFileOfFrames(path: string, outDir: string, frames: seq<nat>) {
    exists k, i: nat :: 0 <= k < |frames| && path == FacePath(outDir, frames[k], i)
  }

  /** Appending the faces of a later frame keeps every path naming one of the frames. */
  lemma AppendFrameNames(before: seq<AcceptedFace>, front: seq<nat>, added: seq<AcceptedFace>, f: nat,
                         bound: nat, outDir: string)
    requires PathsFromFrames(before, outDir, front)
    requires PathsFromFrame(added, outDir, f, bound)
    ensures PathsFromFrames(before + added, outDir, front + [f])
  {
    var faces, frames := before + added, front + [f];
    forall p | 0 <= p < |faces|
      ensures IsFileOfFrames(faces[p].path, outDir, frames)
    {
      if p < |before| {
        var k, i: nat :| 0 <= k < |front| && before[p].path == FacePath(outDir, front[k], i);
        assert faces[p] == before[p] && frames[k] == front[k];
        assert faces[p].path == FacePath(outDir, frames[k], i);
      } else {
        var pa := p - |before|;
        assert 0 <= pa < |added|;
        var i: nat :| i < bound && added[pa].path == FacePath(outDir, f, i);
        assert faces[p] == added[pa] && frames[|front|] == f;
        assert faces[p].path == FacePath(outDir, frames[|front|], i);
      }
    }
  }

  /** Appending the distinct files of a later frame to distinct files of earlier frames keeps them distinct. */
  lemma AppendFrameDistinct(before: seq<AcceptedFace>, front: seq<nat>, added: seq<AcceptedFace>, f: nat,
                            bound: nat, outDir: string)
    requires PathsFromFrames(before, outDir, front) && DistinctPaths(before)
    requires PathsFromFrame(added, outDir, f, bound) && DistinctPaths(added)
    requires forall k :: 0 <= k < |front| ==> front[k] < f
    ensures DistinctPaths(before + added)
  {
    var faces := before + added;
    forall p, q | 0 <= p < q < |faces| ensures faces[p].path != faces[q].path {
      if q < |before| {
        assert faces[p] == before[p] && faces[q] == before[q];
      } else if |before| <= p {
        assert faces[p] == added[p - |before|] && faces[q] == added[q - |before|];
      } else {
        var k, i: nat :| 0 <= k < |front| && before[p].path == FacePath(outDir, front[k], i);
        var qa := q - |before|;
        assert 0 <= qa < |added|;
        var j: nat :| j < bound && added[qa].path == FacePath(outDir, f, j);
        assert faces[p] == before[p] && faces[q] == added[qa];
        if faces[p].path == faces[q].path {
          FacePathInjective(outDir, front[k], i, f, j);
        }
      }
    }
  }

  lemma LastSplit(s: seq<nat>)
    requires |s| > 0
    ensures s == s[..|s| - 1] + [s[|s| - 1]]
  {
  }

  /** The last key frame's faces extend the paths and distinctness of the earlier frames' faces. */
  lemma AppendLastFrame(frames: seq<nat>, captures: seq<FrameCapture>, settings: Settings)
    requires |frames| > 0 && StrictlyAscending(frames)
    requires var before := FacesOfFrames(frames[..|frames| - 1], captures, settings);
      PathsFromFrames(before, settings.outDir, frames[..|frames| - 1]) && DistinctPaths(before)
    ensures var faces := FacesOfFrames(frames, captures, settings);
      PathsFromFrames(faces, settings.outDir, frames) && DistinctPaths(faces)
  {
    var m := |frames| - 1;
    var front, f := frames[..m], frames[m];
    var before := FacesOfFrames(front, captures, settings);
    var capture := CaptureAt(captures, f);
    var added := FacesOfFrame(capture, f, settings);
    var bound := |FrameOutcomes(capture, f, settings)|;
    FacesOfFramePaths(capture, f, settings);
    LastSplit(frames);
    AppendFrameNames(before, front, added, f, bound, settings.outDir);
    AppendFrameDistinct(before, front, added, f, bound, settings.outDir);
  }

  /** Over strictly ascending key frames, no two recorded faces share a file. */
  lemma {:induction false} FacesOfFramesPaths(frames: seq<nat>, captures: seq<FrameCapture>, settings: Settings)
    requires StrictlyAscending(frames)
    ensures var faces := FacesOfFrames(frames, captures, settings);
      PathsFromFrames(faces, settings.outDir, frames) && DistinctPaths(faces)
    decreases |frames|
  {
    if |frames| > 0 {
      FacesOfFramesPaths(frames[..|frames| - 1], captures, settings);
      AppendLastFrame(frames, captures, settings);
    }
  }

  /** The video as the program sees it through its libraries. */
  datatype Video = Video(
    containerOpens: bool,            // `av.open` succeeds
    fps: int,                        // `int(stream.average_rate)`
    totalFrames: int,                // `stream.frames`
    keyFlags: seq<bool>,             // `key_frame` of each decoded frame, in order
    captureOpens: bool,              // `cv2.VideoCapture(...).isOpened()`
    captures: seq<FrameCapture>)     // reading and analysing each frame number

  /** The exceptions that escape `capture_avatar_from_video`. */
  datatype CaptureError = ContainerOpenFailed | CannotOpenVideo

  /** What `capture_avatar_from_video` returns or raises. */
  function CaptureResult(video: Video, times: seq<(string, string)>, redundancy: int, settings: Settings)
    : Result<seq<AcceptedFace>, CaptureError>
  {
    if !video.containerOpens then Err(ContainerOpenFailed)
    else if !video.captureOpens then Err(CannotOpenVideo)
    else Ok(FacesOfFrames(KeyframeList(times, redundancy, video.fps, video.totalFrames, video.keyFlags),
                          video.captures, settings))
  }

  /** A successful run never writes two faces to the same file. */
  lemma CaptureDistinctPaths(video: Video, times: seq<(string, string)>, redundancy: int, settings: Settings)
    requires CaptureResult(video, times, redundancy, settings).Ok?
    ensures DistinctPaths(CaptureResult(video, times, redundancy, settings).value)
  {
    var frames := KeyframeList(times, redundancy, video.fps, video.totalFrames, video.keyFlags);
    FacesOfFramesPaths(frames, video.captures, settings);
  }

  /**
   * The decision for face `i` of a frame, which `outcomes` records. A helper of
   * `RecordFaces`: it keeps `AdmitFace`'s body out of the loop's proof.
   */
  method DecideFace(results: seq<FaceAnalysis>, i: nat, frame: FrameContext, settings: Settings,
                    ghost outcomes: seq<FaceOutcome>)
    returns (outcome: FaceOutcome)
    requires i < |results| == |outcomes|
    requires forall k {:trigger AdmitFace(results[k], k, frame, settings)} ::
      0 <= k < |results| ==> outcomes[k] == AdmitFace(results[k], k, frame, settings)
    ensures outcome == outcomes[i]
    ensures outcome.Accepted? ==> outcome.face.path == FacePath(settings.outDir, frame.frameCount, i)
  {
    outcome := AdmitFace(results[i], i, frame, settings);
  }

  /**
   * The per-face loop `for i, result in enumerate(results)`: admitted faces are
   * appended to `detected`; the first label error ends the loop. `outcomes`
   * names the outcome of each face.
   */
  method RecordFaces(results: seq<FaceAnalysis>, frame: FrameContext, settings: Settings,
                     detected: seq<AcceptedFace>, ghost outcomes: seq<FaceOutcome>)
    returns (after: seq<AcceptedFace>)
    requires |outcomes| == |results|
    requires forall k {:trigger AdmitFace(results[k], k, frame, settings)} ::
      0 <= k < |results| ==> outcomes[k] == AdmitFace(results[k], k, frame, settings)
    ensures after == detected + FrameFaces(outcomes, |outcomes|).accepted
  {
    after := detected;
    var i := 0;
    while i < |results|
      invariant 0 <= i <= |results|
      invariant !FrameFaces(outcomes, i).aborted
      invariant after == detected + FrameFaces(outcomes, i).accepted
    {
      var outcome := DecideFace(results, i, frame, settings, outcomes);
      if outcome.Raised? {
        LabelErrorKeepsEarlierFaces(outcomes, i);
        break;
      }
      FrameFacesStep(outcomes, i);
      if outcome.Accepted? {
        after := after + [outcome.face];
      }
      i := i + 1;
    }
  }

  /**
   * The body of the loop over key frames for frame `frameCount`: when the frame
   * is read and analysed, its admitted faces are appended to `detected`.
   */
  method CaptureFrame(capture: FrameCapture, frameCount: nat, settings: Settings, detected: seq<AcceptedFace>)
    returns (after: seq<AcceptedFace>)
    ensures after == detected + FacesOfFrame(capture, frameCount, settings)
  {
    after := detected;
    if capture.Read? && capture.analysis.Analyzed? {
      var results := capture.analysis.results;
      var frame := FrameContext(frameCount, capture.width, capture.height);
      after := RecordFaces(results, frame, settings, detected, Outcomes(results, frame, settings));
    }
  }

  /** The loop of `capture_avatar_from_video` over the selected key frames. */
  method CaptureFrames(frames: seq<nat>, captures: seq<FrameCapture>, settings: Settings)
    returns (detected: seq<AcceptedFace>)
    ensures detected == FacesOfFrames(frames, captures, settings)
  {
    detected := [];
    var n := 0;
    while n < |frames|
      invariant 0 <= n <= |frames|
      invariant detected == FacesOfFrames(frames[..n], captures, settings)
    {
      var frameCount := frames[n];
      detected := CaptureFrame(CaptureAt(captures, frameCount), frameCount, settings, detected);
      assert frames[..n + 1][..n] == frames[..n];
      n := n + 1;
    }
    assert frames[..n] == frames;
  }

  /**
   * `capture_avatar_from_video`: select the key frames, then read and analyse
   * each, appending the admitted faces.
   */
  method CaptureAvatarFromVideo(video: Video, times: seq<(string, string)>, redundancy: int, settings: Settings)
    returns (r: Result<seq<AcceptedFace>, CaptureError>)
    ensures r == CaptureResult(video, times, redundancy, settings)
  {
    if !video.containerOpens {
      return Err(ContainerOpenFailed);
    }
    var frames := ExtractKeyframesFromSubtitleRanges(times, redundancy, video.fps, video.totalFrames, video.keyFlags);
    if !video.captureOpens {
      return Err(CannotOpenVideo);
    }
    var detected := CaptureFrames(frames, video.captures, settings);
    r := Ok(detected);
  }
}
