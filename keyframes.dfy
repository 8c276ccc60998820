/**
 * `extract_keyframes_from_subtitle_ranges` of utils/face_util.py: subtitle
 * intervals become padded, clamped frame ranges whose union is the candidate
 * set; one sequential decode keeps the candidates the decoder flags as key
 * frames, and the result is returned sorted.
 *
 * The container is abstracted by its integer frame rate, its frame count and
 * the key-frame flags of the frames decoding delivered, in order. A decode that
 * raises part-way is the same as a shorter flag sequence: the frames gathered
 * so far are still sorted and returned.
 */
module Keyframes {
  import opened Wrappers
  import opened Subtitles

  function Max(a: int, b: int): int { if a >= b then a else b }

  function Min(a: int, b: int): int { if a <= b then a else b }

  // ---------------------------------------------------------------------------
  // Specification

  predicate Between(lo: int, i: int, hi: int) {
    lo <= i <= hi
  }

  /**
   * The integers from `lo` to `hi`, both included. The bounds are written out for
   * the finiteness check; `Between` repeats them as the comprehension's trigger.
   */
  function IntRange(lo: int, hi: int): set<int> {
    set i: int | lo <= i <= hi && Between(lo, i, hi)
  }

  /** `range(max(0, s - r), min(total - 1, e + r) + 1)`, as a set. */
  function PaddedRange(startFrame: int, endFrame: int, redundancy: int, totalFrames: int): set<int> {
    IntRange(Max(0, startFrame - redundancy), Min(totalFrames - 1, endFrame + redundancy))
  }

  /** The candidate set: the union of the padded ranges of all intervals. */
  function CandidateSet(intervals: seq<(int, int)>, redundancy: int, totalFrames: int): set<int>
    decreases |intervals|
  {
    if |intervals| == 0 then {}
    else
      var last := intervals[|intervals| - 1];
      CandidateSet(intervals[..|intervals| - 1], redundancy, totalFrames)
        + PaddedRange(last.0, last.1, redundancy, totalFrames)
  }

  /** Start and end frame of one subtitle interval; the start is converted first. */
  function FrameInterval(time: (string, string), fps: int): Result<(int, int), TimeError> {
    match ConvertTimeToFrames(time.0, fps)
    case Err(e) => Err(e)
    case Ok(startFrame) =>
      match ConvertTimeToFrames(time.1, fps)
      case Err(e) => Err(e)
      case Ok(endFrame) => Ok((startFrame, endFrame))
  }

  /** Every subtitle interval converts without raising. */
  predicate AllConvert(times: seq<(string, string)>, fps: int) {
    forall j {:trigger FrameInterval(times[j], fps)} :: 0 <= j < |times| ==> FrameInterval(times[j], fps).Ok?
  }

  /**
   * The frame intervals of all subtitle intervals, in order, or `None` when a
   * conversion raises.
   */
  function FrameIntervals(times: seq<(string, string)>, fps: int): (r: Option<seq<(int, int)>>)
    ensures r.Some? <==> AllConvert(times, fps)
    ensures r.Some? ==> |r.value| == |times|
  {
    if AllConvert(times, fps) then
      Some(seq(|times|, j requires 0 <= j < |times| && FrameInterval(times[j], fps).Ok? =>
        FrameInterval(times[j], fps).value))
    else None
  }

  /**
   * The key frames the source collects: candidates that the decoder delivered
   * with the key-frame flag set. A conversion error is raised before decoding
   * starts, so it leaves nothing collected.
   */
  function SelectedKeyframes(times: seq<(string, string)>, redundancy: int, fps: int, totalFrames: int,
                             keyFlags: seq<bool>): set<nat>
  {
    match FrameIntervals(times, fps)
    case None => {}
    case Some(intervals) =>
      set i: nat | i < |keyFlags| && i in CandidateSet(intervals, redundancy, totalFrames) && keyFlags[i]
  }

  predicate StrictlyAscending(s: seq<int>) {
    forall i, j :: 0 <= i < j < |s| ==> s[i] < s[j]
  }

  predicate IsLeast(m: nat, s: set<nat>) {
    m in s && forall x :: x in s ==> m <= x
  }

  lemma {:induction false} HasLeast(s: set<nat>)
    requires s != {}
    ensures exists m :: IsLeast(m, s)
    decreases |s|
  {
    var y :| y in s;
    var rest := s - {y};
    if rest == {} {
      forall x | x in s ensures y <= x {
        assert x !in rest;
      }
      assert IsLeast(y, s);
    } else {
      assert |rest| < |s|;
      HasLeast(rest);
      var m :| IsLeast(m, rest);
      var least := if y < m then y else m;
      forall x | x in s ensures least <= x {
        if x != y { assert x in rest; }
      }
      assert IsLeast(least, s);
    }
  }

  /** `sorted(list(s))`: the members of `s`, each once, in ascending order. */
  function Sorted(s: set<nat>): (r: seq<nat>)
    ensures StrictlyAscending(r)
    ensures forall x :: x in r <==> x in s
    decreases |s|
  {
    if s == {} then []
    else
      HasLeast(s);
      var m :| IsLeast(m, s);
      [m] + Sorted(s - {m})
  }

  /** The list `extract_keyframes_from_subtitle_ranges` returns. */
  function KeyframeList(times: seq<(string, string)>, redundancy: int, fps: int, totalFrames: int,
                        keyFlags: seq<bool>): seq<nat>
  {
    Sorted(SelectedKeyframes(times, redundancy, fps, totalFrames, keyFlags))
  }

  // ---------------------------------------------------------------------------
  // The operation

  /** The inner loop `for frame_num in range(lo, hi + 1)`: the frames it adds. */
  method FramesBetween(lo: int, hi: int) returns (added: set<int>)
    ensures added == IntRange(lo, hi)
  {
    added := {};
    var frameNum := lo;
    while frameNum <= hi
      invariant lo <= frameNum <= Max(lo, hi + 1)
      invariant added == IntRange(lo, frameNum - 1)
    {
      added := added + {frameNum};
      frameNum := frameNum + 1;
    }
    assert frameNum == Max(lo, hi + 1);
  }

  /** Adding an interval adds its padded range to the candidate set. */
  lemma CandidateSetAppend(intervals: seq<(int, int)>, interval: (int, int), redundancy: int, totalFrames: int)
    ensures CandidateSet(intervals + [interval], redundancy, totalFrames) ==
      CandidateSet(intervals, redundancy, totalFrames) + PaddedRange(interval.0, interval.1, redundancy, totalFrames)
  {
    assert (intervals + [interval])[..|intervals|] == intervals;
  }

  /** One subtitle interval that fails to convert makes the whole conversion fail. */
  lemma FailedIntervalFails(times: seq<(string, string)>, fps: int, k: nat)
    requires k < |times| && FrameInterval(times[k], fps).Err?
    ensures FrameIntervals(times, fps).None?
  {
  }

  /** When every subtitle interval converts, the frame intervals are exactly the converted pairs. */
  lemma ConvertedIntervals(times: seq<(string, string)>, fps: int, intervals: seq<(int, int)>)
    requires |intervals| == |times|
    requires forall j {:trigger FrameInterval(times[j], fps)} :: 0 <= j < |times| ==> FrameInterval(times[j], fps) == Ok(intervals[j])
    ensures FrameIntervals(times, fps) == Some(intervals)
  {
    assert AllConvert(times, fps);
    assert FrameIntervals(times, fps).value == intervals;
  }

  /**
   * Converts the start, then the end, of one subtitle interval to frame numbers.
   * A helper of `AddSubtitleInterval`: it keeps `FrameInterval`'s body out of the loop's proof.
   */
  method ConvertInterval(time: (string, string), fps: int) returns (r: Result<(int, int), TimeError>)
    ensures r == FrameInterval(time, fps)
  {
    var startFrame := ConvertTimeToFrames(time.0, fps);
    if startFrame.Err? {
      return Err(startFrame.error);
    }
    var endFrame := ConvertTimeToFrames(time.1, fps);
    if endFrame.Err? {
      return Err(endFrame.error);
    }
    r := Ok((startFrame.value, endFrame.value));
  }

  /**
   * One pass of the loop over subtitle intervals: convert the interval and,
   * when it converts, add its padded range of frame numbers.
   */
  method AddSubtitleInterval(time: (string, string), redundancy: int, fps: int, totalFrames: int,
                             frameRanges: set<int>)
    returns (interval: Result<(int, int), TimeError>, after: set<int>)
    ensures interval == FrameInterval(time, fps)
    ensures interval.Ok? ==>
      after == frameRanges + PaddedRange(interval.value.0, interval.value.1, redundancy, totalFrames)
  {
    after := frameRanges;
    interval := ConvertInterval(time, fps);
    if interval.Ok? {
      var (startFrame, endFrame) := interval.value;
      var lo, hi := Max(0, startFrame - redundancy), Min(totalFrames - 1, endFrame + redundancy);
      var added := FramesBetween(lo, hi);
      after := frameRanges + added;
    }
  }

  /**
   * The first phase of `extract_keyframes_from_subtitle_ranges`: convert each
   * interval and add its padded range to `frameRanges`. `ok` is false when a
   * conversion raised, which abandons the phase.
   */
  method BuildFrameRanges(times: seq<(string, string)>, redundancy: int, fps: int, totalFrames: int)
    returns (ok: bool, frameRanges: set<int>)
    ensures ok <==> FrameIntervals(times, fps).Some?
    ensures ok ==> forall i {:trigger i in CandidateSet(FrameIntervals(times, fps).value, redundancy, totalFrames)} ::
      i in frameRanges <==> i in CandidateSet(FrameIntervals(times, fps).value, redundancy, totalFrames)
  {
    frameRanges := {};
    ghost var intervals: seq<(int, int)> := [];
    var k := 0;
    while k < |times|
      invariant 0 <= k <= |times| && |intervals| == k
      invariant forall j {:trigger FrameInterval(times[j], fps)} :: 0 <= j < k ==> FrameInterval(times[j], fps) == Ok(intervals[j])
      invariant frameRanges == CandidateSet(intervals, redundancy, totalFrames)
    {
      var interval, after := AddSubtitleInterval(times[k], redundancy, fps, totalFrames, frameRanges);
      if interval.Err? {
        FailedIntervalFails(times, fps, k);
        return false, frameRanges;
      }
      CandidateSetAppend(intervals, interval.value, redundancy, totalFrames);
      frameRanges := after;
      intervals := intervals + [interval.value];
      k := k + 1;
    }
    ConvertedIntervals(times, fps, intervals);
    ok := true;
  }

  method ExtractKeyframesFromSubtitleRanges(times: seq<(string, string)>, redundancy: int, fps: int,
                                            totalFrames: int, keyFlags: seq<bool>)
    returns (keyframes: seq<nat>)
    ensures keyframes == KeyframeList(times, redundancy, fps, totalFrames, keyFlags)
    ensures StrictlyAscending(keyframes)
    ensures forall i: nat :: i in keyframes <==>
      && FrameIntervals(times, fps).Some?
      && i < |keyFlags| && keyFlags[i]
      && i in CandidateSet(FrameIntervals(times, fps).value, redundancy, totalFrames)
  {
    var found: set<nat> := {};
    var ok, frameRanges := BuildFrameRanges(times, redundancy, fps, totalFrames);
    if ok {
      // Decode once from frame 0, keeping candidates flagged as key frames.
      var frameIndex := 0;
      while frameIndex < |keyFlags|
        invariant 0 <= frameIndex <= |keyFlags|
        invariant forall i: nat :: i in found <==> i < frameIndex && i in frameRanges && keyFlags[i]
      {
        if frameIndex in frameRanges && keyFlags[frameIndex] {
          found := found + {frameIndex};
        }
        frameIndex := frameIndex + 1;
      }
    }
    assert found == SelectedKeyframes(times, redundancy, fps, totalFrames, keyFlags);
    keyframes := Sorted(found);
  }

  // ---------------------------------------------------------------------------
  // Properties of the candidate set

  /** A frame is a candidate iff the padded range of some interval holds it. */
  lemma {:induction false} CandidateUnion(intervals: seq<(int, int)>, redundancy: int, totalFrames: int, i: int)
    ensures i in CandidateSet(intervals, redundancy, totalFrames) <==>
      exists k :: 0 <= k < |intervals| && i in PaddedRange(intervals[k].0, intervals[k].1, redundancy, totalFrames)
    decreases |intervals|
  {
    if |intervals| > 0 {
      var n := |intervals| - 1;
      var front := intervals[..n];
      CandidateUnion(front, redundancy, totalFrames, i);
      if i in CandidateSet(front, redundancy, totalFrames) {
        var k :| 0 <= k < |front| && i in PaddedRange(front[k].0, front[k].1, redundancy, totalFrames);
        assert intervals[k] == front[k];
      }
      if exists k :: 0 <= k < |intervals| && i in PaddedRange(intervals[k].0, intervals[k].1, redundancy, totalFrames) {
        var k :| 0 <= k < |intervals| && i in PaddedRange(intervals[k].0, intervals[k].1, redundancy, totalFrames);
        if k < n {
          assert front[k] == intervals[k];
        }
      }
    }
  }

  /** Every candidate is a valid frame index: between 0 and `total_frames - 1`. */
  lemma {:induction false} CandidateBounds(intervals: seq<(int, int)>, redundancy: int, totalFrames: int, i: int)
    requires i in CandidateSet(intervals, redundancy, totalFrames)
    ensures 0 <= i <= totalFrames - 1
  {
    CandidateUnion(intervals, redundancy, totalFrames, i);
  }

  /** A video that reports no frames has no candidates. */
  lemma CandidateEmptyWithoutFrames(intervals: seq<(int, int)>, redundancy: int, totalFrames: int)
    requires totalFrames <= 0
    ensures CandidateSet(intervals, redundancy, totalFrames) == {}
  {
    forall i | i in CandidateSet(intervals, redundancy, totalFrames) ensures false {
      CandidateBounds(intervals, redundancy, totalFrames, i);
    }
  }

  /** An interval whose padded, clamped bounds cross adds no frame. */
  lemma CrossedIntervalAddsNothing(intervals: seq<(int, int)>, startFrame: int, endFrame: int,
                                   redundancy: int, totalFrames: int)
    requires Max(0, startFrame - redundancy) > Min(totalFrames - 1, endFrame + redundancy)
    ensures CandidateSet(intervals + [(startFrame, endFrame)], redundancy, totalFrames)
      == CandidateSet(intervals, redundancy, totalFrames)
  {
    var longer := intervals + [(startFrame, endFrame)];
    assert longer[..|longer| - 1] == intervals;
    assert PaddedRange(startFrame, endFrame, redundancy, totalFrames) == {};
  }

  /** More redundancy never removes a candidate. */
  lemma {:induction false} RedundancyMonotone(intervals: seq<(int, int)>, r1: int, r2: int, totalFrames: int)
    requires r1 <= r2
    ensures CandidateSet(intervals, r1, totalFrames) <= CandidateSet(intervals, r2, totalFrames)
    decreases |intervals|
  {
    if |intervals| > 0 {
      var last := intervals[|intervals| - 1];
      RedundancyMonotone(intervals[..|intervals| - 1], r1, r2, totalFrames);
      assert PaddedRange(last.0, last.1, r1, totalFrames) <= PaddedRange(last.0, last.1, r2, totalFrames);
    }
  }

  // ---------------------------------------------------------------------------
  // Properties of the returned list

  /** Every returned frame is a flagged key frame and a valid frame index. */
  lemma KeyframesInRange(times: seq<(string, string)>, redundancy: int, fps: int, totalFrames: int,
                         keyFlags: seq<bool>, x: nat)
    requires x in KeyframeList(times, redundancy, fps, totalFrames, keyFlags)
    ensures x < |keyFlags| && keyFlags[x]
    ensures x <= totalFrames - 1
  {
    assert x in SelectedKeyframes(times, redundancy, fps, totalFrames, keyFlags);
    CandidateBounds(FrameIntervals(times, fps).value, redundancy, totalFrames, x);
  }

  /** More redundancy never removes a frame from the returned list. */
  lemma KeyframesRedundancyMonotone(times: seq<(string, string)>, r1: int, r2: int, fps: int, totalFrames: int,
                                    keyFlags: seq<bool>, x: nat)
    requires r1 <= r2
    requires x in KeyframeList(times, r1, fps, totalFrames, keyFlags)
    ensures x in KeyframeList(times, r2, fps, totalFrames, keyFlags)
  {
    var intervals := FrameIntervals(times, fps).value;
    assert x in SelectedKeyframes(times, r1, fps, totalFrames, keyFlags);
    RedundancyMonotone(intervals, r1, r2, totalFrames);
    assert x in SelectedKeyframes(times, r2, fps, totalFrames, keyFlags);
  }

  /**
   * Decoding that stops after `n` frames, because the stream ended or raised,
   * returns exactly the frames below `n` of the full decode: collected frames
   * are kept.
   */
  lemma StoppedDecodeKeepsPrefix(times: seq<(string, string)>, redundancy: int, fps: int, totalFrames: int,
                                 keyFlags: seq<bool>, n: nat, x: nat)
    requires n <= |keyFlags|
    ensures x in KeyframeList(times, redundancy, fps, totalFrames, keyFlags[..n]) <==>
      x in KeyframeList(times, redundancy, fps, totalFrames, keyFlags) && x < n
  {
    assert x in SelectedKeyframes(times, redundancy, fps, totalFrames, keyFlags[..n]) <==>
      x in SelectedKeyframes(times, redundancy, fps, totalFrames, keyFlags) && x < n;
  }

  /** A subtitle interval that fails to convert empties the whole result. */
  lemma ConversionErrorEmptiesResult(times: seq<(string, string)>, redundancy: int, fps: int, totalFrames: int,
                                     keyFlags: seq<bool>, j: nat)
    requires j < |times| && FrameInterval(times[j], fps).Err?
    ensures KeyframeList(times, redundancy, fps, totalFrames, keyFlags) == []
  {
    assert !AllConvert(times, fps);
  }

  /**
   * One subtitle from 1 s to 2 s at 25 frames per second with redundancy 10
   * gives candidates 15 to 60; with a key frame every 30 frames the result is
   * frames 30 and 60.
   */
  lemma OneSubtitleExample(times: seq<(string, string)>, keyFlags: seq<bool>)
    requires times == [("00:00:01,000", "00:00:02,000")]
    requires keyFlags == seq(250, i requires 0 <= i < 250 => i % 30 == 0)
    ensures KeyframeList(times, 10, 25, 250, keyFlags) == [30, 60]
  {
    OneSubtitleIntervals(times);
    OneSubtitleSelection(keyFlags);
    assert SelectedKeyframes(times, 10, 25, 250, keyFlags) == {30, 60};
    SortedPair(30, 60);
  }

  /** Frames 15 to 60 with a key frame every 30 frames select frames 30 and 60. */
  lemma OneSubtitleSelection(keyFlags: seq<bool>)
    requires keyFlags == seq(250, i requires 0 <= i < 250 => i % 30 == 0)
    ensures (set i: nat | i < |keyFlags| && i in CandidateSet([(25, 50)], 10, 250) && keyFlags[i]) == {30, 60}
  {
    var intervals := [(25, 50)];
    assert intervals[..0] == [];
    var candidates := CandidateSet(intervals, 10, 250);
    assert candidates == IntRange(15, 60);
    var selected := set i: nat | i < |keyFlags| && i in candidates && keyFlags[i];
    forall i: nat ensures i in selected <==> i == 30 || i == 60 {
      if i in selected {
        assert 15 <= i <= 60 && i % 30 == 0;
        MultiplesOfThirty(i);
      }
      if i == 30 || i == 60 {
        assert keyFlags[i] && i in candidates;
      }
    }
  }

  /** A single subtitle interval yields a single frame interval. */
  lemma SingleIntervalFrames(time: (string, string), fps: int, startFrame: int, endFrame: int)
    requires FrameInterval(time, fps) == Ok((startFrame, endFrame))
    ensures FrameIntervals([time], fps) == Some([(startFrame, endFrame)])
  {
    assert AllConvert([time], fps);
    var r := FrameIntervals([time], fps);
    assert |r.value| == 1 && r.value[0] == (startFrame, endFrame);
    assert r.value == [(startFrame, endFrame)];
  }

  /** The subtitle from 1 s to 2 s covers frames 25 to 50 at 25 frames per second. */
  lemma OneSubtitleIntervals(times: seq<(string, string)>)
    requires times == [("00:00:01,000", "00:00:02,000")]
    ensures FrameIntervals(times, 25) == Some([(25, 50)])
  {
    OneAndTwoSeconds(times[0].0, times[0].1);
    SingleIntervalFrames(times[0], 25, 25, 50);
    assert times == [times[0]];
  }

  /** The multiples of 30 between 15 and 60. */
  lemma MultiplesOfThirty(i: nat)
    requires 15 <= i <= 60 && i % 30 == 0
    ensures i == 30 || i == 60
  {
    var q := i / 30;
    assert i == 30 * q;
    assert 0 < q <= 2;
  }

  /** Two distinct frames sort into ascending order. */
  lemma SortedPair(a: nat, b: nat)
    requires a < b
    ensures Sorted({a, b}) == [a, b]
  {
    var r := Sorted({a, b});
    assert a in r && b in r;
    assert |r| == 2 by {
      SortedLength({a, b});
    }
    assert r[0] < r[1];
  }

  /** `sorted` keeps one copy of each member. */
  lemma {:induction false} SortedLength(s: set<nat>)
    ensures |Sorted(s)| == |s|
    decreases |s|
  {
    if s != {} {
      HasLeast(s);
      var m :| IsLeast(m, s);
      assert Sorted(s) == [m] + Sorted(s - {m});
      SortedLength(s - {m});
    }
  }
}
