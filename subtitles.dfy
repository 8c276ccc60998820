/**
 * Subtitle handling of utils/face_util.py: the SubRip time-range scan of
 * `parse_subtitles` (over the file's text) and `convert_time_to_frames`.
 */
module Subtitles {
  import opened Wrappers
  import opened Text

  // ---------------------------------------------------------------------------
  // parse_subtitles

  /** Length of one match of `\d{2}:\d{2}:\d{2},\d{3} --> \d{2}:\d{2}:\d{2},\d{3}`. */
  const MatchLength: nat := 29

  /** `\d{2}:\d{2}:\d{2},\d{3}` matching exactly the twelve characters of `t`. */
  predicate IsTimestamp(t: string) {
    && |t| == 12
    && IsAsciiDigit(t[0]) && IsAsciiDigit(t[1]) && t[2] == ':'
    && IsAsciiDigit(t[3]) && IsAsciiDigit(t[4]) && t[5] == ':'
    && IsAsciiDigit(t[6]) && IsAsciiDigit(t[7]) && t[8] == ','
    && IsAsciiDigit(t[9]) && IsAsciiDigit(t[10]) && IsAsciiDigit(t[11])
  }

  /** The time-range pattern matches `content` starting at position `p`. */
  predicate MatchAt(content: string, p: nat) {
    && p + MatchLength <= |content|
    && IsTimestamp(content[p..p + 12])
    && content[p + 12..p + 17] == " --> "
    && IsTimestamp(content[p + 17..p + MatchLength])
  }

  /**
   * Start positions of the matches `re.findall` reports when it scans from
   * `from`: leftmost first, resuming after the end of each match.
   */
  function MatchStarts(content: string, from: nat): (ps: seq<nat>)
    ensures forall k :: 0 <= k < |ps| ==> from <= ps[k] && MatchAt(content, ps[k])
    ensures forall k :: 0 <= k < |ps| - 1 ==> ps[k] + MatchLength <= ps[k + 1]
    decreases |content| - from
  {
    if from + MatchLength > |content| then []
    else if MatchAt(content, from) then [from] + MatchStarts(content, from + MatchLength)
    else MatchStarts(content, from + 1)
  }

  /**
   * `parse_subtitles` on the text of the file: the (start, end) groups of every
   * match, in document order.
   */
  function ParseSubtitles(content: string): (times: seq<(string, string)>)
    ensures var ps := MatchStarts(content, 0);
      && |times| == |ps|
      && forall k :: 0 <= k < |times| ==>
           && times[k].0 == content[ps[k]..ps[k] + 12]
           && times[k].1 == content[ps[k] + 17..ps[k] + MatchLength]
    ensures forall k :: 0 <= k < |times| ==> IsTimestamp(times[k].0) && IsTimestamp(times[k].1)
  {
    var ps := MatchStarts(content, 0);
    seq(|ps|, k requires 0 <= k < |ps| => (content[ps[k]..ps[k] + 12], content[ps[k] + 17..ps[k] + MatchLength]))
  }

  /** Some match in `ps` spans position `p`. */
  predicate Covered(ps: seq<nat>, p: nat) {
    exists k :: 0 <= k < |ps| && ps[k] <= p < ps[k] + MatchLength
  }

  /**
   * The scan is leftmost and non-overlapping: a position where the pattern
   * matches is either reported, or lies inside a reported match.
   */
  lemma {:induction false} MatchStartsLeftmost(content: string, from: nat, p: nat)
    requires from <= p && MatchAt(content, p)
    ensures Covered(MatchStarts(content, from), p)
    decreases |content| - from
  {
    var ps := MatchStarts(content, from);
    if MatchAt(content, from) {
      var rest := MatchStarts(content, from + MatchLength);
      assert ps == [from] + rest;
      if p < from + MatchLength {
        assert ps[0] <= p < ps[0] + MatchLength;
      } else {
        MatchStartsLeftmost(content, from + MatchLength, p);
        var k :| 0 <= k < |rest| && rest[k] <= p < rest[k] + MatchLength;
        assert ps[k + 1] == rest[k];
      }
    } else {
      assert from != p;
      MatchStartsLeftmost(content, from + 1, p);
    }
  }

  /** Text without any time range yields no intervals, and only such text does. */
  lemma NoMatchNoIntervals(content: string)
    ensures ParseSubtitles(content) == [] <==> forall p: nat :: !MatchAt(content, p)
  {
    if ParseSubtitles(content) == [] {
      forall p: nat ensures !MatchAt(content, p) {
        if MatchAt(content, p) {
          MatchStartsLeftmost(content, 0, p);
        }
      }
    } else {
      assert MatchAt(content, MatchStarts(content, 0)[0]);
    }
  }

  // ---------------------------------------------------------------------------
  // convert_time_to_frames

  /** The exceptions `convert_time_to_frames` can raise. */
  datatype TimeError =
    | IndexError   // no ',' in the text, so there is no milliseconds part
    | ValueError   // a part is not an integer, or there are not three ':'-separated parts

  /** `int(x)` of a float `x`: truncation toward zero. */
  function TruncDiv(a: int, b: int): (q: int)
    requires b > 0
    ensures a >= 0 ==> q == a / b
    ensures a < 0 ==> q == -((-a) / b)
  {
    if a >= 0 then a / b else -((-a) / b)
  }

  /** `int(total_seconds * fps)` with `total_seconds = totalMs / 1000` in exact arithmetic. */
  function FrameOf(totalMs: int, fps: int): int {
    TruncDiv(totalMs * fps, 1000)
  }

  /** `convert_time_to_frames(time_str, fps)`. */
  function ConvertTimeToFrames(timeStr: string, fps: int): Result<int, TimeError> {
    var timeParts := Split(timeStr, ',');
    if |timeParts| < 2 then Err(IndexError)
    else
      var milliseconds := ParseInt(timeParts[1]);
      if milliseconds.None? then Err(ValueError)
      else
        var hms := Split(timeParts[0], ':');
        if |hms| != 3 then Err(ValueError)
        else
          var h, m, s := ParseInt(hms[0]), ParseInt(hms[1]), ParseInt(hms[2]);
          if h.None? || m.None? || s.None? then Err(ValueError)
          else Ok(FrameOf(h.value * 3600000 + m.value * 60000 + s.value * 1000 + milliseconds.value, fps))
  }

  /** Elapsed milliseconds written by a well-formed `hh:mm:ss,mmm`. */
  function ElapsedMs(t: string): nat
    requires IsTimestamp(t)
  {
    DigitsValue(t[0..2]) * 3600000 + DigitsValue(t[3..5]) * 60000 + DigitsValue(t[6..8]) * 1000
      + DigitsValue(t[9..12])
  }

  /** A well-formed timestamp splits into "hh:mm:ss" and "mmm", and the former into its three fields. */
  lemma SplitTimestamp(t: string)
    requires IsTimestamp(t)
    ensures Split(t, ',') == [t[..8], t[9..]]
    ensures Split(t[..8], ':') == [t[0..2], t[3..5], t[6..8]]
  {
    var hms, ms := t[..8], t[9..];
    assert t == Join([hms, ms], ',');
    SplitOfJoin([hms, ms], ',');
    var hh, mm, ss := t[0..2], t[3..5], t[6..8];
    assert Join([hh, mm, ss], ':') == hh + [':'] + Join([mm, ss], ':');
    assert Join([mm, ss], ':') == mm + [':'] + ss;
    assert hms == hh + [':'] + (mm + [':'] + ss);
    SplitOfJoin([hh, mm, ss], ':');
  }

  /** The integers `int()` reads from the fields of a well-formed timestamp. */
  lemma TimestampFields(t: string)
    requires IsTimestamp(t)
    ensures var parts := Split(t, ',');
      && |parts| == 2
      && ParseInt(parts[1]) == Some(DigitsValue(t[9..12]))
      && var hms := Split(parts[0], ':');
      && |hms| == 3
      && ParseInt(hms[0]) == Some(DigitsValue(t[0..2]))
      && ParseInt(hms[1]) == Some(DigitsValue(t[3..5]))
      && ParseInt(hms[2]) == Some(DigitsValue(t[6..8]))
  {
    SplitTimestamp(t);
    assert t[9..] == t[9..12];
    ParseDigits(t[9..12]);
    ParseDigits(t[0..2]);
    ParseDigits(t[3..5]);
    ParseDigits(t[6..8]);
  }

  /**
   * A well-formed timestamp converts to `int(elapsed seconds * fps)`, truncated toward
   * zero; for a non-negative frame rate that is the floor, and never negative.
   */
  lemma ConvertWellFormed(t: string, fps: int)
    requires IsTimestamp(t)
    ensures ConvertTimeToFrames(t, fps) == Ok(FrameOf(ElapsedMs(t), fps))
    ensures fps >= 0 ==> FrameOf(ElapsedMs(t), fps) == ElapsedMs(t) * fps / 1000 >= 0
  {
    TimestampFields(t);
    if fps >= 0 {
      NonNegativeProduct(ElapsedMs(t), fps);
    }
  }

  lemma NonNegativeProduct(a: nat, b: nat)
    ensures a * b >= 0
  {
  }

  /** Text without a comma raises `IndexError`. */
  lemma NoCommaRaises(t: string, fps: int)
    requires ',' !in t
    ensures ConvertTimeToFrames(t, fps) == Err(IndexError)
  {
    SplitWithoutSeparator(t, ',');
  }

  /** Text whose part before the first comma is not three ':'-separated fields raises `ValueError`. */
  lemma WrongFieldCountRaises(t: string, fps: int)
    requires ',' in t
    requires |Split(Split(t, ',')[0], ':')| != 3
    ensures ConvertTimeToFrames(t, fps) == Err(ValueError)
  {
    JoinOfSplit(t, ',');
  }

  /**
   * Text with a comma and three ':'-separated fields still raises `ValueError` when
   * the milliseconds part or one of the three fields is not an integer.
   */
  lemma NonIntegerFieldRaises(t: string, fps: int)
    requires |Split(t, ',')| >= 2
    requires var hms := Split(Split(t, ',')[0], ':');
      || ParseInt(Split(t, ',')[1]).None?
      || (|hms| == 3 && (ParseInt(hms[0]).None? || ParseInt(hms[1]).None? || ParseInt(hms[2]).None?))
    ensures ConvertTimeToFrames(t, fps) == Err(ValueError)
  {
  }

  /** Letters in the hours field raise `ValueError`. */
  lemma LettersInHoursRaise(t: string, fps: int)
    requires t == "ab:00:00,000"
    ensures ConvertTimeToFrames(t, fps) == Err(ValueError)
  {
    var hms, ms := t[..8], t[9..];
    assert t == Join([hms, ms], ',');
    SplitOfJoin([hms, ms], ',');
    var hh, mm, ss := hms[0..2], hms[3..5], hms[6..8];
    assert Join([hh, mm, ss], ':') == hh + [':'] + Join([mm, ss], ':');
    assert Join([mm, ss], ':') == mm + [':'] + ss;
    assert hms == hh + [':'] + (mm + [':'] + ss);
    SplitOfJoin([hh, mm, ss], ':');
    assert TrimEnd(TrimStart(hh)) == hh;
    assert !IntShaped(hh) by {
      assert !IsAsciiDigit(hh[0]);
    }
    ParseIntRejects(hh);
    NonIntegerFieldRaises(t, fps);
  }

  /** For a non-negative frame rate, a later time never maps to an earlier frame. */
  lemma FrameOfMonotone(a: int, b: int, fps: int)
    requires a <= b && fps >= 0
    ensures FrameOf(a, fps) <= FrameOf(b, fps)
  {
    assert a * fps <= b * fps by {
      assert (b - a) * fps >= 0;
    }
  }

  /** Converting two well-formed timestamps preserves their order in time. */
  lemma ConvertMonotone(t1: string, t2: string, fps: int)
    requires IsTimestamp(t1) && IsTimestamp(t2)
    requires ElapsedMs(t1) <= ElapsedMs(t2) && fps >= 0
    ensures ConvertTimeToFrames(t1, fps).Ok? && ConvertTimeToFrames(t2, fps).Ok?
    ensures ConvertTimeToFrames(t1, fps).value <= ConvertTimeToFrames(t2, fps).value
  {
    ConvertWellFormed(t1, fps);
    ConvertWellFormed(t2, fps);
    FrameOfMonotone(ElapsedMs(t1), ElapsedMs(t2), fps);
  }

  /** At 25 frames per second, one second is frame 25 and two seconds frame 50. */
  lemma OneAndTwoSeconds(t0: string, t1: string)
    requires t0 == "00:00:01,000" && t1 == "00:00:02,000"
    ensures ConvertTimeToFrames(t0, 25) == Ok(25)
    ensures ConvertTimeToFrames(t1, 25) == Ok(50)
  {
    assert IsTimestamp(t0) && IsTimestamp(t1);
    assert ElapsedMs(t0) == 1000 by {
      assert t0[0..2] == "00" && t0[3..5] == "00" && t0[6..8] == "01" && t0[9..12] == "000";
      assert "00"[..1] == "0" && "01"[..1] == "0" && "000"[..2] == "00" && "0"[..0] == "";
    }
    assert ElapsedMs(t1) == 2000 by {
      assert t1[0..2] == "00" && t1[3..5] == "00" && t1[6..8] == "02" && t1[9..12] == "000";
      assert "00"[..1] == "0" && "02"[..1] == "0" && "000"[..2] == "00" && "0"[..0] == "";
    }
    ConvertWellFormed(t0, 25);
    ConvertWellFormed(t1, 25);
    assert FrameOf(1000, 25) == 25 && FrameOf(2000, 25) == 50;
  }
}
