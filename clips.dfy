/** The clip table of process_videos.py and the sub-clip range each entry
    asks moviepy for. */
module VideoClips {
  import opened Outcomes
  import opened ProcessVideos

  /** One entry of `CLIPS`. */
  datatype ClipConfig = ClipConfig(
    name: string,
    startTime: string,
    endTime: string,
    coverSlide: string,
    title: string)

  const Clips: seq<ClipConfig> := [
    ClipConfig("clip1_computational_modeling", "03:40:32", "03:42:47",
               "coverslide1.html", "Computational Modeling Platform"),
    ClipConfig("clip2_student_ambassadors", "03:42:58", "03:44:45",
               "coverslide2.html", "Student Ambassadors & K-12 Implementation"),
    ClipConfig("clip3_teacher_army", "03:48:36", "03:50:40",
               "coverslide3.html", "Platform Demonstration & Teacher Army")
  ]

  /** The `(start_sec, end_sec)` pair `process_clip` computes before loading
      the video: the start time is converted first, so its error is the one
      raised when both are malformed. */
  function ClipRange(clip: ClipConfig): (r: Result<(nat, nat), TimeError>)
    ensures r.Ok? <==> TimeToSeconds(clip.startTime).Ok? && TimeToSeconds(clip.endTime).Ok?
    ensures r.Ok? ==> r.value == (TimeToSeconds(clip.startTime).value, TimeToSeconds(clip.endTime).value)
    ensures TimeToSeconds(clip.startTime).Err? ==> r == Err(TimeToSeconds(clip.startTime).error)
    ensures TimeToSeconds(clip.startTime).Ok? && TimeToSeconds(clip.endTime).Err?
      ==> r == Err(TimeToSeconds(clip.endTime).error)
  {
    var startSec :- TimeToSeconds(clip.startTime);
    var endSec :- TimeToSeconds(clip.endTime);
    Ok((startSec, endSec))
  }

  /** The seconds spelled by the six digits of a time `HH:MM:SS`. */
  function ClockValue(digits: seq<char>): nat
    requires |digits| == 6 && forall k :: 0 <= k < 6 ==> IsDigit(digits[k])
  {
    (10 * DigitValue(digits[0]) + DigitValue(digits[1])) * 3600
    + (10 * DigitValue(digits[2]) + DigitValue(digits[3])) * 60
    + (10 * DigitValue(digits[4]) + DigitValue(digits[5]))
  }

  /** The string `HH:MM:SS` built from six digits. */
  function Clock(digits: seq<char>): string
    requires |digits| == 6
  {
    [digits[0], digits[1], ':', digits[2], digits[3], ':', digits[4], digits[5]]
  }

  /** A time written `HH:MM:SS` with two-digit fields converts to the
      seconds it spells. */
  lemma ClockTime(digits: seq<char>)
    requires |digits| == 6 && forall k :: 0 <= k < 6 ==> IsDigit(digits[k])
    ensures TimeToSeconds(Clock(digits)) == Ok(ClockValue(digits))
  {
    var h, m, s := digits[..2], digits[2..4], digits[4..];
    TwoDigitValue(digits[0], digits[1]);
    TwoDigitValue(digits[2], digits[3]);
    TwoDigitValue(digits[4], digits[5]);
    assert h == [digits[0], digits[1]] && m == [digits[2], digits[3]] && s == [digits[4], digits[5]];
    assert Clock(digits) == h + ":" + m + ":" + s;
    TimeOfFields(h, m, s);
  }

  /** A clip whose start and end are written `HH:MM:SS` asks for the
      range those times spell. */
  lemma ClipRangeOfClocks(clip: ClipConfig, start: seq<char>, end: seq<char>)
    requires |start| == 6 && forall k :: 0 <= k < 6 ==> IsDigit(start[k])
    requires |end| == 6 && forall k :: 0 <= k < 6 ==> IsDigit(end[k])
    requires clip.startTime == Clock(start) && clip.endTime == Clock(end)
    ensures ClipRange(clip) == Ok((ClockValue(start), ClockValue(end)))
  {
    ClockTime(start);
    ClockTime(end);
  }

  lemma FirstClipRange()
    ensures ClipRange(Clips[0]) == Ok((13232, 13367))
  {
    ClipRangeOfClocks(Clips[0], "034032", "034247");
    assert ClockValue("034032") == 13232;
    assert ClockValue("034247") == 13367;
  }

  lemma SecondClipRange()
    ensures ClipRange(Clips[1]) == Ok((13378, 13485))
  {
    ClipRangeOfClocks(Clips[1], "034258", "034445");
    assert ClockValue("034258") == 13378;
    assert ClockValue("034445") == 13485;
  }

  lemma ThirdClipRange()
    ensures ClipRange(Clips[2]) == Ok((13716, 13840))
  {
    ClipRangeOfClocks(Clips[2], "034836", "035040");
    assert ClockValue("034836") == 13716;
    assert ClockValue("035040") == 13840;
  }

  /** Every entry of `CLIPS` converts without error and asks for a
      non-empty range: its start lies strictly before its end. */
  lemma ClipRangesNonEmpty()
    ensures forall i :: 0 <= i < |Clips| ==>
      ClipRange(Clips[i]).Ok? && ClipRange(Clips[i]).value.0 < ClipRange(Clips[i]).value.1
  {
    forall i | 0 <= i < |Clips|
      ensures ClipRange(Clips[i]).Ok? && ClipRange(Clips[i]).value.0 < ClipRange(Clips[i]).value.1
    {
      if i == 0 {
        FirstClipRange();
      } else if i == 1 {
        SecondClipRange();
      } else {
        ThirdClipRange();
      }
    }
  }
}
