/** src/components/learn/transcript-panel.tsx: the panel's own copies of the
    timing helpers, which trust a positive `start`/`duration` as seconds, and
    the lookup of the segment playing at the current time. */
module TranscriptPanel {
  import opened JsNumber
  import opened JsValue
  import opened TranscriptTypes
  import TranscriptUtils
  import opened Sequences

  /** The panel's end chain: the same fields as transcript-utils without the bare `end`. */
  const PanelEndKeys: seq<string> := ["endOffsetMs", "end_offset_ms", "end_ms", "endMs", "endTimeMs", "end_time_ms"]

  /** A finite number above 0 (the `segment.start > 0` test on a number). */
  predicate PositiveNumber(v: Value) {
    v.Num? && v.n.Finite? && v.n.x > 0.0
  }

  /** The panel's `getSegmentStartTime`. */
  function PanelStartTime(segment: Record): (r: real)
    ensures PositiveNumber(Get(segment, "start")) ==> r == Get(segment, "start").n.x
    ensures !PositiveNumber(Get(segment, "start")) && FirstDefined(segment, TranscriptUtils.StartKeys) == -1 ==> r == 0.0
  {
    var start := Get(segment, "start");
    if start != Undefined && PositiveNumber(start) then start.n.x
    else
      var startValue := Coalesce(segment, TranscriptUtils.StartKeys);
      CoalesceFirstDefined(segment, TranscriptUtils.StartKeys);
      if startValue == Undefined then 0.0
      else
        var startMs := TranscriptUtils.ParseTimeValue(startValue);
        if startMs > 10000.0 then startMs / 1000.0 else startMs
  }

  /** Without a positive `start`, the first defined chain field gives the time by the >10000 rule. */
  lemma PanelStartChain(segment: Record, i: nat)
    requires !PositiveNumber(Get(segment, "start"))
    requires i < |TranscriptUtils.StartKeys| && !IsNullish(Get(segment, TranscriptUtils.StartKeys[i]))
    requires forall j :: 0 <= j < i ==> IsNullish(Get(segment, TranscriptUtils.StartKeys[j]))
    ensures PanelStartTime(segment) ==
              TranscriptUtils.FromMillisIfLarge(TranscriptUtils.ParseTimeValue(segment[TranscriptUtils.StartKeys[i]]))
  {
  }

  /** The panel's `getSegmentDuration`. The end chain never gives a negative duration. */
  function PanelDuration(segment: Record): (r: real)
    ensures PositiveNumber(Get(segment, "duration")) ==> r == Get(segment, "duration").n.x
    ensures !PositiveNumber(Get(segment, "duration")) && Coalesce(segment, PanelEndKeys) != Undefined ==> r >= 0.0
  {
    var duration := Get(segment, "duration");
    if duration != Undefined && PositiveNumber(duration) then duration.n.x
    else if Coalesce(segment, PanelEndKeys) != Undefined then PanelEndDuration(segment)
    else PanelDurFallback(segment)
  }

  /** `Math.max(0, endTime - startTime)` with the end from the panel's end chain. */
  function PanelEndDuration(segment: Record): real {
    var endTime := TranscriptUtils.FromMillisIfLarge(TranscriptUtils.ParseTimeValue(Coalesce(segment, PanelEndKeys)));
    Max0(endTime - PanelStartTime(segment))
  }

  /** `dur ?? duration` by the >10000 rule, or 0 when it is undefined. */
  function PanelDurFallback(segment: Record): real {
    var durValue := Coalesce(segment, ["dur", "duration"]);
    if durValue != Undefined then TranscriptUtils.FromMillisIfLarge(TranscriptUtils.ParseTimeValue(durValue)) else 0.0
  }

  /** Without a positive `duration`: an end field gives end minus start,
      clamped at 0; otherwise `dur` is read, and without it the `duration`
      field itself, so a zero, negative or textual `duration` is still read
      by the >10000 rule. */
  lemma PanelDurationResolution(segment: Record)
    requires !PositiveNumber(Get(segment, "duration"))
    ensures Coalesce(segment, PanelEndKeys) != Undefined ==>
              PanelDuration(segment) ==
              Max0(TranscriptUtils.FromMillisIfLarge(TranscriptUtils.ParseTimeValue(Coalesce(segment, PanelEndKeys))) - PanelStartTime(segment))
    ensures Coalesce(segment, PanelEndKeys) == Undefined && !IsNullish(Get(segment, "dur")) ==>
              PanelDuration(segment) == TranscriptUtils.FromMillisIfLarge(TranscriptUtils.ParseTimeValue(segment["dur"]))
    ensures Coalesce(segment, PanelEndKeys) == Undefined && IsNullish(Get(segment, "dur")) ==>
              PanelDuration(segment) == TranscriptUtils.FromMillisIfLarge(TranscriptUtils.ParseTimeValue(Get(segment, "duration")))
  {
    if Coalesce(segment, PanelEndKeys) == Undefined {
      PanelDurFallbackResolution(segment);
    } else {
      PanelDurationThroughEnd(segment);
    }
  }

  /** With an end field and no positive `duration`, the end chain decides. */
  lemma PanelDurationThroughEnd(segment: Record)
    requires !PositiveNumber(Get(segment, "duration")) && Coalesce(segment, PanelEndKeys) != Undefined
    ensures PanelDuration(segment) == PanelEndDuration(segment)
  {
  }

  /** `dur ?? duration` is `dur` unless it is nullish, and then `duration`. */
  lemma PanelDurFallbackResolution(segment: Record)
    ensures !IsNullish(Get(segment, "dur")) ==>
              PanelDurFallback(segment) == TranscriptUtils.FromMillisIfLarge(TranscriptUtils.ParseTimeValue(segment["dur"]))
    ensures IsNullish(Get(segment, "dur")) ==>
              PanelDurFallback(segment) == TranscriptUtils.FromMillisIfLarge(TranscriptUtils.ParseTimeValue(Get(segment, "duration")))
  {
    var dur := Get(segment, "dur");
    if IsNullish(dur) {
      assert Coalesce(segment, ["dur", "duration"]) == Get(segment, "duration");
    } else {
      assert Coalesce(segment, ["dur", "duration"]) == dur;
    }
  }

  /** A bare `end` is not read by the panel: with no other end field it falls
      back to `dur ?? duration`, and without those to 0. */
  lemma PanelIgnoresBareEnd()
    ensures PanelDuration(map["start" := Num(Finite(5.0)), "end" := Num(Finite(9.0))]) == 0.0
  {
    var seg := map["start" := Num(Finite(5.0)), "end" := Num(Finite(9.0))];
    assert forall i :: 0 <= i < |PanelEndKeys| ==> PanelEndKeys[i] !in seg;
    assert Coalesce(seg, PanelEndKeys) == Undefined;
    assert "dur" !in seg && "duration" !in seg;
    assert Coalesce(seg, ["dur", "duration"]) == Undefined;
  }

  /** transcript-utils reads the same bare `end`: the duration is end minus start. */
  lemma UtilsReadsBareEnd()
    ensures TranscriptUtils.Duration(map["start" := Num(Finite(5.0)), "end" := Num(Finite(9.0))]) == 4.0
  {
    var seg := map["start" := Num(Finite(5.0)), "end" := Num(Finite(9.0))];
    assert "duration" !in seg;
    BareEndChain();
    assert TranscriptUtils.StartTime(seg) == 5.0;
    TranscriptUtils.DurationResolution(seg);
  }

  /** The utils end chain of that segment stops at its last field, `end`. */
  lemma BareEndChain()
    ensures Coalesce(map["start" := Num(Finite(5.0)), "end" := Num(Finite(9.0))], TranscriptUtils.EndKeys) == Num(Finite(9.0))
  {
    var seg := map["start" := Num(Finite(5.0)), "end" := Num(Finite(9.0))];
    assert forall i :: 0 <= i < 6 ==> TranscriptUtils.EndKeys[i] !in seg;
    assert Get(seg, TranscriptUtils.EndKeys[6]) == Num(Finite(9.0));
  }

  /** The `findIndex` predicate: `start <= t < start + duration`. */
  predicate Playing(segment: Record, t: real) {
    PanelStartTime(segment) <= t < PanelStartTime(segment) + PanelDuration(segment)
  }

  /** `currentSegmentIndex`: the first segment whose half-open interval holds
      `t`, or -1. Overlaps go to the earliest segment; a gap gives -1. */
  function CurrentSegmentIndex(transcript: seq<Record>, t: real): (r: int)
    ensures -1 <= r < |transcript|
    ensures r >= 0 ==> Playing(transcript[r], t)
    ensures forall j :: 0 <= j < |transcript| && (r == -1 || j < r) ==> !Playing(transcript[j], t)
  {
    FirstIndex((segment: Record) => Playing(segment, t), transcript)
  }

  /** The panel: the empty-state message for an empty transcript, else the
      list with the index of the highlighted segment. */
  datatype PanelView = EmptyState | SegmentList(active: int)

  function View(transcript: seq<Record>, t: real): (v: PanelView)
    ensures v.EmptyState? <==> transcript == []
    ensures v.SegmentList? ==> v.active == CurrentSegmentIndex(transcript, t)
  {
    if |transcript| == 0 then EmptyState else SegmentList(CurrentSegmentIndex(transcript, t))
  }

  /** An empty transcript highlights nothing. */
  lemma EmptyTranscriptNoIndex(t: real)
    ensures CurrentSegmentIndex([], t) == -1 && View([], t) == EmptyState
  {
  }

  /** A bare `start` of 20000 reads as 20 s in transcript-utils and in
      `normalizeSegment`, but as 20000 s in the panel. */
  lemma BareStartDisagrees()
    ensures TranscriptUtils.StartTime(map["start" := Num(Finite(20000.0))]) == 20.0
    ensures PanelStartTime(map["start" := Num(Finite(20000.0))]) == 20000.0
    ensures TranscriptUtils.NormStart(map["start" := Num(Finite(20000.0))]) == 20.0
  {
    var seg := map["start" := Num(Finite(20000.0))];
    assert forall i :: 0 <= i < 6 ==> TranscriptUtils.NormStartKeys[i] !in seg;
    assert Get(seg, TranscriptUtils.NormStartKeys[6]) == Num(Finite(20000.0));
    assert Coalesce(seg, TranscriptUtils.NormStartKeys) == Num(Finite(20000.0));
  }

  /** A zero `start` with `start_ms` 3000: transcript-utils stops at the defined
      `start` and gives 0, the panel falls through to `start_ms` and gives 3000,
      and `normalizeSegment` reads 3000 as seconds too. */
  lemma ZeroStartDisagrees()
    ensures TranscriptUtils.StartTime(map["start" := Num(Finite(0.0)), "start_ms" := Num(Finite(3000.0))]) == 0.0
    ensures PanelStartTime(map["start" := Num(Finite(0.0)), "start_ms" := Num(Finite(3000.0))]) == 3000.0
    ensures TranscriptUtils.NormStart(map["start" := Num(Finite(0.0)), "start_ms" := Num(Finite(3000.0))]) == 3000.0
  {
    var seg := map["start" := Num(Finite(0.0)), "start_ms" := Num(Finite(3000.0))];
    assert "startOffsetMs" !in seg && "start_offset_ms" !in seg;
    assert Get(seg, TranscriptUtils.StartKeys[2]) == Num(Finite(3000.0));
    PanelStartChain(seg, 2);
    assert Get(seg, TranscriptUtils.NormStartKeys[2]) == Num(Finite(3000.0));
    assert Coalesce(seg, TranscriptUtils.NormStartKeys) == Num(Finite(3000.0));
  }
}
