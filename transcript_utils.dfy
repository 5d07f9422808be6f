/** src/lib/transcript-utils.ts: reading loosely shaped caption records into
    `{text, start, duration}` segments. Two rule sets live side by side:
    `getSegmentStartTime`/`getSegmentDuration` divide a value above 10000 by
    1000, while `normalizeSegment` treats a value in (0, 10000) as seconds and
    every other value as milliseconds. */
module TranscriptUtils {
  import opened JsString
  import opened JsNumber
  import opened JsValue
  import opened Wrappers
  import opened TranscriptTypes

  /** TIME_UNIT_THRESHOLD_MS. */
  const TimeUnitThreshold: real := 10000.0
  /** SECONDS_CANDIDATE_THRESHOLD. */
  const SecondsCandidateThreshold: real := 100000.0

  /** The `??` chain of `getSegmentStartTime`, in priority order. */
  const StartKeys: seq<string> := ["startOffsetMs", "start_offset_ms", "start_ms", "startMs", "startTimeMs", "start_time_ms", "start"]
  /** The `??` chain of end times of `getSegmentDuration`. */
  const EndKeys: seq<string> := ["endOffsetMs", "end_offset_ms", "end_ms", "endMs", "endTimeMs", "end_time_ms", "end"]
  /** The chains of `normalizeSegment`: `start_time_ms` comes before `startTimeMs` here. */
  const NormStartKeys: seq<string> := ["startOffsetMs", "start_offset_ms", "start_ms", "startMs", "start_time_ms", "startTimeMs", "start"]
  const NormEndKeys: seq<string> := ["endOffsetMs", "end_offset_ms", "end_ms", "endMs", "end_time_ms", "endTimeMs", "end"]

  /** `parseTimeValue`: `undefined`, `null`, non-finite numbers and text that
      does not parse to a finite number give 0; any other value is the number
      itself or what `parseFloat` reads from its text. */
  function ParseTimeValue(v: Value): (r: real)
    ensures r != 0.0 ==> ParseFloatOf(v) == Finite(r)
    ensures IsNullish(v) ==> r == 0.0
  {
    match v
    case Undefined => 0.0
    case Null => 0.0
    case Num(n) => if n.Finite? then n.x else 0.0
    case _ =>
      var parsed := ParseFloat(ToJsString(v));
      if parsed.Finite? then parsed.x else 0.0
  }

  /** Every input gives a finite time, and non-finite or unreadable ones give 0. */
  lemma ParseTimeValueTotal(v: Value)
    ensures v.Num? && !v.n.Finite? ==> ParseTimeValue(v) == 0.0
    ensures v.Num? && v.n.Finite? ==> ParseTimeValue(v) == v.n.x
    ensures v.Str? && !ParseFloat(v.s).Finite? ==> ParseTimeValue(v) == 0.0
    ensures v.Str? && ParseFloat(v.s).Finite? ==> ParseTimeValue(v) == ParseFloat(v.s).x
  {
  }

  /** The unit rule of `getSegmentStartTime` and `getSegmentDuration`. */
  function FromMillisIfLarge(v: real): real {
    if v > TimeUnitThreshold then v / 1000.0 else v
  }

  /** The threshold is strict: exactly the values up to 10000 are kept as they are. */
  lemma FromMillisIfLargeKeeps(v: real)
    ensures FromMillisIfLarge(v) == v <==> v <= TimeUnitThreshold
  {
  }

  /** `getSegmentStartTime`. */
  function StartTime(segment: Record): (r: real)
    ensures Get(segment, "start") == Undefined && FirstDefined(segment, StartKeys) == -1 ==> r == 0.0
  {
    if Get(segment, "start") != Undefined then FromMillisIfLarge(ParseTimeValue(Get(segment, "start")))
    else
      var startValue := Coalesce(segment, StartKeys);
      CoalesceFirstDefined(segment, StartKeys);
      if startValue == Undefined then 0.0
      else FromMillisIfLarge(ParseTimeValue(startValue))
  }

  /** A defined `start` takes precedence: no other field changes the result. */
  lemma StartFieldWins(segment: Record, k: string, v: Value)
    requires Get(segment, "start") != Undefined && k != "start"
    ensures StartTime(segment[k := v]) == StartTime(segment)
    ensures StartTime(segment) == FromMillisIfLarge(ParseTimeValue(segment["start"]))
  {
    assert Get(segment[k := v], "start") == Get(segment, "start");
  }

  /** Without `start`, the first field of the chain that is not nullish wins,
      whatever its value, so a present 0 is honoured. */
  lemma StartChainFirstWins(segment: Record, i: nat)
    requires Get(segment, "start") == Undefined
    requires i < |StartKeys| && !IsNullish(Get(segment, StartKeys[i]))
    requires forall j :: 0 <= j < i ==> IsNullish(Get(segment, StartKeys[j]))
    ensures StartTime(segment) == FromMillisIfLarge(ParseTimeValue(segment[StartKeys[i]]))
  {
  }

  /** A present zero offset hides a later `start_ms`. */
  lemma StartZeroHonoured()
    ensures StartTime(map["startOffsetMs" := Num(Finite(0.0)), "start_ms" := Num(Finite(5000.0))]) == 0.0
  {
    var seg := map["startOffsetMs" := Num(Finite(0.0)), "start_ms" := Num(Finite(5000.0))];
    StartChainFirstWins(seg, 0);
  }

  /** `getSegmentDuration`. Through the end chain it is never negative. */
  function Duration(segment: Record): (r: real)
    ensures Get(segment, "duration") == Undefined && Coalesce(segment, EndKeys) != Undefined ==> r >= 0.0
  {
    if Get(segment, "duration") != Undefined then FromMillisIfLarge(ParseTimeValue(Get(segment, "duration")))
    else if Coalesce(segment, EndKeys) != Undefined then EndChainDuration(segment)
    else DurFallback(segment)
  }

  /** `Math.max(0, endTime - startTime)` with the end from the end chain. */
  function EndChainDuration(segment: Record): real {
    Max0(FromMillisIfLarge(ParseTimeValue(Coalesce(segment, EndKeys))) - StartTime(segment))
  }

  /** `dur ?? duration` with the unit rule, or 0 when both are absent. */
  function DurFallback(segment: Record): real {
    var durValue := Coalesce(segment, ["dur", "duration"]);
    if durValue != Undefined then FromMillisIfLarge(ParseTimeValue(durValue)) else 0.0
  }

  /** The three ways `getSegmentDuration` finds a duration when `duration` itself is absent. */
  lemma DurationResolution(segment: Record)
    requires Get(segment, "duration") == Undefined
    ensures Coalesce(segment, EndKeys) != Undefined ==>
              Duration(segment) == Max0(FromMillisIfLarge(ParseTimeValue(Coalesce(segment, EndKeys))) - StartTime(segment))
    ensures Coalesce(segment, EndKeys) == Undefined && Get(segment, "dur") != Undefined ==>
              Duration(segment) == FromMillisIfLarge(ParseTimeValue(segment["dur"]))
    ensures Coalesce(segment, EndKeys) == Undefined && Get(segment, "dur") == Undefined ==> Duration(segment) == 0.0
  {
    if Coalesce(segment, EndKeys) == Undefined {
      DurFallbackResolution(segment);
    } else {
      assert Duration(segment) == EndChainDuration(segment);
    }
  }

  /** Without `duration`, `dur ?? duration` is `dur`, read as 0 when nullish. */
  lemma DurFallbackResolution(segment: Record)
    requires Get(segment, "duration") == Undefined
    ensures Get(segment, "dur") != Undefined ==> DurFallback(segment) == FromMillisIfLarge(ParseTimeValue(segment["dur"]))
    ensures Get(segment, "dur") == Undefined ==> DurFallback(segment) == 0.0
  {
    var dur := Get(segment, "dur");
    if IsNullish(dur) {
      assert Coalesce(segment, ["dur", "duration"]) == Undefined;
    } else {
      assert Coalesce(segment, ["dur", "duration"]) == dur;
    }
  }

  /** A negative `duration` field passes through: only the end chain clamps at 0. */
  lemma DurationFieldNotClamped()
    ensures Duration(map["duration" := Num(Finite(-5.0))]) == -5.0
  {
  }

  /** The texts of the segments, in order. */
  function Texts(segments: seq<Segment>): (r: seq<string>)
    ensures |r| == |segments|
    ensures forall i :: 0 <= i < |segments| ==> r[i] == segments[i].text
  {
    if segments == [] then [] else [segments[0].text] + Texts(segments[1..])
  }

  /** `transcriptToText`: the texts joined by single spaces. */
  function TranscriptToText(segments: seq<Segment>): (r: string)
    ensures segments == [] ==> r == ""
    ensures |segments| == 1 ==> r == segments[0].text
  {
    Join(Texts(segments), " ")
  }

  /** Appending a segment appends a space and its text. */
  lemma TranscriptToTextSnoc(segments: seq<Segment>, s: Segment)
    ensures TranscriptToText(segments + [s]) ==
              if segments == [] then s.text else TranscriptToText(segments) + " " + s.text
  {
    assert Texts(segments + [s]) == Texts(segments) + [s.text];
    JoinSnoc(Texts(segments), " ", s.text);
  }

  // ---------------------------------------------------------------------
  // normalizeSegment

  /** `rawSegment.snippet || rawSegment`. */
  function Unwrap(rawSegment: Record): Value {
    var snippet := Get(rawSegment, "snippet");
    if Truthy(snippet) then snippet else Obj(rawSegment)
  }

  /** The rule `normalizeSegment` applies to a resolved time: a value strictly
      between 0 and 10000 is seconds, any other value (0, negative, 10000 or
      more) is milliseconds. */
  function UnitSeconds(v: real): real {
    if 0.0 < v < TimeUnitThreshold then v else v / 1000.0
  }

  /** The start, in seconds, that `normalizeSegment` gives a record. */
  function NormStart(data: Record): real {
    UnitSeconds(ParseTimeValue(Coalesce(data, NormStartKeys)))
  }

  /** The end, in seconds: the end chain, unless it is absent or reads as 0 and
      `duration ?? dur` is defined, in which case start plus that duration. */
  function NormEnd(data: Record): real {
    var endMs := ParseTimeValue(Coalesce(data, NormEndKeys));
    var durationValue := Coalesce(data, ["duration", "dur"]);
    if durationValue != Undefined && endMs == 0.0 then NormStart(data) + UnitSeconds(ParseTimeValue(durationValue))
    else UnitSeconds(endMs)
  }

  /** `String(data.text || rawSegment.text || "")`. */
  function SegmentText(data: Record, rawSegment: Record): (r: string)
    ensures Get(data, "text").Str? && Truthy(Get(data, "text")) ==> r == Get(data, "text").s
    ensures !Truthy(Get(data, "text")) && !Truthy(Get(rawSegment, "text")) ==> r == ""
  {
    var a := Get(data, "text");
    var b := Get(rawSegment, "text");
    ToJsString(if Truthy(a) then a else if Truthy(b) then b else Str(""))
  }

  /** `normalizeSegment`: null exactly when the unwrapped record is not an object;
      otherwise the text, the start by the (0, 10000) rule and the clamped duration. */
  method NormalizeSegment(rawSegment: Record) returns (r: Option<Segment>)
    ensures r.None? <==> !Unwrap(rawSegment).Obj?
    ensures r.Some? ==> r.value.text == SegmentText(Unwrap(rawSegment).fields, rawSegment)
    ensures r.Some? ==> r.value.start == NormStart(Unwrap(rawSegment).fields)
    ensures r.Some? ==> r.value.duration == Max0(NormEnd(Unwrap(rawSegment).fields) - NormStart(Unwrap(rawSegment).fields))
  {
    var dataValue := Unwrap(rawSegment);
    if !dataValue.Obj? {
      return None;
    }
    var data := dataValue.fields;
    var startValue := Coalesce(data, NormStartKeys);
    var endValue := Coalesce(data, NormEndKeys);
    var durationValue := Coalesce(data, ["duration", "dur"]);

    var startMs := ParseTimeValue(startValue);
    var endMs := ParseTimeValue(endValue);

    if startMs > 0.0 && startMs < SecondsCandidateThreshold && startValue != Undefined {
      var asSeconds := ParseFloatOf(startValue);
      if LessThan(asSeconds, TimeUnitThreshold) {
        startMs := asSeconds.x * 1000.0;
      }
    }
    if endMs > 0.0 && endMs < SecondsCandidateThreshold && endValue != Undefined {
      var asSeconds := ParseFloatOf(endValue);
      if LessThan(asSeconds, TimeUnitThreshold) {
        endMs := asSeconds.x * 1000.0;
      }
    }
    assert startMs / 1000.0 == NormStart(data);

    if durationValue != Undefined && (endMs == 0.0 || endValue == Undefined) {
      var durationMs := ParseTimeValue(durationValue);
      if durationMs > 0.0 && durationMs < SecondsCandidateThreshold {
        var asSeconds := ParseFloatOf(durationValue);
        if LessThan(asSeconds, TimeUnitThreshold) {
          endMs := startMs + asSeconds.x * 1000.0;
        } else {
          endMs := startMs + durationMs;
        }
      } else {
        endMs := startMs + durationMs;
      }
    }
    assert endMs / 1000.0 == NormEnd(data);

    var text := SegmentText(data, rawSegment);
    return Some(Segment(text, startMs / 1000.0, Max0((endMs - startMs) / 1000.0)));
  }

  /** Every resolved time `v` comes out as `v` or `v / 1000`, by range and not by field name. */
  lemma UnitSecondsRule(v: real)
    ensures UnitSeconds(v) == v <==> (0.0 < v < TimeUnitThreshold || v == 0.0)
    ensures UnitSeconds(v) == v || UnitSeconds(v) == v / 1000.0
  {
  }

  /** The `duration`/`dur` fields are consulted only when the end reads as 0:
      with a non-zero end they can be changed or removed without effect. */
  lemma DurationIgnoredWithEnd(data: Record, k: string, v: Value)
    requires ParseTimeValue(Coalesce(data, NormEndKeys)) != 0.0
    requires k !in NormStartKeys && k !in NormEndKeys
    ensures NormEnd(data[k := v]) == NormEnd(data)
  {
    var d := data[k := v];
    assert forall i :: 0 <= i < |NormStartKeys| ==> Get(d, NormStartKeys[i]) == Get(data, NormStartKeys[i]);
    assert forall i :: 0 <= i < |NormEndKeys| ==> Get(d, NormEndKeys[i]) == Get(data, NormEndKeys[i]);
    CoalesceSameFields(data, d, NormStartKeys);
    CoalesceSameFields(data, d, NormEndKeys);
  }

  /** With no end field at all, a defined duration sets end = start + the duration by the same rule. */
  lemma DurationFallback(data: Record)
    requires forall i :: 0 <= i < |NormEndKeys| ==> Get(data, NormEndKeys[i]) == Undefined
    requires Coalesce(data, ["duration", "dur"]) != Undefined
    ensures NormEnd(data) - NormStart(data) == UnitSeconds(ParseTimeValue(Coalesce(data, ["duration", "dur"])))
  {
    assert Coalesce(data, NormEndKeys) == Undefined;
  }

  /** Two records that agree on the chain's fields resolve the chain alike. */
  lemma {:induction false} CoalesceSameFields(a: Record, b: Record, keys: seq<string>)
    requires keys != []
    requires forall i :: 0 <= i < |keys| ==> Get(a, keys[i]) == Get(b, keys[i])
    ensures Coalesce(a, keys) == Coalesce(b, keys)
  {
    if |keys| > 1 && IsNullish(Get(a, keys[0])) {
      assert forall i :: 0 <= i < |keys[1..]| ==> keys[1..][i] == keys[i + 1];
      CoalesceSameFields(a, b, keys[1..]);
    }
  }

  /** A millisecond pair reading as 0 and 2000 gives start 0 and a 2000-second
      duration: 0 is read as milliseconds, 2000 as seconds. */
  lemma NormalizeMixedUnits()
    ensures NormStart(MixedPair) == 0.0
    ensures NormEnd(MixedPair) == 2000.0
  {
    MixedPairStart();
    MixedPairEnd();
  }

  /** The record of the example above. */
  const MixedPair: Record := map["start_ms" := Num(Finite(0.0)), "end_ms" := Num(Finite(2000.0))]

  /** Its start chain stops at `start_ms`. */
  lemma MixedPairStart()
    ensures Coalesce(MixedPair, NormStartKeys) == Num(Finite(0.0))
  {
    var d := MixedPair;
    assert "startOffsetMs" !in d && "start_offset_ms" !in d;
    assert Get(d, NormStartKeys[2]) == Num(Finite(0.0));
  }

  /** Its end chain stops at `end_ms`, and it has neither `duration` nor `dur`. */
  lemma MixedPairEnd()
    ensures Coalesce(MixedPair, NormEndKeys) == Num(Finite(2000.0))
    ensures Coalesce(MixedPair, ["duration", "dur"]) == Undefined
  {
    var d := MixedPair;
    assert "endOffsetMs" !in d && "end_offset_ms" !in d;
    assert Get(d, NormEndKeys[2]) == Num(Finite(2000.0));
    assert "duration" !in d && "dur" !in d;
  }
}
