/** The block grouping shared by `formatTranscriptForAnalysis`
    (src/app/api/analysis/route.ts) and `formatTranscriptForChat`
    (src/app/api/chat/route.ts): segments accumulate into a run until the
    accumulated text, each segment followed by a space, is longer than the
    limit or a segment ends a sentence; each run becomes a `[M:SS] text` line. */
module TranscriptBlocks {
  import opened JsString
  import opened TranscriptTypes
  import Clock

  /** The characters of `/[。．！？.!?]$/`. */
  predicate IsSentenceEnd(c: char) {
    c == '。' || c == '．' || c == '！' || c == '？' || c == '.' || c == '!' || c == '?'
  }

  /** The text ends a sentence. */
  predicate EndsSentence(text: string) {
    text != [] && IsSentenceEnd(text[|text| - 1])
  }

  /** `currentText` after the segments of `run`: each text followed by a space. */
  function Acc(run: seq<Segment>): (r: string)
    ensures run == [] <==> r == []
  {
    if run == [] then "" else Acc(run[..|run| - 1]) + run[|run| - 1].text + " "
  }

  /** The loop closes a run after its last segment. */
  predicate ClosesAt(run: seq<Segment>, limit: nat) {
    run != [] && (|Acc(run)| > limit || EndsSentence(run[|run| - 1].text))
  }

  /** No non-empty prefix of the run, the run itself included, closes. */
  predicate NoClosingPrefix(run: seq<Segment>, limit: nat) {
    forall n {:trigger ClosesAt(run[..n], limit)} :: 1 <= n <= |run| ==> !ClosesAt(run[..n], limit)
  }

  /** The closed runs, and the run still open when the segments are used up. */
  datatype Blocks = Blocks(closed: seq<seq<Segment>>, rest: seq<Segment>)

  function Flatten(runs: seq<seq<Segment>>): seq<Segment> {
    if runs == [] then [] else runs[0] + Flatten(runs[1..])
  }

  lemma {:induction false} FlattenCons(run: seq<Segment>, runs: seq<seq<Segment>>)
    ensures Flatten([run] + runs) == run + Flatten(runs)
  {
    assert ([run] + runs)[1..] == runs;
  }

  lemma {:induction false} FlattenAppend(a: seq<seq<Segment>>, b: seq<seq<Segment>>)
    ensures Flatten(a + b) == Flatten(a) + Flatten(b)
  {
    if a == [] {
      assert a + b == b;
    } else {
      assert (a + b)[1..] == a[1..] + b;
      FlattenAppend(a[1..], b);
    }
  }

  /** A run with no closing prefix that does not close at its new segment still has none. */
  lemma OpenRunExtends(open: seq<Segment>, s: Segment, limit: nat)
    ensures NoClosingPrefix(open, limit) && !ClosesAt(open + [s], limit) ==> NoClosingPrefix(open + [s], limit)
  {
    var run := open + [s];
    assert forall n :: 1 <= n <= |open| ==> run[..n] == open[..n];
    assert run[..|run|] == run;
  }

  /** `Acc` grows by the segment's text and a space. */
  lemma AccSnoc(open: seq<Segment>, s: Segment)
    ensures Acc(open + [s]) == Acc(open) + s.text + " "
  {
    assert (open + [s])[..|open|] == open;
  }

  /** The grouping, continued from an open run whose accumulated text is
      `width` characters long: a segment joins the open run, and the run is
      closed when the text passes the limit or the segment ends a sentence. */
  function RunsFrom(open: seq<Segment>, width: nat, segments: seq<Segment>, limit: nat): Blocks
    decreases |segments|
  {
    if segments == [] then Blocks([], open)
    else
      var s := segments[0];
      var w := width + |s.text| + 1;
      if w > limit || EndsSentence(s.text) then
        var b := RunsFrom([], 0, segments[1..], limit);
        Blocks([open + [s]] + b.closed, b.rest)
      else
        RunsFrom(open + [s], w, segments[1..], limit)
  }

  /** The runs cover the open run and the remaining segments, in order. */
  lemma {:induction false} RunsFromCover(open: seq<Segment>, width: nat, segments: seq<Segment>, limit: nat)
    decreases |segments|
    ensures Flatten(RunsFrom(open, width, segments, limit).closed) + RunsFrom(open, width, segments, limit).rest == open + segments
  {
    if segments != [] {
      var s := segments[0];
      var run := open + [s];
      var w := width + |s.text| + 1;
      assert open + segments == run + segments[1..];
      if w > limit || EndsSentence(s.text) {
        var b := RunsFrom([], 0, segments[1..], limit);
        RunsFromCover([], 0, segments[1..], limit);
        FlattenCons(run, b.closed);
        assert Flatten([run] + b.closed) + b.rest == run + (Flatten(b.closed) + b.rest);
      } else {
        RunsFromCover(run, w, segments[1..], limit);
      }
    }
  }

  /** Each run is non-empty, closes at its last segment and at no earlier one. */
  predicate WellClosed(runs: seq<seq<Segment>>, limit: nat)
    decreases |runs|
  {
    runs == [] ||
    (runs[0] != [] && ClosesAt(runs[0], limit) && NoClosingPrefix(runs[0][..|runs[0]| - 1], limit) &&
     WellClosed(runs[1..], limit))
  }

  lemma {:induction false} WellClosedIndexed(runs: seq<seq<Segment>>, limit: nat)
    requires WellClosed(runs, limit)
    decreases |runs|
    ensures forall k :: 0 <= k < |runs| ==>
              runs[k] != [] && ClosesAt(runs[k], limit) && NoClosingPrefix(runs[k][..|runs[k]| - 1], limit)
  {
    if runs != [] {
      WellClosedIndexed(runs[1..], limit);
      assert forall k :: 1 <= k < |runs| ==> runs[k] == runs[1..][k - 1];
    }
  }

  /** Continued from an open run with no closing prefix, every closed run closes
      at its last segment and at no earlier one, and the final open run never closes. */
  lemma {:induction false} RunsFromClose(open: seq<Segment>, width: nat, segments: seq<Segment>, limit: nat)
    requires width == |Acc(open)| && NoClosingPrefix(open, limit)
    decreases |segments|
    ensures WellClosed(RunsFrom(open, width, segments, limit).closed, limit)
    ensures NoClosingPrefix(RunsFrom(open, width, segments, limit).rest, limit)
  {
    if segments != [] {
      var s := segments[0];
      var run := open + [s];
      var w := width + |s.text| + 1;
      AccSnoc(open, s);
      assert run[..|run| - 1] == open;
      assert ClosesAt(run, limit) <==> w > limit || EndsSentence(s.text);
      if w > limit || EndsSentence(s.text) {
        RunsFromClose([], 0, segments[1..], limit);
        var b := RunsFrom([], 0, segments[1..], limit);
        assert RunsFrom(open, width, segments, limit).closed == [run] + b.closed;
        assert ([run] + b.closed)[0] == run && ([run] + b.closed)[1..] == b.closed;
      } else {
        OpenRunExtends(open, s, limit);
        RunsFromClose(run, w, segments[1..], limit);
      }
    }
  }

  /** The grouping of a whole transcript. */
  function Runs(segments: seq<Segment>, limit: nat): Blocks {
    RunsFrom([], 0, segments, limit)
  }

  /** `[${formatTimestamp(start)}] ${text.trim()}`. */
  function Line(start: real, text: string): string {
    "[" + Clock.FormatMinSec(start) + "] " + Trim(text)
  }

  /** The line of a non-empty run: its first segment's start and its trimmed text. */
  function RunLine(run: seq<Segment>): string
    requires run != []
  {
    Line(run[0].start, Acc(run))
  }

  function RunLines(runs: seq<seq<Segment>>): (r: seq<string>)
    requires forall k :: 0 <= k < |runs| ==> runs[k] != []
    ensures |r| == |runs|
  {
    if runs == [] then [] else RunLines(runs[..|runs| - 1]) + [RunLine(runs[|runs| - 1])]
  }

  /** The lines of the grouping: one per closed run, then one for the open
      run unless its text is only whitespace. */
  function BlockLines(segments: seq<Segment>, limit: nat): (r: seq<string>)
    ensures segments == [] ==> r == []
  {
    var b := Runs(segments, limit);
    RunsFromClose([], 0, segments, limit);
    WellClosedIndexed(b.closed, limit);
    RunLines(b.closed) + (if Trim(Acc(b.rest)) != [] then [RunLine(b.rest)] else [])
  }

  lemma RunLinesSnoc(runs: seq<seq<Segment>>, run: seq<Segment>)
    requires forall k :: 0 <= k < |runs| ==> runs[k] != []
    requires run != []
    ensures RunLines(runs + [run]) == RunLines(runs) + [RunLine(run)]
  {
    assert (runs + [run])[..|runs|] == runs;
  }

  /** One step of the grouping, as the loop takes it: the grouping of the whole
      transcript is the runs closed so far followed by the grouping continued
      from the open run, of accumulated width `width`; after the segment at `i`
      has closed the open run or joined it, the same holds of the new state. */
  lemma RunsFromStep(segments: seq<Segment>, limit: nat, closed: seq<seq<Segment>>, open: seq<Segment>, width: nat, i: nat,
                     closed': seq<seq<Segment>>, open': seq<Segment>, width': nat, next: nat)
    requires i < |segments| && next == i + 1
    requires Runs(segments, limit).closed == closed + RunsFrom(open, width, segments[i..], limit).closed
    requires Runs(segments, limit).rest == RunsFrom(open, width, segments[i..], limit).rest
    requires var s := segments[i]; var w := width + |s.text| + 1;
             if w > limit || EndsSentence(s.text) then closed' == closed + [open + [s]] && open' == [] && width' == 0
             else closed' == closed && open' == open + [s] && width' == w
    ensures Runs(segments, limit).closed == closed' + RunsFrom(open', width', segments[next..], limit).closed
    ensures Runs(segments, limit).rest == RunsFrom(open', width', segments[next..], limit).rest
  {
    var s := segments[i];
    assert segments[i..][0] == s && segments[i..][1..] == segments[next..];
    var w := width + |s.text| + 1;
    if w > limit || EndsSentence(s.text) {
      var b := RunsFrom([], 0, segments[next..], limit);
      assert RunsFrom(open, width, segments[i..], limit) == Blocks([open + [s]] + b.closed, b.rest);
      assert closed + ([open + [s]] + b.closed) == (closed + [open + [s]]) + b.closed;
    }
  }

  /** What the loop knows after `i` segments: the lines of the runs closed so
      far, the open run with its accumulated text and its start, and the
      grouping of the whole transcript continued from that state. */
  ghost predicate Grouping(segments: seq<Segment>, limit: nat, i: nat, lines: seq<string>,
                           closed: seq<seq<Segment>>, open: seq<Segment>, text: string, start: real)
  {
    i <= |segments| && text == Acc(open) && (open != [] ==> start == open[0].start) &&
    (forall k :: 0 <= k < |closed| ==> closed[k] != []) && lines == RunLines(closed) &&
    Runs(segments, limit).closed == closed + RunsFrom(open, |text|, segments[i..], limit).closed &&
    Runs(segments, limit).rest == RunsFrom(open, |text|, segments[i..], limit).rest
  }

  /** One turn of the loop keeps `Grouping`: the segment's text and a space are
      appended, and the run is closed into a line when the text has passed the
      limit or the segment ends a sentence. */
  lemma GroupingStep(segments: seq<Segment>, limit: nat, i: nat, lines: seq<string>,
                     closed: seq<seq<Segment>>, open: seq<Segment>, text: string, start: real,
                     lines': seq<string>, closed': seq<seq<Segment>>, open': seq<Segment>, text': string, start': real)
    requires Grouping(segments, limit, i, lines, closed, open, text, start) && i < |segments|
    requires var s := segments[i]; var t := text + s.text + " ";
             start' == (if text == "" then s.start else start) &&
             if |t| > limit || EndsSentence(s.text) then
               lines' == lines + [Line(start', t)] && closed' == closed + [open + [s]] && open' == [] && text' == ""
             else
               lines' == lines && closed' == closed && open' == open + [s] && text' == t
    ensures Grouping(segments, limit, i + 1, lines', closed', open', text', start')
  {
    var s := segments[i];
    AccSnoc(open, s);
    var w := |text| + |s.text| + 1;
    if w > limit || EndsSentence(s.text) {
      RunLinesSnoc(closed, open + [s]);
    }
    RunsFromStep(segments, limit, closed, open, |text|, i, closed', open', |text'|, i + 1);
  }

  /** The loop of `formatTranscriptForAnalysis` and `formatTranscriptForChat`,
      with the character limit as a parameter. */
  method FormatBlocks(segments: seq<Segment>, limit: nat) returns (r: string)
    ensures r == Join(BlockLines(segments, limit), "\n")
  {
    var lines: seq<string> := [];
    var currentText := "";
    var currentStart := 0.0;
    ghost var closed: seq<seq<Segment>> := [];
    ghost var open: seq<Segment> := [];
    var i := 0;
    while i < |segments|
      invariant Grouping(segments, limit, i, lines, closed, open, currentText, currentStart)
    {
      var segment := segments[i];
      ghost var lines0, closed0, open0, text0, start0 := lines, closed, open, currentText, currentStart;
      if currentText == "" {
        currentStart := segment.start;
      }
      currentText := currentText + segment.text + " ";
      open := open + [segment];
      if |currentText| > limit || EndsSentence(segment.text) {
        lines := lines + [Line(currentStart, currentText)];
        currentText := "";
        closed := closed + [open];
        open := [];
      }
      GroupingStep(segments, limit, i, lines0, closed0, open0, text0, start0, lines, closed, open, currentText, currentStart);
      i := i + 1;
    }
    assert segments[i..] == [];
    assert Runs(segments, limit) == Blocks(closed, open);
    ghost var tail: seq<string> := if Trim(currentText) != [] then [RunLine(open)] else [];
    assert BlockLines(segments, limit) == lines + tail;
    if Trim(currentText) != "" {
      assert tail == [Line(currentStart, currentText)];
      lines := lines + [Line(currentStart, currentText)];
    }
    assert lines == BlockLines(segments, limit);
    return Join(lines, "\n");
  }

  /** Grouping loses nothing: the closed runs and the open run, in order, are the
      transcript. Every closed run closes at its last segment and at no earlier
      one, and the open run left at the end has not closed. */
  lemma RunsCover(segments: seq<Segment>, limit: nat)
    ensures Flatten(Runs(segments, limit).closed) + Runs(segments, limit).rest == segments
    ensures forall k :: 0 <= k < |Runs(segments, limit).closed| ==>
              Runs(segments, limit).closed[k] != [] && ClosesAt(Runs(segments, limit).closed[k], limit) &&
              NoClosingPrefix(Runs(segments, limit).closed[k][..|Runs(segments, limit).closed[k]| - 1], limit)
    ensures NoClosingPrefix(Runs(segments, limit).rest, limit)
  {
    RunsFromCover([], 0, segments, limit);
    RunsFromClose([], 0, segments, limit);
    WellClosedIndexed(Runs(segments, limit).closed, limit);
  }

  /** A run closes exactly at its first segment where the accumulated text
      passes the limit or a sentence ends. */
  lemma RunsCloseAtFirstChance(segments: seq<Segment>, limit: nat, k: nat, n: nat)
    requires k < |Runs(segments, limit).closed|
    requires 1 <= n <= |Runs(segments, limit).closed[k]|
    ensures ClosesAt(Runs(segments, limit).closed[k][..n], limit) <==> n == |Runs(segments, limit).closed[k]|
  {
    RunsCover(segments, limit);
    var run := Runs(segments, limit).closed[k];
    assert run[..|run|] == run;
    if n < |run| {
      assert run[..n] == run[..|run| - 1][..n];
    }
  }

  /** The open run left at the end never reached the limit nor ended a sentence;
      it yields a line only when it holds some non-whitespace text. */
  lemma FinalRunDroppedOnlyIfBlank(segments: seq<Segment>, limit: nat)
    ensures !ClosesAt(Runs(segments, limit).rest, limit) || Runs(segments, limit).rest == []
    ensures |BlockLines(segments, limit)| ==
              |Runs(segments, limit).closed| + (if Trim(Acc(Runs(segments, limit).rest)) != [] then 1 else 0)
  {
    RunsCover(segments, limit);
    var rest := Runs(segments, limit).rest;
    if rest != [] {
      assert rest[..|rest|] == rest;
    }
  }
}
