/** src/components/learn/chat-panel.tsx: the chat side panel. Its state is the
    message list, the input box, the in-flight flag and the streamed text; a
    submit posts the trimmed input with the history, and the reply's
    `M:SS` timestamps become seek buttons. The fetch, the stream reader and
    rendering are not modelled: what they deliver is a parameter. */
module ChatPanel {
  import opened JsString
  import opened Wrappers
  import ChatRoute
  import opened Sequences

  // ---------------------------------------------------------------------
  // Timestamp tokens, /(\d{1,2}):(\d{2})/g

  /** A match with `m` minute digits starts at `i`. */
  predicate StampAt(s: string, i: nat, m: nat) {
    1 <= m <= 2 && i + m + 3 <= |s| && IsDigit(s[i]) && (m == 2 ==> IsDigit(s[i + 1])) && s[i + m] == ':' && IsDigit(s[i + m + 1]) && IsDigit(s[i + m + 2])
  }

  /** The length of the match at `i` with at most `m` minute digits, or 0:
      more minute digits are tried before fewer, as the greedy `\d{1,2}` does. */
  function MatchLength(s: string, i: nat, m: nat): (r: nat)
    requires m <= 2
    decreases m
    ensures r == 0 || (4 <= r <= m + 3 && i + r <= |s|)
  {
    if m == 0 then 0
    else if StampAt(s, i, m) then m + 3
    else MatchLength(s, i, m - 1)
  }

  /** The length of the match at `i`, or 0. */
  function StampLength(s: string, i: nat): (r: nat)
    ensures r == 0 || r == 4 || r == 5
    ensures r > 0 ==> i + r <= |s|
  {
    MatchLength(s, i, 2)
  }

  /** `StampLength` is the regular expression at one position: it finds a
      match exactly when one exists, and then the one with the most minute digits. */
  lemma StampLengthIsMatch(s: string, i: nat)
    ensures StampLength(s, i) == 0 <==> !StampAt(s, i, 1) && !StampAt(s, i, 2)
    ensures StampLength(s, i) > 0 ==> StampAt(s, i, StampLength(s, i) - 3)
    ensures StampLength(s, i) == 4 ==> !StampAt(s, i, 2)
  {
  }

  /** `timestampRegex.exec(content)` from `lastIndex = from`: the leftmost
      match position, or -1. */
  function NextStamp(s: string, from: nat): (k: int)
    decreases |s| - from
    ensures k == -1 || (from <= k && StampLength(s, k) > 0)
    ensures forall j :: from <= j && (k == -1 || j < k) ==> StampLength(s, j) == 0
  {
    if from >= |s| then -1
    else if StampLength(s, from) > 0 then from
    else NextStamp(s, from + 1)
  }

  /** A match of the expression: `match.index`, and where the match ends,
      `match.index + match[0].length`. */
  datatype Match = Match(start: nat, end: nat)

  /** The matches the `exec` loop visits from `from` on: each search resumes
      where the previous match ended. */
  function Matches(s: string, from: nat): seq<Match>
    requires from <= |s|
    decreases |s| - from
  {
    var k := NextStamp(s, from);
    if k == -1 then [] else [Match(k, k + StampLength(s, k))] + Matches(s, k + StampLength(s, k))
  }

  /** The matches lie in order, without overlap, inside `s[from..]`. */
  predicate Fits(s: string, from: nat, ms: seq<Match>)
    decreases ms
  {
    from <= |s| &&
    (ms == [] || (from <= ms[0].start && ms[0].start + 4 <= ms[0].end <= |s| && Fits(s, ms[0].end, ms[1..])))
  }

  /** A button label the expression can match: `M:SS` or `MM:SS`. */
  predicate IsStampLabel(t: string) {
    (|t| == 4 || |t| == 5) && AllDigits(t[0..|t| - 3]) && t[|t| - 3] == ':' && AllDigits(t[|t| - 2..|t|])
  }

  /** Each match's text is a button label. */
  predicate Labelled(s: string, ms: seq<Match>)
    decreases ms
  {
    ms == [] || (ms[0].start <= ms[0].end <= |s| && IsStampLabel(s[ms[0].start..ms[0].end]) && Labelled(s, ms[1..]))
  }

  /** One `exec` call further: the leftmost match, then the matches after it. */
  lemma MatchesStep(s: string, from: nat, k: nat, to: nat)
    requires from <= |s| && k == NextStamp(s, from) && to == k + StampLength(s, k)
    ensures to <= |s| && Matches(s, from) == [Match(k, to)] + Matches(s, to)
  {
  }

  lemma {:induction false} MatchesFit(s: string, from: nat)
    requires from <= |s|
    decreases |s| - from
    ensures Fits(s, from, Matches(s, from))
  {
    var k := NextStamp(s, from);
    if k != -1 {
      var len := StampLength(s, k);
      MatchesFit(s, k + len);
      ConsParts(Match(k, k + len), Matches(s, k + len));
    }
  }

  /** The text of a match is a label. */
  lemma StampLabelAt(s: string, k: nat)
    requires StampLength(s, k) > 0
    ensures IsStampLabel(s[k..k + StampLength(s, k)])
  {
    StampLengthIsMatch(s, k);
    var len := StampLength(s, k);
    var m := len - 3;
    var t := s[k..k + len];
    assert StampAt(s, k, m);
    assert t[m] == s[k + m];
    assert AllDigits(t[0..m]) by {
      forall i | 0 <= i < m
        ensures IsDigit(t[0..m][i])
      {
        assert t[0..m][i] == t[i];
        assert t[i] == s[k + i];
      }
    }
    var secs := t[len - 2..len];
    assert AllDigits(secs) by {
      forall i | 0 <= i < 2
        ensures IsDigit(secs[i])
      {
        assert secs[i] == t[m + 1 + i];
        assert t[m + 1 + i] == s[k + m + 1 + i];
      }
    }
  }

  lemma {:induction false} MatchesLabelled(s: string, from: nat)
    requires from <= |s|
    decreases |s| - from
    ensures Labelled(s, Matches(s, from))
  {
    var k := NextStamp(s, from);
    if k != -1 {
      var len := StampLength(s, k);
      MatchesLabelled(s, k + len);
      StampLabelAt(s, k);
      ConsParts(Match(k, k + len), Matches(s, k + len));
    }
  }

  /** `ms` are the leftmost, non-overlapping matches from `from` on: each
      starts at the first position after the previous one's end where the
      expression matches, ends where that match ends, and no match starts
      after the last one. */
  predicate Leftmost(s: string, from: nat, ms: seq<Match>)
    decreases ms
  {
    if ms == [] then forall j :: from <= j < |s| ==> StampLength(s, j) == 0
    else
      from <= ms[0].start && StampLength(s, ms[0].start) > 0 && ms[0].end == ms[0].start + StampLength(s, ms[0].start) &&
      (forall j :: from <= j < ms[0].start ==> StampLength(s, j) == 0) &&
      Leftmost(s, ms[0].end, ms[1..])
  }

  lemma {:induction false} MatchesLeftmost(s: string, from: nat)
    requires from <= |s|
    decreases |s| - from
    ensures Leftmost(s, from, Matches(s, from))
  {
    var k := NextStamp(s, from);
    if k != -1 {
      var to := k + StampLength(s, k);
      MatchesStep(s, from, k, to);
      MatchesLeftmost(s, to);
      ConsParts(Match(k, to), Matches(s, to));
    }
  }

  /** The leftmost matches are unique: any sequence of them is the one the loop visits. */
  lemma {:induction false} LeftmostIsMatches(s: string, from: nat, ms: seq<Match>)
    requires from <= |s| && Leftmost(s, from, ms)
    decreases ms
    ensures ms == Matches(s, from)
  {
    var k := NextStamp(s, from);
    if ms == [] {
      assert k == -1;
    } else {
      assert k == ms[0].start;
      var to := k + StampLength(s, k);
      MatchesStep(s, from, k, to);
      LeftmostIsMatches(s, to, ms[1..]);
    }
  }

  /** A piece of a rendered message: plain text, or a seek button showing a match. */
  datatype Piece = Text(text: string) | Stamp(stampText: string)

  /** The time a button seeks to: `parseInt(match[1], 10) * 60 + parseInt(match[2], 10)`
      on its label; the seconds are not range-checked. */
  function SeekTime(t: string): nat
    requires IsStampLabel(t)
  {
    DigitsValue(t[0..|t| - 3]) * 60 + DigitsValue(t[|t| - 2..|t|])
  }

  /** The text piece for `s[a..b]`, or none when it is empty. */
  function TextBetween(s: string, a: nat, b: nat): seq<Piece>
    requires a <= b <= |s|
  {
    if b > a then [Text(s[a..b])] else []
  }

  /** The pieces for the matches `ms` from `from` on: the text before each
      match, unless empty, then its button; the text after the last match,
      unless empty. */
  function PiecesOf(s: string, from: nat, ms: seq<Match>): seq<Piece>
    requires Fits(s, from, ms)
    decreases ms
  {
    if ms == [] then (if from < |s| then [Text(s[from..])] else [])
    else
      var m := ms[0];
      TextBetween(s, from, m.start) + [Stamp(s[m.start..m.end])] + PiecesOf(s, m.end, ms[1..])
  }

  /** The pieces `renderMessageContent` pushes, starting at `from`. */
  function PiecesFrom(s: string, from: nat): seq<Piece>
    requires from <= |s|
  {
    MatchesFit(s, from);
    PiecesOf(s, from, Matches(s, from))
  }

  /** The pieces for a first match and the matches after it. */
  lemma PiecesOfCons(s: string, from: nat, m: Match, rest: seq<Match>)
    requires Fits(s, from, [m] + rest)
    ensures from <= m.start <= m.end <= |s| && Fits(s, m.end, rest)
    ensures PiecesOf(s, from, [m] + rest) == TextBetween(s, from, m.start) + [Stamp(s[m.start..m.end])] + PiecesOf(s, m.end, rest)
  {
    ConsParts(m, rest);
  }

  /** One match further: the text before the leftmost match, its button, and
      the pieces after it. */
  lemma PiecesFromStep(s: string, from: nat, k: nat, to: nat)
    requires from <= |s| && k == NextStamp(s, from) && to == k + StampLength(s, k)
    ensures from <= k <= to <= |s|
    ensures PiecesFrom(s, from) == TextBetween(s, from, k) + [Stamp(s[k..to])] + PiecesFrom(s, to)
  {
    MatchesStep(s, from, k, to);
    MatchesFit(s, from);
    PiecesOfCons(s, from, Match(k, to), Matches(s, to));
  }

  /** The loop step of `renderMessageContent`: the pieces emitted so far,
      then those of one more match, then the pieces after it, are still all
      the pieces. */
  lemma PiecesFromAdvance(s: string, from: nat, k: nat, to: nat, done: seq<Piece>, next: seq<Piece>, whole: seq<Piece>)
    requires from <= |s| && k == NextStamp(s, from) && to == k + StampLength(s, k)
    requires done + PiecesFrom(s, from) == whole
    requires from <= k <= to <= |s| && next == done + TextBetween(s, from, k) + [Stamp(s[k..to])]
    ensures next + PiecesFrom(s, to) == whole
  {
    PiecesFromStep(s, from, k, to);
    Regroup(done, PiecesFrom(s, from), TextBetween(s, from, k), Stamp(s[k..to]), PiecesFrom(s, to), whole, next);
  }

  /** The value `renderMessageContent` returns: the pieces, or the content
      itself when there are none. */
  datatype Rendered = Pieces(pieces: seq<Piece>) | Plain(content: string)

  function Render(content: string): Rendered {
    var pieces := PiecesFrom(content, 0);
    if pieces == [] then Plain(content) else Pieces(pieces)
  }

  /** `renderMessageContent`. */
  method RenderMessageContent(content: string) returns (r: Rendered)
    ensures r == Render(content)
  {
    var result: seq<Piece> := [];
    var lastIndex := 0;
    var k := NextStamp(content, lastIndex);
    while k != -1
      invariant lastIndex <= |content|
      invariant k == NextStamp(content, lastIndex)
      invariant result + PiecesFrom(content, lastIndex) == PiecesFrom(content, 0)
      decreases |content| - lastIndex
    {
      var end := k + StampLength(content, k);
      ghost var before, from := result, lastIndex;
      if k > lastIndex {
        result := result + [Text(content[lastIndex..k])];
      }
      result := result + [Stamp(content[k..end])];
      PiecesFromAdvance(content, from, k, end, before, result, PiecesFrom(content, 0));
      lastIndex := end;
      k := NextStamp(content, lastIndex);
    }
    if lastIndex < |content| {
      result := result + [Text(content[lastIndex..])];
    }
    assert result == PiecesFrom(content, 0);
    r := if |result| > 0 then Pieces(result) else Plain(content);
  }

  /** The characters a piece shows. */
  function Shown(p: Piece): string {
    match p
    case Text(text) => text
    case Stamp(stampText) => stampText
  }

  function ShownAll(ps: seq<Piece>): string {
    if ps == [] then "" else Shown(ps[0]) + ShownAll(ps[1..])
  }

  lemma {:induction false} ShownAllAppend(a: seq<Piece>, b: seq<Piece>)
    ensures ShownAll(a + b) == ShownAll(a) + ShownAll(b)
  {
    if a == [] {
      assert a + b == b;
    } else {
      assert (a + b)[1..] == a[1..] + b;
      ShownAllAppend(a[1..], b);
    }
  }

  /** Rendering loses nothing: the pieces shown in order are the content from `from` on. */
  lemma {:induction false} PiecesOfShown(s: string, from: nat, ms: seq<Match>)
    requires Fits(s, from, ms)
    decreases ms
    ensures ShownAll(PiecesOf(s, from, ms)) == s[from..]
  {
    if ms == [] {
      if from < |s| {
        assert ShownAll([Text(s[from..])]) == s[from..];
      }
    } else {
      var m := ms[0];
      var end := m.end;
      var head := TextBetween(s, from, m.start);
      var stamp := Stamp(s[m.start..end]);
      var tail := PiecesOf(s, end, ms[1..]);
      PiecesOfShown(s, end, ms[1..]);
      ShownAllAppend(head + [stamp], tail);
      ShownAllAppend(head, [stamp]);
      assert ShownAll([stamp]) == s[m.start..end];
      assert ShownAll(head) == s[from..m.start];
      SplitSuffix(s, from, m.start, end);
      calc {
        ShownAll(PiecesOf(s, from, ms));
        ShownAll(head + [stamp] + tail);
        ShownAll(head + [stamp]) + ShownAll(tail);
        ShownAll(head) + ShownAll([stamp]) + ShownAll(tail);
        s[from..m.start] + s[m.start..end] + s[end..];
        s[from..];
      }
    }
  }

  /** A piece as the renderer emits it: a text piece is never empty, and a
      button's label is an `M:SS` or `MM:SS` timestamp. */
  predicate WellFormedPiece(p: Piece) {
    match p
    case Text(text) => text != []
    case Stamp(t) => IsStampLabel(t)
  }

  predicate AllWellFormed(ps: seq<Piece>) {
    ps == [] || (WellFormedPiece(ps[0]) && AllWellFormed(ps[1..]))
  }

  lemma {:induction false} AllWellFormedAppend(a: seq<Piece>, b: seq<Piece>)
    requires AllWellFormed(a) && AllWellFormed(b)
    ensures AllWellFormed(a + b)
  {
    if a == [] {
      assert a + b == b;
    } else {
      assert (a + b)[1..] == a[1..] + b;
      AllWellFormedAppend(a[1..], b);
    }
  }

  lemma {:induction false} PiecesOfWellFormed(s: string, from: nat, ms: seq<Match>)
    requires Fits(s, from, ms) && Labelled(s, ms)
    decreases ms
    ensures AllWellFormed(PiecesOf(s, from, ms))
  {
    if ms != [] {
      var m := ms[0];
      var end := m.end;
      PiecesOfWellFormed(s, end, ms[1..]);
      var head := TextBetween(s, from, m.start);
      var stamp := Stamp(s[m.start..end]);
      AllWellFormedAppend(head, [stamp]);
      AllWellFormedAppend(head + [stamp], PiecesOf(s, end, ms[1..]));
    }
  }

  /** The rendered value shows exactly the content, it is the content itself
      only when the content is empty, and every piece is well formed, so each
      button has a seek time. */
  lemma RenderShowsContent(content: string)
    ensures Render(content).Plain? <==> content == []
    ensures Render(content).Pieces? ==> ShownAll(Render(content).pieces) == content
    ensures Render(content).Pieces? ==> AllWellFormed(Render(content).pieces)
  {
    MatchesFit(content, 0);
    MatchesLabelled(content, 0);
    PiecesOfShown(content, 0, Matches(content, 0));
    PiecesOfWellFormed(content, 0, Matches(content, 0));
    assert content[0..] == content;
  }

  /** Content without any timestamp is one text piece. */
  lemma NoStampOnePiece(content: string)
    requires content != []
    requires forall j :: 0 <= j < |content| ==> StampLength(content, j) == 0
    ensures Render(content) == Pieces([Text(content)])
  {
    assert NextStamp(content, 0) == -1;
    assert content[0..] == content;
  }

  /** "1:75" seeks to 135 seconds: the seconds field is not checked against 60. */
  lemma SecondsNotRangeChecked()
    ensures Render("1:75") == Pieces([Stamp("1:75")])
    ensures IsStampLabel("1:75") && SeekTime("1:75") == 135
  {
    var s := "1:75";
    assert StampLength(s, 0) == 4;
    assert NextStamp(s, 0) == 0;
    assert s[0..4] == s;
    assert Matches(s, 4) == [];
    assert Matches(s, 0) == [Match(0, 4)];
    assert PiecesOf(s, 4, []) == [];
    assert s[0..1] == "1" && s[2..4] == "75";
    assert DigitsValue("1") == 1;
    assert DigitsValue("75") == 75 by {
      assert "75"[..1] == "7";
    }
  }

  /** "123:45" is matched at its second digit: three digits are not minutes. */
  lemma LeftmostMatchSkipsThirdDigit()
    ensures Render("123:45") == Pieces([Text("1"), Stamp("23:45")])
    ensures IsStampLabel("23:45") && SeekTime("23:45") == 1425
  {
    var s := "123:45";
    assert StampLength(s, 0) == 0;
    assert StampLength(s, 1) == 5;
    assert NextStamp(s, 0) == 1;
    assert NextStamp(s, 6) == -1;
    assert Matches(s, 0) == [Match(1, 6)];
    assert PiecesOf(s, 6, []) == [];
    assert s[0..1] == "1" && s[1..6] == "23:45";
    var t := "23:45";
    assert t[0..2] == "23" && t[3..5] == "45";
    assert DigitsValue("23") == 23 by {
      assert "23"[..1] == "2";
    }
    assert DigitsValue("45") == 45 by {
      assert "45"[..1] == "4";
    }
  }

  // ---------------------------------------------------------------------
  // Panel state

  /** A message as the panel keeps it. */
  datatype Message = Message(id: string, role: ChatRoute.Role, content: string)

  /** `getChatHistory`: the messages without their ids, in order. */
  function ChatHistory(messages: seq<Message>): (r: seq<ChatRoute.ChatMessage>)
    ensures |r| == |messages|
    ensures forall i :: 0 <= i < |r| ==> r[i].role == messages[i].role && r[i].content == messages[i].content
  {
    if messages == [] then []
    else
      var last := messages[|messages| - 1];
      ChatHistory(messages[..|messages| - 1]) + [ChatRoute.ChatMessage(last.role, last.content)]
  }

  /** The submit guard: some non-whitespace input and no request in flight. */
  predicate CanSubmit(input: string, isLoading: bool) {
    Trim(input) != [] && !isLoading
  }

  /** The text shown when a request fails with something other than an `Error`. */
  const GenericFailure: string := "エラーが発生しました。もう一度お試しください。"

  /** The error thrown for a non-OK response: its `error` field, or a fixed text. */
  function ResponseFailure(errorField: Option<string>): string {
    if errorField.Some? && errorField.value != [] then errorField.value else "チャットに失敗しました"
  }

  class Panel {
    const videoId: string
    var messages: seq<Message>
    var input: string
    var isLoading: bool
    var streamingContent: string

    constructor (videoId: string)
      ensures this.videoId == videoId
      ensures messages == [] && input == "" && !isLoading && streamingContent == ""
    {
      this.videoId := videoId;
      messages := [];
      input := "";
      isLoading := false;
      streamingContent := "";
    }

    /** `handleSubmit` up to the request: the body it posts, or nothing when
        the guard refuses. The history is read before the new message is added. */
    method Submit(now: nat) returns (request: Option<ChatRoute.ChatRequest>)
      modifies this
      ensures !CanSubmit(old(input), old(isLoading)) ==>
                request.None? && messages == old(messages) && input == old(input) &&
                isLoading == old(isLoading) && streamingContent == old(streamingContent)
      ensures CanSubmit(old(input), old(isLoading)) ==>
                request == Some(ChatRoute.ChatRequest(Some(videoId), Some(Trim(old(input))), Some(ChatHistory(old(messages))))) &&
                messages == old(messages) + [Message("user-" + IntToString(now), ChatRoute.User, Trim(old(input)))] &&
                input == "" && isLoading && streamingContent == ""
    {
      if Trim(input) == "" || isLoading {
        return None;
      }
      var userMessage := Message("user-" + IntToString(now), ChatRoute.User, Trim(input));
      var history := ChatHistory(messages);
      messages := messages + [userMessage];
      input := "";
      isLoading := true;
      streamingContent := "";
      request := Some(ChatRoute.ChatRequest(Some(videoId), Some(userMessage.content), Some(history)));
    }

    /** The stream ended: a non-empty reply is added as an assistant message,
        then the `finally` block clears the in-flight state. */
    method CompleteStream(accumulated: string, now: nat)
      modifies this
      ensures messages == old(messages) +
                (if accumulated != [] then [Message("assistant-" + IntToString(now), ChatRoute.Assistant, accumulated)] else [])
      ensures input == old(input) && !isLoading && streamingContent == ""
    {
      if accumulated != "" {
        messages := messages + [Message("assistant-" + IntToString(now), ChatRoute.Assistant, accumulated)];
      }
      isLoading := false;
      streamingContent := "";
    }

    /** The request failed: an `AbortError` adds nothing, another `Error` adds
        its message, anything else adds the generic text; the `finally` block
        runs in every case. */
    method FailRequest(aborted: bool, errorMessage: Option<string>, now: nat)
      modifies this
      ensures aborted ==> messages == old(messages)
      ensures !aborted ==>
                messages == old(messages) + [Message("error-" + IntToString(now), ChatRoute.Assistant,
                                                     if errorMessage.Some? then errorMessage.value else GenericFailure)]
      ensures input == old(input) && !isLoading && streamingContent == ""
    {
      if !aborted {
        var content := if errorMessage.Some? then errorMessage.value else GenericFailure;
        messages := messages + [Message("error-" + IntToString(now), ChatRoute.Assistant, content)];
      }
      isLoading := false;
      streamingContent := "";
    }

    /** A non-OK response: the `Error` thrown with the body's `error` text,
        or the fixed text, is caught and shown as an assistant message. */
    method RejectResponse(errorField: Option<string>, now: nat)
      modifies this
      ensures messages == old(messages) + [Message("error-" + IntToString(now), ChatRoute.Assistant, ResponseFailure(errorField))]
      ensures input == old(input) && !isLoading && streamingContent == ""
    {
      FailRequest(false, Some(ResponseFailure(errorField)), now);
    }
  }

  /** The server hands the model the panel's history after the submit: the
      history sent followed by the new user message. */
  lemma SubmitReachesModel(videoId: string, messages: seq<Message>, input: string, now: nat)
    requires videoId != [] && Trim(input) != []
    ensures ChatRoute.ChatMessages(ChatRoute.ChatRequest(Some(videoId), Some(Trim(input)), Some(ChatHistory(messages))))
            == Ok(ChatHistory(messages + [Message("user-" + IntToString(now), ChatRoute.User, Trim(input))]))
  {
    var m := Message("user-" + IntToString(now), ChatRoute.User, Trim(input));
    assert (messages + [m])[..|messages|] == messages;
  }
}
