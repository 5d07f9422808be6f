/** src/lib/transcript.ts: assembling a transcript from the two sources the
    application tries. The Innertube transcript panel gives snippet records in
    milliseconds; the fallback fetches a caption track's XML and reads
    `<text start=".." dur="..">..</text>` elements with a regular expression.
    Network calls are not modelled: what they return is a parameter. */
module TranscriptFetch {
  import opened JsString
  import opened JsNumber
  import opened JsValue
  import opened Wrappers
  import opened TranscriptTypes
  import TranscriptUtils
  import opened Sequences

  // ---------------------------------------------------------------------
  // Innertube snippets

  /** The `filter` predicate: a non-null object with a `snippet` property. */
  predicate HasSnippet(segment: Value) {
    segment.Obj? && "snippet" in segment.fields
  }

  /** The segments the filter keeps, in order. */
  function Kept(segments: seq<Value>): (r: seq<Value>)
    ensures |r| <= |segments|
    ensures forall i :: 0 <= i < |r| ==> HasSnippet(r[i])
    ensures forall i :: 0 <= i < |segments| && HasSnippet(segments[i]) ==> segments[i] in r
    ensures forall x :: x in r ==> x in segments
  {
    if segments == [] then []
    else
      var rest := Kept(segments[1..]);
      assert forall i :: 1 <= i < |segments| ==> segments[i] == segments[1..][i - 1];
      if HasSnippet(segments[0]) then [segments[0]] + rest else rest
  }

  /** The filter keeps order: filtering a concatenation filters each part. */
  lemma {:induction false} KeptAppend(a: seq<Value>, b: seq<Value>)
    ensures Kept(a + b) == Kept(a) + Kept(b)
  {
    if a == [] {
      assert a + b == b;
    } else {
      assert (a + b)[1..] == a[1..] + b;
      KeptAppend(a[1..], b);
    }
  }

  /** `snippet.x ?? snippet.y ?? … ?? 0`. */
  function ChainOrZero(snippet: Record, keys: seq<string>): (v: Value)
    requires keys != []
    ensures !IsNullish(v)
    ensures FirstDefined(snippet, keys) == -1 ==> v == Num(Finite(0.0))
    ensures FirstDefined(snippet, keys) >= 0 ==> v == snippet[keys[FirstDefined(snippet, keys)]]
  {
    CoalesceFirstDefined(snippet, keys);
    var v := Coalesce(snippet, keys);
    if IsNullish(v) then Num(Finite(0.0)) else v
  }

  const SnippetStartKeys: seq<string> := ["start_ms", "startMs", "start_time_ms", "startTimeMs"]
  const SnippetEndKeys: seq<string> := ["end_ms", "endMs", "end_time_ms", "endTimeMs"]

  /** The properties of a snippet value: an object's own, none for any other
      non-nullish value, and a TypeError for `null`/`undefined`. */
  function SnippetFields(snippet: Value): (r: Option<Record>)
    ensures r.None? <==> IsNullish(snippet)
  {
    match snippet
    case Obj(fields) => Some(fields)
    case Undefined => None
    case Null => None
    case _ => Some(map[])
  }

  /** The milliseconds a chain gives: its first field that is not nullish,
      read by `parseTimeValue`, or 0 when every field is nullish. */
  function ChainMillis(snippet: Record, keys: seq<string>): real {
    var i := FirstDefined(snippet, keys);
    if i == -1 then 0.0 else TranscriptUtils.ParseTimeValue(snippet[keys[i]])
  }

  /** One snippet as a segment: milliseconds divided by 1000, the duration clamped at 0, `text || ""`. */
  function SnippetSegment(snippet: Record): (s: Segment)
    ensures s.start == ChainMillis(snippet, SnippetStartKeys) / 1000.0
    ensures s.duration == Max0((ChainMillis(snippet, SnippetEndKeys) - ChainMillis(snippet, SnippetStartKeys)) / 1000.0)
    ensures s.duration >= 0.0
    ensures s.duration == 0.0 <==> ChainMillis(snippet, SnippetEndKeys) <= ChainMillis(snippet, SnippetStartKeys)
    ensures Truthy(Get(snippet, "text")) ==> s.text == ToJsString(snippet["text"])
    ensures !Truthy(Get(snippet, "text")) ==> s.text == ""
  {
    var startMs := TranscriptUtils.ParseTimeValue(ChainOrZero(snippet, SnippetStartKeys));
    var endMs := TranscriptUtils.ParseTimeValue(ChainOrZero(snippet, SnippetEndKeys));
    var text := Get(snippet, "text");
    Segment(if Truthy(text) then ToJsString(text) else "", startMs / 1000.0, Max0((endMs - startMs) / 1000.0))
  }

  /** `segment.snippet` of a kept segment. */
  function SnippetOf(segment: Value): Value {
    if segment.Obj? then Get(segment.fields, "snippet") else Undefined
  }

  /** The snippets the `map` reads, in order; a kept segment whose snippet is
      nullish makes the property reads throw. */
  function SnippetRecords(kept: seq<Value>): (r: Result<seq<Record>, string>)
    ensures r.Ok? <==> forall i :: 0 <= i < |kept| ==> !IsNullish(SnippetOf(kept[i]))
    ensures r.Ok? ==> |r.value| == |kept|
    ensures r.Ok? ==> forall i :: 0 <= i < |kept| ==> SnippetFields(SnippetOf(kept[i])) == Some(r.value[i])
  {
    if kept == [] then Ok([])
    else
      var fields := SnippetFields(SnippetOf(kept[0]));
      var rest := SnippetRecords(kept[1..]);
      assert forall i :: 1 <= i < |kept| ==> kept[i] == kept[1..][i - 1];
      if fields.None? then Err("TypeError")
      else if rest.Err? then rest
      else
        var records := [fields.value] + rest.value;
        assert forall i :: 1 <= i < |kept| ==> records[i] == rest.value[i - 1];
        Ok(records)
  }

  /** `getTranscriptFromInnertube` once `initial_segments` is known (missing
      reads as empty): the kept segments' snippets, each made a segment. */
  function InnertubeSegments(initial: seq<Value>): (r: Result<seq<Segment>, string>)
    ensures initial == [] ==> r == Err("No transcript segments found")
    ensures initial != [] ==> (r.Ok? <==> SnippetRecords(Kept(initial)).Ok?)
    ensures r.Ok? ==> |r.value| == |Kept(initial)| <= |initial|
    ensures r.Ok? ==> forall i :: 0 <= i < |r.value| ==>
              r.value[i] == SnippetSegment(SnippetFields(SnippetOf(Kept(initial)[i])).value)
    ensures r.Ok? ==> forall i :: 0 <= i < |r.value| ==> r.value[i].duration >= 0.0
  {
    if initial == [] then Err("No transcript segments found")
    else
      var records := SnippetRecords(Kept(initial));
      if records.Err? then Err(records.error)
      else Ok(seq(|records.value|, i requires 0 <= i < |records.value| => SnippetSegment(records.value[i])))
  }

  /** Every snippet without any start or end field gives a zero-length segment at 0. */
  lemma SnippetWithoutTimes(snippet: Record)
    requires forall i :: 0 <= i < |SnippetStartKeys| ==> SnippetStartKeys[i] !in snippet
    requires forall i :: 0 <= i < |SnippetEndKeys| ==> SnippetEndKeys[i] !in snippet
    ensures SnippetSegment(snippet).start == 0.0 && SnippetSegment(snippet).duration == 0.0
  {
    assert FirstDefined(snippet, SnippetStartKeys) == -1;
    assert FirstDefined(snippet, SnippetEndKeys) == -1;
  }

  // ---------------------------------------------------------------------
  // Caption tracks

  datatype CaptionTrack = CaptionTrack(languageCode: string, baseUrl: Option<string>)

  /** The first track whose language is "ja", if any. */
  function FindJapanese(tracks: seq<CaptionTrack>): (r: Option<nat>)
    ensures r.Some? ==> r.value < |tracks| && tracks[r.value].languageCode == "ja"
    ensures r.Some? ==> forall j :: 0 <= j < r.value ==> tracks[j].languageCode != "ja"
    ensures r.None? ==> forall j :: 0 <= j < |tracks| ==> tracks[j].languageCode != "ja"
  {
    if tracks == [] then None
    else if tracks[0].languageCode == "ja" then Some(0)
    else
      var k := FindJapanese(tracks[1..]);
      assert forall j :: 1 <= j < |tracks| ==> tracks[j] == tracks[1..][j - 1];
      if k.None? then None else Some(k.value + 1)
  }

  /** The URL to fetch: of the first Japanese track, else of the first track.
      No tracks, and a chosen track without a non-empty `base_url`, are errors. */
  function ChooseTrackUrl(tracks: seq<CaptionTrack>): (r: Result<string, string>)
    ensures tracks == [] ==> r == Err("No caption tracks available")
    ensures r.Ok? ==> r.value != [] && exists i :: 0 <= i < |tracks| && tracks[i].baseUrl == Some(r.value)
    ensures tracks != [] && FindJapanese(tracks).None? ==>
              r == (if tracks[0].baseUrl.Some? && tracks[0].baseUrl.value != [] then Ok(tracks[0].baseUrl.value)
                    else Err("Caption track has no base_url"))
    ensures FindJapanese(tracks).Some? ==>
              var t := tracks[FindJapanese(tracks).value];
              r == (if t.baseUrl.Some? && t.baseUrl.value != [] then Ok(t.baseUrl.value) else Err("Caption track has no base_url"))
  {
    if tracks == [] then Err("No caption tracks available")
    else
      var ja := FindJapanese(tracks);
      var track := if ja.Some? then tracks[ja.value] else tracks[0];
      if track.baseUrl.None? || track.baseUrl.value == [] then Err("Caption track has no base_url")
      else Ok(track.baseUrl.value)
  }

  /** A Japanese track wins over an earlier track in another language. */
  lemma JapanesePreferred()
    ensures ChooseTrackUrl([CaptionTrack("en", Some("E")), CaptionTrack("ja", Some("J"))]) == Ok("J")
  {
    var tracks := [CaptionTrack("en", Some("E")), CaptionTrack("ja", Some("J"))];
    assert FindJapanese(tracks[1..]) == Some(0);
  }

  /** One match of `<text start="([^"]+)" dur="([^"]+)"[^>]*>([^<]*)<\/text>`:
      the three groups and the index just past the match. */
  datatype XmlMatch = XmlMatch(start: string, dur: string, body: string, end: nat)

  const OpenTag: string := "<text start=\""
  const DurAttr: string := "\" dur=\""
  const CloseTag: string := "</text>"

  /** The match of the pattern that starts at `p`, if any. Each group stops at
      the first character it excludes, so there is at most one. */
  function MatchAt(s: string, p: nat): (r: Option<XmlMatch>)
    ensures r.Some? ==> p < r.value.end <= |s|
    ensures r.Some? ==> OccursAt(s, p, OpenTag)
    ensures r.Some? ==> r.value.start != [] && '"' !in r.value.start && r.value.dur != [] && '"' !in r.value.dur
    ensures r.Some? ==> '<' !in r.value.body
  {
    if !OccursAt(s, p, OpenTag) then None
    else
      var a := p + |OpenTag|;
      var q1 := SkipUntil(s, a, '"');
      if q1 == a || !OccursAt(s, q1, DurAttr) then None
      else
        var b := q1 + |DurAttr|;
        var q2 := SkipUntil(s, b, '"');
        if q2 == b || q2 == |s| then None
        else
          var g := SkipUntil(s, q2 + 1, '>');
          if g == |s| then None
          else
            var h := SkipUntil(s, g + 1, '<');
            if !OccursAt(s, h, CloseTag) then None
            else
              Some(XmlMatch(s[a..q1], s[b..q2], s[g + 1..h], h + |CloseTag|))
  }

  /** `regex.exec` with the global flag: the leftmost match at or after `from`, with its position. */
  function NextMatch(s: string, from: nat): (r: Option<(nat, XmlMatch)>)
    decreases |s| - from
    ensures r.Some? ==> from <= r.value.0 && MatchAt(s, r.value.0) == Some(r.value.1)
    ensures r.Some? ==> forall p :: from <= p < r.value.0 ==> MatchAt(s, p).None?
    ensures r.None? ==> forall p :: from <= p ==> MatchAt(s, p).None?
  {
    if from >= |s| then None
    else
      var m := MatchAt(s, from);
      if m.Some? then Some((from, m.value)) else NextMatch(s, from + 1)
  }

  /** The successive matches `exec` finds from `from` on. */
  function Matches(s: string, from: nat): seq<XmlMatch>
    decreases |s| - from
  {
    var r := NextMatch(s, from);
    if r.None? then []
    else [r.value.1] + Matches(s, r.value.1.end)
  }

  /** The entity decoding: `&amp;` first, then `&lt;`, `&gt;`, `&quot;`,
      `&#39;`; newlines become spaces and the result is trimmed. */
  function DecodeEntities(body: string): (r: string)
    ensures '\n' !in r
    ensures r == [] || (!IsWhitespace(r[0]) && !IsWhitespace(r[|r| - 1]))
  {
    var unescaped := ReplaceAll(ReplaceAll(ReplaceAll(ReplaceAll(ReplaceAll(
      body, "&amp;", "&"), "&lt;", "<"), "&gt;", ">"), "&quot;", "\""), "&#39;", "'");
    var oneLine := ReplaceAll(unescaped, "\n", " ");
    ReplaceCharRemovesIt(unescaped, '\n', " ");
    var r := Trim(oneLine);
    TrimSpec(oneLine);
    assert forall i :: 0 <= i < |r| ==> r[i] == oneLine[TrimOffset(oneLine) + i];
    r
  }

  /** Because `&amp;` is decoded first, an escaped entity is decoded twice. */
  lemma AmpersandDecodedFirst()
    ensures DecodeEntities("&amp;lt;") == "<"
  {
    assert ReplaceAll("&amp;lt;", "&amp;", "&") == "&lt;";
    assert ReplaceAll("&lt;", "&lt;", "<") == "<";
    assert ReplaceAll("<", "&gt;", ">") == "<";
    assert ReplaceAll("<", "&quot;", "\"") == "<";
    assert ReplaceAll("<", "&#39;", "'") == "<";
    assert ReplaceAll("<", "\n", " ") == "<";
    assert Trim("<") == "<";
  }

  /** Text without `&` holds no entity: only the newlines and the outer
      whitespace change. */
  lemma PlainBodyDecodes(body: string)
    requires '&' !in body
    ensures DecodeEntities(body) == Trim(ReplaceAll(body, "\n", " "))
  {
    EntityAbsent(body, "&amp;", "&");
    EntityAbsent(body, "&lt;", "<");
    EntityAbsent(body, "&gt;", ">");
    EntityAbsent(body, "&quot;", "\"");
    EntityAbsent(body, "&#39;", "'");
  }

  /** An entity starts with `&`, so text without `&` has none to replace. */
  lemma EntityAbsent(s: string, entity: string, rep: string)
    requires entity != [] && entity[0] == '&' && '&' !in s
    ensures ReplaceAll(s, entity, rep) == s
  {
    forall i | 0 <= i <= |s|
      ensures !OccursAt(s, i, entity)
    {
      if i + |entity| <= |s| {
        assert s[i..i + |entity|][0] == s[i];
      }
    }
    ReplaceAbsent(s, entity, rep);
  }

  /** The characters XML escaping writes as entities, other than `&`. */
  const Special: seq<char> := ['<', '>', '"', '\'']

  /** The entity of an escaped character. */
  function Entity(c: char): (e: string)
    ensures |e| >= 4 && e[0] == '&' && '&' !in e[1..]
  {
    match c
    case '<' => "&lt;"
    case '>' => "&gt;"
    case '"' => "&quot;"
    case _ => "&#39;"
  }

  /** `t` with each character of `escaped` written as its entity. */
  function EscapeSome(escaped: seq<char>, t: string): string {
    if t == [] then []
    else (if t[0] in escaped then Entity(t[0]) else [t[0]]) + EscapeSome(escaped, t[1..])
  }

  /** XML escaping of `<`, `>`, `"` and `'`. */
  function XmlEscape(t: string): string {
    EscapeSome(Special, t)
  }

  /** Escaping with the entities decoded undoes the escaping: text without
      `&`, escaped, decodes to itself on one line and trimmed. */
  lemma EscapedTextDecodes(t: string)
    requires '&' !in t
    ensures DecodeEntities(XmlEscape(t)) == Trim(ReplaceAll(t, "\n", " "))
  {
    DecodeAmpersand(t);
    DecodeLessThan(t);
    DecodeGreaterThan(t);
    DecodeQuote(t);
    DecodeApostrophe(t);
    EscapeNone(t);
  }

  /** `&lt;` is decoded; the other three stay escaped. */
  lemma DecodeLessThan(t: string)
    requires '&' !in t
    ensures ReplaceAll(EscapeSome(['<', '>', '"', '\''], t), "&lt;", ['<']) == EscapeSome(['>', '"', '\''], t)
  {
    EntitySpelling();
    assert ['<'] + ['>', '"', '\''] == ['<', '>', '"', '\''];
    DecodeNext(['>', '"', '\''], '<', t);
  }

  /** `&gt;` is decoded; quotes stay escaped. */
  lemma DecodeGreaterThan(t: string)
    requires '&' !in t
    ensures ReplaceAll(EscapeSome(['>', '"', '\''], t), "&gt;", ['>']) == EscapeSome(['"', '\''], t)
  {
    EntitySpelling();
    assert ['>'] + ['"', '\''] == ['>', '"', '\''];
    DecodeNext(['"', '\''], '>', t);
  }

  /** `&quot;` is decoded; the apostrophe stays escaped. */
  lemma DecodeQuote(t: string)
    requires '&' !in t
    ensures ReplaceAll(EscapeSome(['"', '\''], t), "&quot;", ['"']) == EscapeSome(['\''], t)
  {
    EntitySpelling();
    assert ['"'] + ['\''] == ['"', '\''];
    DecodeNext(['\''], '"', t);
  }

  /** `&#39;` is decoded; nothing stays escaped. */
  lemma DecodeApostrophe(t: string)
    requires '&' !in t
    ensures ReplaceAll(EscapeSome(['\''], t), "&#39;", ['\'']) == EscapeSome([], t)
  {
    EntitySpelling();
    assert ['\''] + [] == ['\''];
    DecodeNext([], '\'', t);
  }

  /** `&amp;` is none of the entities escaped text holds. */
  lemma DecodeAmpersand(t: string)
    requires '&' !in t
    ensures ReplaceAll(XmlEscape(t), "&amp;", "&") == XmlEscape(t)
  {
    assert [] + Special == Special;
    SecondCharacters();
    DecodeOne(Special, [], t, "&amp;", "&");
  }

  /** Decoding the entity of `c` on text with `c` and `kept` escaped leaves `kept` escaped. */
  lemma DecodeNext(kept: seq<char>, c: char, t: string)
    requires '&' !in t && c in Special && c !in kept && forall d :: d in kept ==> d in Special
    ensures ReplaceAll(EscapeSome([c] + kept, t), Entity(c), [c]) == EscapeSome(kept, t)
  {
    SecondCharactersDiffer(c);
    DecodeOne(kept, [c], t, Entity(c), [c]);
  }

  /** Distinct entities differ in their second character. */
  lemma SecondCharactersDiffer(c: char)
    requires c in Special
    ensures forall d :: d in Special && d != c ==> Entity(d)[1] != Entity(c)[1]
  {
    EntitySpelling();
  }

  /** The four entities, written out. */
  lemma EntitySpelling()
    ensures Entity('<') == "&lt;" && Entity('>') == "&gt;" && Entity('"') == "&quot;" && Entity('\'') == "&#39;"
  {
  }

  /** No entity starts like `&amp;`. */
  lemma SecondCharacters()
    ensures forall c :: c in Special ==> Entity(c)[1] != 'a'
  {
    forall c | c in Special
      ensures Entity(c)[1] != 'a'
    {
      EntitySpelling();
      assert c == '<' || c == '>' || c == '"' || c == '\'';
    }
  }

  /** Nothing escaped is the text itself. */
  lemma {:induction false} EscapeNone(t: string)
    ensures EscapeSome([], t) == t
  {
    if t != [] {
      EscapeNone(t[1..]);
    }
  }

  /** One `replace` of the decoding on partly escaped text: it turns the
      entities of `target` (none, or the one character `pat` spells) back into
      characters and leaves every other entity alone, which differs from
      `pat` in its second character. */
  lemma {:induction false} DecodeOne(kept: seq<char>, target: seq<char>, t: string, pat: string, rep: string)
    requires '&' !in t && forall c :: c in target + kept ==> c in Special
    requires |pat| >= 2 && pat[0] == '&'
    requires forall c :: c in target ==> pat == Entity(c) && rep == [c]
    requires forall c :: c in kept ==> Entity(c)[1] != pat[1]
    ensures ReplaceAll(EscapeSome(target + kept, t), pat, rep) == EscapeSome(kept, t)
  {
    var escaped := target + kept;
    if t != [] {
      var c := t[0];
      var rest := EscapeSome(escaped, t[1..]);
      var piece := if c in escaped then Entity(c) else [c];
      var s := EscapeSome(escaped, t);
      assert s == piece + rest;
      DecodeOne(kept, target, t[1..], pat, rep);
      if |s| < |pat| {
        ShortUnchanged(rest, pat, rep);
      } else if c in target {
        DecodeAtEntity(piece, rest, pat, rep);
      } else {
        assert c != '&';
        assert piece[0] == '&' ==> piece[1] != pat[1];
        DecodeKeepsPiece(piece, rest, pat, rep);
      }
    }
  }

  /** The pattern at the front is replaced. */
  lemma DecodeAtEntity(piece: string, rest: string, pat: string, rep: string)
    requires pat != [] && piece == pat
    ensures ReplaceAll(piece + rest, pat, rep) == rep + ReplaceAll(rest, pat, rep)
  {
    var s := piece + rest;
    assert s[..|pat|] == pat;
    assert s[|pat|..] == rest;
  }

  /** A character, or an entity that differs from the pattern in its second
      character, is kept whole. */
  lemma DecodeKeepsPiece(piece: string, rest: string, pat: string, rep: string)
    requires |pat| >= 2 && pat[0] == '&' && piece != []
    requires piece[0] != '&' ==> |piece| == 1
    requires piece[0] == '&' ==> |piece| >= 2 && piece[1] != pat[1] && '&' !in piece[1..]
    requires |piece + rest| >= |pat|
    ensures ReplaceAll(piece + rest, pat, rep) == piece + ReplaceAll(rest, pat, rep)
  {
    if piece[0] == '&' {
      KeepsOtherEntity(piece, rest, pat, rep);
    } else {
      NoAmpersandPrefix(piece, rest, pat, rep);
    }
  }

  /** An entity that differs from the pattern in its second character is kept whole. */
  lemma KeepsOtherEntity(piece: string, rest: string, pat: string, rep: string)
    requires |pat| >= 2 && pat[0] == '&' && |piece| >= 2 && piece[0] == '&'
    requires piece[1] != pat[1] && '&' !in piece[1..]
    requires |piece + rest| >= |pat|
    ensures ReplaceAll(piece + rest, pat, rep) == piece + ReplaceAll(rest, pat, rep)
  {
    var s := piece + rest;
    assert ReplaceAll(s, pat, rep) == [piece[0]] + ReplaceAll(piece[1..] + rest, pat, rep) by {
      assert s[..|pat|][1] == piece[1];
      StepOver(s, pat, rep);
      assert s[1..] == piece[1..] + rest;
    }
    NoAmpersandPrefix(piece[1..], rest, pat, rep);
    assert piece == [piece[0]] + piece[1..];
  }

  /** Where the pattern does not start, the first character is copied. */
  lemma StepOver(s: string, pat: string, rep: string)
    requires pat != [] && |s| >= |pat| && s[..|pat|] != pat
    ensures ReplaceAll(s, pat, rep) == [s[0]] + ReplaceAll(s[1..], pat, rep)
  {
  }

  /** Text shorter than the pattern is left as it is. */
  lemma ShortUnchanged(s: string, pat: string, rep: string)
    requires pat != [] && |s| < |pat|
    ensures ReplaceAll(s, pat, rep) == s
  {
  }

  /** A prefix without `&` holds no start of a pattern that begins with `&`. */
  lemma {:induction false} NoAmpersandPrefix(x: string, y: string, pat: string, rep: string)
    requires pat != [] && pat[0] == '&' && '&' !in x
    ensures ReplaceAll(x + y, pat, rep) == x + ReplaceAll(y, pat, rep)
  {
    if x != [] {
      var s := x + y;
      assert s[1..] == x[1..] + y;
      NoAmpersandPrefix(x[1..], y, pat, rep);
      if |s| < |pat| {
        ShortUnchanged(y, pat, rep);
      } else {
        assert s[..|pat|][0] == x[0];
      }
    } else {
      assert x + y == y;
    }
  }

  /** `parseFloat(x) || 0`, with the non-finite results read as 0. */
  function OrZero(n: Number): real {
    if n.Finite? then n.x else 0.0
  }

  /** The segment a match yields, or nothing when its decoded text is empty. */
  function MatchSegment(m: XmlMatch): (r: Option<Segment>)
    ensures r.Some? <==> DecodeEntities(m.body) != []
    ensures r.Some? ==> r.value.text == DecodeEntities(m.body) &&
                        r.value.start == OrZero(ParseFloat(m.start)) && r.value.duration == OrZero(ParseFloat(m.dur))
  {
    var text := DecodeEntities(m.body);
    if text == [] then None
    else Some(Segment(text, OrZero(ParseFloat(m.start)), OrZero(ParseFloat(m.dur))))
  }

  /** The segments the XML loop pushes for a sequence of matches: one per match
      with non-empty decoded text, in order, each trimmed and on one line. */
  function CaptionSegments(matches: seq<XmlMatch>): (r: seq<Segment>)
    ensures |r| <= |matches|
    ensures forall i :: 0 <= i < |r| ==>
              r[i].text != [] && '\n' !in r[i].text && !IsWhitespace(r[i].text[0])
  {
    if matches == [] then []
    else
      var m := MatchSegment(matches[0]);
      var rest := CaptionSegments(matches[1..]);
      if m.Some? then [m.value] + rest else rest
  }

  /** The loop keeps exactly the matches with a segment, in order: one match
      gives its segment or nothing, and a concatenation of matches gives the
      concatenation of their segments. */
  lemma {:induction false} CaptionSegmentsAppend(a: seq<XmlMatch>, b: seq<XmlMatch>, m: XmlMatch)
    ensures CaptionSegments([m]) == if MatchSegment(m).Some? then [MatchSegment(m).value] else []
    ensures CaptionSegments(a + b) == CaptionSegments(a) + CaptionSegments(b)
  {
    assert [m][1..] == [];
    if a == [] {
      assert a + b == b;
    } else {
      assert (a + b)[1..] == a[1..] + b;
      CaptionSegmentsAppend(a[1..], b, m);
    }
  }

  /** The segment list of one more match, with that match's segment `pushed` written out. */
  lemma CaptionSegmentsCons(m: XmlMatch, rest: seq<XmlMatch>, pushed: seq<Segment>)
    requires pushed == if MatchSegment(m).Some? then [MatchSegment(m).value] else []
    ensures CaptionSegments([m] + rest) == pushed + CaptionSegments(rest)
  {
    assert ([m] + rest)[1..] == rest;
  }

  lemma MatchesCons(s: string, from: nat)
    requires NextMatch(s, from).Some?
    ensures Matches(s, from) == [NextMatch(s, from).value.1] + Matches(s, NextMatch(s, from).value.1.end)
  {
  }

  /** The `while (regex.exec(xml))` loop of `getTranscriptFromCaptionTracks`. */
  method ParseCaptionXml(xml: string) returns (segments: seq<Segment>)
    ensures segments == CaptionSegments(Matches(xml, 0))
  {
    segments := [];
    var lastIndex: nat := 0;
    var found := NextMatch(xml, lastIndex);
    while found.Some?
      invariant lastIndex <= |xml|
      invariant found == NextMatch(xml, lastIndex)
      invariant segments + CaptionSegments(Matches(xml, lastIndex)) == CaptionSegments(Matches(xml, 0))
      decreases |xml| - lastIndex
    {
      var m := found.value.1;
      MatchesCons(xml, lastIndex);
      var segment := MatchSegment(m);
      ghost var pushed := if segment.Some? then [segment.value] else [];
      CaptionSegmentsCons(m, Matches(xml, m.end), pushed);
      assert Matches(xml, lastIndex) == [m] + Matches(xml, m.end);
      assert CaptionSegments(Matches(xml, lastIndex)) == pushed + CaptionSegments(Matches(xml, m.end));
      ghost var before := segments;
      if segment.Some? {
        segments := segments + [segment.value];
      }
      assert segments == before + pushed;
      AppendAssoc(before, pushed, CaptionSegments(Matches(xml, m.end)));
      assert segments + CaptionSegments(Matches(xml, m.end)) == CaptionSegments(Matches(xml, 0));
      assert m.end <= |xml|;
      lastIndex := m.end;
      found := NextMatch(xml, lastIndex);
    }
  }

  /** `getTranscriptFromCaptionTracks` once the track list and the fetched body are known. */
  method CaptionTrackSegments(tracks: seq<CaptionTrack>, response: string) returns (r: Result<seq<Segment>, string>)
    ensures r == CaptionTrackOutcome(tracks, response)
  {
    var url := ChooseTrackUrl(tracks);
    if url.Err? {
      return Err(url.error);
    }
    if |response| == 0 {
      return Err("Empty response from caption track URL");
    }
    var segments := ParseCaptionXml(response);
    return Ok(segments);
  }

  /** What the caption-track source gives: the track choice's error, an error
      for an empty body, or the segments of the body's matches. */
  function CaptionTrackOutcome(tracks: seq<CaptionTrack>, response: string): (r: Result<seq<Segment>, string>)
    ensures tracks == [] ==> r.Err?
    ensures r.Ok? ==> response != [] && r.value == CaptionSegments(Matches(response, 0))
    ensures r.Ok? <==> ChooseTrackUrl(tracks).Ok? && response != []
    ensures ChooseTrackUrl(tracks).Err? ==> r == Err(ChooseTrackUrl(tracks).error)
  {
    var url := ChooseTrackUrl(tracks);
    if url.Err? then Err(url.error)
    else if response == [] then Err("Empty response from caption track URL")
    else Ok(CaptionSegments(Matches(response, 0)))
  }

  /** A source's contribution to `getTranscript`: its segments when it
      succeeded with some, otherwise nothing (a thrown error is caught). */
  function Usable(r: Result<seq<Segment>, string>): seq<Segment> {
    if r.Ok? then r.value else []
  }

  /** `getTranscript`: the Innertube result if it is non-empty, else the
      caption-track result if non-empty, else the empty transcript. The result
      of each network call is a parameter; `Err` stands for a thrown error. */
  method GetTranscript(initialSegments: Result<seq<Value>, string>,
                       tracks: Result<seq<CaptionTrack>, string>,
                       response: Result<string, string>) returns (segments: seq<Segment>)
    ensures |PrimaryOutcome(initialSegments)| > 0 ==> segments == PrimaryOutcome(initialSegments)
    ensures |PrimaryOutcome(initialSegments)| == 0 ==> segments == FallbackOutcome(tracks, response)
  {
    if initialSegments.Ok? {
      var primary := InnertubeSegments(initialSegments.value);
      if primary.Ok? && |primary.value| > 0 {
        return primary.value;
      }
    }
    if tracks.Ok? && response.Ok? {
      var fallback := CaptionTrackSegments(tracks.value, response.value);
      if fallback.Ok? && |fallback.value| > 0 {
        return fallback.value;
      }
    }
    return [];
  }

  /** The Innertube source's usable segments. */
  function PrimaryOutcome(initialSegments: Result<seq<Value>, string>): seq<Segment> {
    if initialSegments.Ok? then Usable(InnertubeSegments(initialSegments.value)) else []
  }

  /** The caption-track source's usable segments; a failed `getInfo` or fetch gives none. */
  function FallbackOutcome(tracks: Result<seq<CaptionTrack>, string>, response: Result<string, string>): seq<Segment> {
    if tracks.Ok? && response.Ok? then Usable(CaptionTrackOutcome(tracks.value, response.value)) else []
  }

  /** No source failing makes `getTranscript` fail: when both give nothing the transcript is empty. */
  lemma BothSourcesEmpty(initialSegments: Result<seq<Value>, string>,
                         tracks: Result<seq<CaptionTrack>, string>, response: Result<string, string>)
    requires initialSegments.Err? || initialSegments == Ok([])
    requires tracks.Err? || tracks == Ok([])
    ensures PrimaryOutcome(initialSegments) == [] && FallbackOutcome(tracks, response) == []
  {
  }

}
