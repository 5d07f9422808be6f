/** src/app/api/analysis/route.ts: the pure steps of the analysis request. The
    transcript is grouped into `[M:SS] text` lines with a 200-character limit,
    the model's reply is cut out of its first ```json fence, and the returned
    chapters are stored with their list position as their order. The model
    call, `JSON.parse` and the database writes are not modelled. */
module AnalysisRoute {
  import opened JsString
  import opened Sequences
  import opened Wrappers
  import opened TranscriptTypes
  import TranscriptBlocks

  /** The character limit of `formatTranscriptForAnalysis`. */
  const AnalysisLimit: nat := 200

  /** `formatTranscriptForAnalysis`. */
  method FormatTranscriptForAnalysis(segments: seq<Segment>) returns (r: string)
    ensures r == Join(TranscriptBlocks.BlockLines(segments, AnalysisLimit), "\n")
    ensures segments == [] ==> r == ""
  {
    r := TranscriptBlocks.FormatBlocks(segments, AnalysisLimit);
  }

  // ---------------------------------------------------------------------
  // The reply fence, /```json\s*([\s\S]*?)\s*```/

  const FenceOpen: string := "```json"
  const FenceClose: string := "```"

  /** All characters of the text are matched by `\s`. */
  predicate AllWhitespace(s: string) {
    forall i :: 0 <= i < |s| ==> IsWhitespace(s[i])
  }

  /** A match of the fence expression: "```json" at `p`, whitespace up to `a`,
      the group `text[a..b]`, whitespace up to `c`, and "```" at `c`. */
  predicate FenceMatch(text: string, p: nat, a: nat, b: nat, c: nat) {
    p + |FenceOpen| <= a <= b <= c && c + |FenceClose| <= |text|
    && OccursAt(text, p, FenceOpen) && OccursAt(text, c, FenceClose)
    && AllWhitespace(text[p + |FenceOpen|..a]) && AllWhitespace(text[b..c])
  }

  /** The group of the leftmost match, as the regular-expression engine picks
      it: after the first "```json", up to the first "```" that follows it,
      with the whitespace at both ends left to the two `\s*`. */
  function FenceContent(text: string): (r: Option<string>)
    ensures r.Some? ==> Trim(r.value) == r.value
  {
    var p := IndexOf(text, FenceOpen, 0);
    if p == -1 then None
    else
      var q := IndexOf(text, FenceClose, p + |FenceOpen|);
      if q == -1 then None
      else
        TrimIdempotent(text[p + |FenceOpen|..q]);
        Some(Trim(text[p + |FenceOpen|..q]))
  }

  /** No match starts before the first "```json", and every match needs a
      "```" after it; so the engine finds none when `FenceContent` gives nothing. */
  lemma FenceAbsentMeansNoMatch(text: string)
    ensures FenceContent(text).None? ==> forall p: nat, a: nat, b: nat, c: nat :: !FenceMatch(text, p, a, b, c)
    ensures IndexOf(text, FenceOpen, 0) != -1 ==> forall p: nat, a: nat, b: nat, c: nat ::
              FenceMatch(text, p, a, b, c) ==> IndexOf(text, FenceOpen, 0) <= p
  {
    var p := IndexOf(text, FenceOpen, 0);
    if p != -1 {
      var q := IndexOf(text, FenceClose, p + |FenceOpen|);
      forall p': nat, a': nat, b': nat, c': nat | FenceMatch(text, p', a', b', c')
        ensures p <= p' && q != -1
      {
        assert OccursAt(text, p', FenceOpen);
        assert OccursAt(text, c', FenceClose);
      }
    } else {
      forall p': nat, a': nat, b': nat, c': nat | FenceMatch(text, p', a', b', c')
        ensures false
      {
      }
    }
  }

  /** A "```json" at `p` and a "```" at `q` after it frame a match whose
      group is the text between them, trimmed. */
  lemma TrimmedGroupMatches(text: string, p: nat, q: nat)
    requires OccursAt(text, p, FenceOpen) && p + |FenceOpen| <= q && OccursAt(text, q, FenceClose)
    ensures var x := text[p + |FenceOpen|..q];
            var a := p + |FenceOpen| + TrimOffset(x);
            a + |Trim(x)| <= q &&
            FenceMatch(text, p, a, a + |Trim(x)|, q) && text[a..a + |Trim(x)|] == Trim(x)
  {
    var start := p + |FenceOpen|;
    var x := text[start..q];
    TrimSpec(x);
    var off, n := TrimOffset(x), |Trim(x)|;
    SubSlice(text, start, q, 0, off);
    SubSlice(text, start, q, off, off + n);
    SubSlice(text, start, q, off + n, q - start);
    assert AllWhitespace(x[0..off]);
    assert AllWhitespace(x[off + n..q - start]);
  }

  /** When `FenceContent` gives a group, it is the group of a match that starts
      no later than any other match. */
  lemma FenceContentIsLeftmostMatch(text: string)
    ensures FenceContent(text).Some? ==>
              exists p: nat, a: nat, b: nat, c: nat :: FenceMatch(text, p, a, b, c) && text[a..b] == FenceContent(text).value &&
                forall p': nat, a': nat, b': nat, c': nat :: FenceMatch(text, p', a', b', c') ==> p <= p'
  {
    if FenceContent(text).Some? {
      FenceAbsentMeansNoMatch(text);
      var p := IndexOf(text, FenceOpen, 0);
      var q := IndexOf(text, FenceClose, p + |FenceOpen|);
      TrimmedGroupMatches(text, p, q);
      var x := text[p + |FenceOpen|..q];
      var a := p + |FenceOpen| + TrimOffset(x);
      assert FenceMatch(text, p, a, a + |Trim(x)|, q);
    }
  }

  /** `(text.match(fence) || [null, text])[1] || text`, trimmed: the text
      handed to `JSON.parse`. */
  function ExtractJson(text: string): (r: string)
    ensures r == [] || (!IsWhitespace(r[0]) && !IsWhitespace(r[|r| - 1]))
    ensures FenceContent(text).Some? && FenceContent(text).value != [] ==> r == FenceContent(text).value
    ensures FenceContent(text).None? || FenceContent(text).value == [] ==> r == Trim(text)
  {
    var g := FenceContent(text);
    var chosen := if g.Some? && g.value != [] then g.value else text;
    TrimSpec(chosen);
    Trim(chosen)
  }

  /** A reply without a fence is parsed whole, trimmed. */
  lemma NoFenceParsesWholeReply(text: string)
    requires !Contains(text, FenceOpen)
    ensures ExtractJson(text) == Trim(text)
  {
    ContainsIndexOf(text, FenceOpen);
  }

  /** A fence whose content is only whitespace counts as no fence. */
  lemma EmptyFenceParsesWholeReply(text: string)
    requires FenceContent(text) == Some([])
    ensures ExtractJson(text) == Trim(text)
  {
  }

  /** Wrapping a body in a fence, after a preface and before an epilogue
      without backticks, gives the trimmed body back. */
  lemma FenceRoundTrip(pre: string, body: string, post: string)
    requires '`' !in pre && '`' !in body
    requires Trim(body) != []
    ensures ExtractJson(pre + FenceOpen + body + FenceClose + post) == Trim(body)
  {
    var text := pre + FenceOpen + body + FenceClose + post;
    var p := |pre|;
    var start := p + |FenceOpen|;
    var q := start + |body|;
    assert text[p..start] == FenceOpen;
    assert text[q..q + |FenceClose|] == FenceClose;
    assert text[start..q] == body;
    assert forall j :: 0 <= j < p ==> text[j] == pre[j];
    assert forall j :: start <= j < q ==> text[j] == body[j - start];
    NoBacktickNoFence(text, 0, p, FenceOpen);
    NoBacktickNoFence(text, start, q, FenceClose);
    IndexOfFirst(text, FenceOpen, 0, p);
    IndexOfFirst(text, FenceClose, start, q);
    TrimIdempotent(body);
  }

  /** Both fences start with a backtick, so none starts where there is none. */
  lemma NoBacktickNoFence(text: string, from: nat, to: nat, fence: string)
    requires fence != [] && fence[0] == '`'
    requires to <= |text|
    requires forall j :: from <= j < to ==> text[j] != '`'
    ensures forall j :: from <= j < to ==> !OccursAt(text, j, fence)
  {
    forall j | from <= j < to
      ensures !OccursAt(text, j, fence)
    {
      if j + |fence| <= |text| {
        assert text[j..j + |fence|][0] == text[j];
      }
    }
  }

  // ---------------------------------------------------------------------
  // Chapters to database rows

  /** A chapter of the parsed analysis result. */
  datatype AnalysedChapter = AnalysedChapter(title: string, startTime: real, summary: string)

  /** The row `prisma.chapter.createMany` receives for one chapter. */
  datatype ChapterRow = ChapterRow(videoId: string, title: string, startTime: real, summary: string, order: nat)

  /** `analysisResult.chapters.map((chapter, index) => ({ …, order: index }))`. */
  function ChapterRows(videoId: string, chapters: seq<AnalysedChapter>): (r: seq<ChapterRow>)
    ensures |r| == |chapters|
    ensures forall i :: 0 <= i < |r| ==>
              r[i].order == i && r[i].videoId == videoId &&
              r[i].title == chapters[i].title && r[i].startTime == chapters[i].startTime &&
              r[i].summary == chapters[i].summary
  {
    if chapters == [] then []
    else
      var c := chapters[|chapters| - 1];
      ChapterRows(videoId, chapters[..|chapters| - 1]) + [ChapterRow(videoId, c.title, c.startTime, c.summary, |chapters| - 1)]
  }
}
