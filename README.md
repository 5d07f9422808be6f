# YouTube learning companion: transcript timing, text grouping and UI state rules

This project is a Dafny model of the deterministic core of a Next.js app. The app imports YouTube videos and shows their transcripts with a synchronised transcript panel and a chapter list. It asks a language model for chapters and answers chat questions about a video. The model covers these parts:

- **Caption timestamp normalisation** (`src/lib/transcript-utils.ts`, module `TranscriptUtils`). Raw caption records are loosely shaped JavaScript objects. They are modelled as `JsValue.Value`, with `undefined`, `null`, booleans, numbers, strings and objects. The module models:
  - the `??` chains over candidate field names;
  - `parseTimeValue`;
  - the two threshold rules for milliseconds;
  - `normalizeSegment`, as an imperative method over the reassigned `startMs` and `endMs`.

  The transcript panel's own copies of these rules are in `TranscriptPanel`. Lemmas show where the three variants disagree.
- **The active item during playback**: `currentSegmentIndex` of the transcript panel and `currentChapterIndex` of the chapter list, both linear `findIndex` searches.
- **Transcript assembly** (`src/lib/transcript.ts`, module `TranscriptFetch`):
  - the Innertube snippet mapping;
  - the regular-expression scan of the caption XML, as a `while` loop, with entity decoding;
  - the choice of caption track;
  - the two-source fallback of `getTranscript`.
- **Grouping transcript text into `[M:SS] text` lines** (module `TranscriptBlocks`). Both routes share one imperative formatter, with a limit of 200 characters for analysis and 150 for chat. The pure parts of the two routes are modelled too:
  - the JSON fence extraction and chapter ordering of the analysis route;
  - the request guard and message list of the chat route.
- **String parsers and formatters**:
  - ISO 8601 durations of the form `PT#H#M#S` (section 4.4.3.2 of ISO 8601:2004);
  - playlist and video id extraction (`YouTube`);
  - the `M:SS` and `H:MM:SS` formatters repeated across files, each defined once in `Clock`;
  - the timestamp links of chat messages (`ChatPanel`).
- **UI state rules**, as classes whose fields the handlers update:
  - the chat panel (`ChatPanel.Panel`);
  - the video selector (`VideoSelector.Selector`);
  - the dashboard's list and dialog flag (`Dashboard.Client`);
  - the import dialog's state machine (`ImportModal.Modal`);
  - the login page's error-code mapping (`Login`).

JavaScript semantics the core relies on are modelled in small modules of their own:
- `JsNumber`: numbers as exact reals plus NaN and ±Infinity; `parseFloat` as a decimal-literal grammar; `%` truncates toward zero;
- `JsString`: `trim`, `padStart`, `indexOf`, `replace` with the global flag, and `join`;
- `JsValue`: property access, truthiness, `??` chains and `String()`.

Times are reals. Requests, responses, clocks and the model's replies are parameters of the methods that receive them.

Behaviours of the code worth stating:
- The lookups are linear `findIndex` searches, not binary searches. A time in a gap between segments gives −1; no earlier segment stays highlighted.
- Segments of zero duration are not rejected. `normalizeSegment` returns a segment for every object.
- Units are decided by magnitude alone, never by a field name containing `Ms`. For example, a `start_ms` of 5000 is read as 5000 seconds.
- The `??` chain of `normalizeSegment` tries `start_time_ms` before `startTimeMs`. `getSegmentStartTime` tries them in the opposite order.
- The chat panel's submit posts the history as it was before the new user message. The server appends the message itself, so the model sees it once.

A few other behaviours of the code are stated as lemmas:
- A playlist URL containing `list=` skips validation and goes straight to the video selector (`ImportModal.UnvalidatedUrlReachesSelector`).
- A URL without `list=` can pass validation only as a bare `PL…` id. Even then the dialog stays on the input screen (`ImportModal.SubmitKeepsInputScreen`).
- Ids left selected from an earlier listing count in the progress total, although no video is sent for them (`VideoSelector.StaleSelectionCounted`).

## Model

| member | source | states |
|---|---|---|
| TranscriptUtils.ParseTimeValue | src/lib/transcript-utils.ts:20-31 | A non-zero result is the finite number `parseFloat(String(v))` gives. `undefined` and `null` give 0. |
| TranscriptUtils.ParseTimeValueTotal | src/lib/transcript-utils.ts:20-31 | Total and finite. A non-finite number and an unparsable string give 0. A finite number, or a string that parses to a finite value, passes through unchanged. |
| TranscriptUtils.FromMillisIfLargeKeeps | src/lib/transcript-utils.ts:66-72 | The unit rule keeps a value exactly when it is at most 10000. A larger value is divided by 1000. The threshold is strict. |
| TranscriptUtils.StartTime | src/lib/transcript-utils.ts:38-73 | With no `start` field and no other start field defined, the start is 0. |
| TranscriptUtils.StartFieldWins | src/lib/transcript-utils.ts:40-47 | A defined `start` decides the result, whatever any other field holds. |
| TranscriptUtils.StartChainFirstWins | src/lib/transcript-utils.ts:49-72 | Without `start`, the first non-nullish field of the chain decides, after the unit rule. |
| TranscriptUtils.StartZeroHonoured | src/lib/transcript-utils.ts:51-58 | A present 0 early in the chain wins over a later non-zero field. |
| TranscriptUtils.Duration | src/lib/transcript-utils.ts:80-118 | Without a `duration` field, an end field always gives a non-negative duration. |
| TranscriptUtils.DurationResolution | src/lib/transcript-utils.ts:91-117 | Without `duration`, the end chain gives max(0, end − start). Failing that, `dur` after the unit rule. Failing both, 0. |
| TranscriptUtils.DurationFieldNotClamped | src/lib/transcript-utils.ts:82-89 | A defined `duration` is returned without clamping, so −5 gives −5. |
| TranscriptUtils.Texts | src/lib/transcript-utils.ts:144 | The texts of the segments, one per segment, in order. |
| TranscriptUtils.TranscriptToText | src/lib/transcript-utils.ts:143-145 | No segments give "". One segment gives its text. |
| TranscriptUtils.TranscriptToTextSnoc | src/lib/transcript.ts:162-164 | Appending a segment appends one space and its text. |
| TranscriptUtils.SegmentText | src/lib/transcript-utils.ts:240 | A truthy string `text` of the unwrapped data is used as is. With both `text` fields falsy, the text is "". |
| TranscriptUtils.NormalizeSegment | src/lib/transcript-utils.ts:153-247 | Null is returned exactly when the unwrapped record is not an object. Otherwise the segment has the resolved text, the start from the start chain and the unit heuristic, and duration max(0, end − start). |
| TranscriptUtils.UnitSecondsRule | src/lib/transcript-utils.ts:188-205 | A resolved value v is kept, and read as seconds, exactly when 0 < v < 10000 or v = 0. Otherwise it is read as milliseconds and divided by 1000. |
| TranscriptUtils.DurationIgnoredWithEnd | src/lib/transcript-utils.ts:208 | When the end resolves to a non-zero value, no field outside the start and end chains changes the end, `duration` included. |
| TranscriptUtils.DurationFallback | src/lib/transcript-utils.ts:207-221 | With no end field, end − start is the duration after the seconds heuristic. |
| TranscriptUtils.CoalesceSameFields | src/lib/transcript-utils.ts:168-186 | A `??` chain depends only on the fields it names. |
| TranscriptUtils.NormalizeMixedUnits | src/lib/transcript-utils.ts:188-205 | `{start_ms: 0, end_ms: 2000}` normalises to start 0 and end 2000 seconds: the end of 2000 is taken for seconds, while the start of 0 is not rescaled, so the duration is 2000 seconds. |
| TranscriptPanel.PanelStartTime | src/components/learn/transcript-panel.tsx:43-70 | A positive numeric `start` is returned as is. Otherwise, with no chain field defined, 0. |
| TranscriptPanel.PanelStartChain | src/components/learn/transcript-panel.tsx:49-69 | Without a positive `start`, the first non-nullish chain field decides, after the unit rule. |
| TranscriptPanel.PanelDuration | src/components/learn/transcript-panel.tsx:73-104 | A positive numeric `duration` is returned as is. Otherwise an end field gives a non-negative duration. |
| TranscriptPanel.PanelDurationResolution | src/components/learn/transcript-panel.tsx:79-103 | Without a positive `duration`: an end field gives max(0, end − start) with the end read by the >10000 rule. Otherwise `dur` is read by that rule, and when `dur` is nullish the `duration` field itself is, so a zero, negative or textual `duration` still counts. |
| TranscriptPanel.PanelIgnoresBareEnd | src/components/learn/transcript-panel.tsx:82-88 | The panel's end chain has no bare `end`, so `{start 5, end 9}` gives duration 0. |
| TranscriptPanel.UtilsReadsBareEnd | src/lib/transcript-utils.ts:95-107 | For the same record, the shared utilities give duration 4. |
| TranscriptPanel.CurrentSegmentIndex | src/components/learn/transcript-panel.tsx:132-137 | The result is the least index whose half-open interval [start, start + duration) holds t, else −1. No earlier segment holds t. |
| TranscriptPanel.View | src/components/learn/transcript-panel.tsx:161-172 | The empty-state branch is taken exactly for an empty transcript. Otherwise the active row is the current segment index. |
| TranscriptPanel.EmptyTranscriptNoIndex | src/components/learn/transcript-panel.tsx:161-172 | An empty transcript gives index −1 and the empty state. |
| TranscriptPanel.BareStartDisagrees | src/components/learn/transcript-panel.tsx:45-47 | A bare `start` of 20000 gives 20 in the utilities and in `normalizeSegment`, and 20000 in the panel. |
| TranscriptPanel.ZeroStartDisagrees | src/components/learn/transcript-panel.tsx:45-57 | With `start` 0 and `start_ms` 3000, the utilities give 0, while the panel and `normalizeSegment` give 3000. |
| ChapterList.FindFrom | src/components/learn/chapter-list.tsx:36-42 | The first chapter from `from` on that claims t, or −1 if none does. |
| ChapterList.CurrentChapterIndex | src/components/learn/chapter-list.tsx:36-42 | The least i with start_i ≤ t and (i last or t < start_{i+1}), else −1. |
| ChapterList.LastChapterOpenEnded | src/components/learn/chapter-list.tsx:41 | The last chapter takes every t at or after its start that no earlier chapter claimed. |
| ChapterList.SomeChapterClaims | src/components/learn/chapter-list.tsx:36-42 | With sorted start times, a chapter started by t means some later chapter claims t. |
| ChapterList.SortedIsLastStarted | src/components/learn/chapter-list.tsx:36-42 | With sorted start times, the result is −1 exactly when t is before the first start. Otherwise it is the last chapter started by t. |
| ChapterList.SortedMonotone | src/components/learn/chapter-list.tsx:36-42 | With sorted start times, the index never decreases as t grows. |
| ChapterList.View | src/components/learn/chapter-list.tsx:24-42 | An empty list shows the empty state before any lookup. Otherwise the active row is the current chapter index. |
| Clock.MinSecFields | src/components/learn/chapter-list.tsx:17-21 | For t ≥ 0, the `M:SS` fields are whole minutes and a second count in [0, 60) that add up to ⌊t⌋. |
| Clock.ClockFields | src/lib/transcript-utils.ts:125-136 | For t ≥ 0, the `H:MM:SS` fields recombine to ⌊t⌋, with minutes and seconds below 60. |
| Clock.ClockBelowHour | src/lib/transcript.ts:167-178 | Below one hour, the `H:MM:SS` formatter writes the same label as the `M:SS` one. |
| Clock.DurationIsClock | src/components/import/video-selector.tsx:111-122 | On whole seconds, the duration formatter writes the same label as the timestamp formatter. |
| Clock.DurationFields | src/app/dashboard/dashboard-client.tsx:32-34 | h·3600 + m·60 + s equals the input, and without hours m·60 + s does. |
| Clock.DurationLabelRoundTrip | src/components/import/video-selector.tsx:111-122 | The label of a duration reads back to the same number of seconds. |
| Clock.ReadsTwoFields | src/app/dashboard/dashboard-client.tsx:41 | Two digit runs joined by `:` read back as minutes·60 + seconds. |
| Clock.ReadsThreeFields | src/app/dashboard/dashboard-client.tsx:37-39 | Three digit runs joined by `:` read back as h·3600 + m·60 + s. |
| Clock.PaddedField | src/app/dashboard/dashboard-client.tsx:37-41 | A field written with `padStart(2, "0")` is a non-empty digit run of the same value. |
| Dashboard.DurationLabelSpec | src/app/dashboard/dashboard-client.tsx:30-42 | The label is "--:--" exactly for a missing or zero duration. Any other label reads back to its duration. |
| Dashboard.WithoutSpec | src/app/dashboard/dashboard-client.tsx:171 | The list after a delete keeps exactly the entries with another id, in order. Deleting twice, or deleting an absent id, changes nothing further. |
| Dashboard.Client.constructor | src/app/dashboard/dashboard-client.tsx:26-27 | The list is the initial one and the dialog is closed. |
| Dashboard.Client.Delete | src/app/dashboard/dashboard-client.tsx:168-177 | On success, the previous list minus that id, and no alert. On a refused or failed request, the list stays and the matching alert is returned. |
| Dashboard.Client.OpenImport | src/app/dashboard/dashboard-client.tsx:82 | Opens the dialog. The list is unchanged. |
| Dashboard.Client.CloseImport | src/app/dashboard/dashboard-client.tsx:196 | Closes the dialog. The list is unchanged. |
| TranscriptFetch.Kept | src/lib/transcript.ts:42-50 | Only non-null objects with a `snippet` field are kept, every such segment is kept, and every kept element comes from the input. |
| TranscriptFetch.KeptAppend | src/lib/transcript.ts:42-50 | The filter keeps the input order: it distributes over concatenation. |
| TranscriptFetch.ChainOrZero | src/lib/transcript.ts:56-57 | The chain gives its first field that is not nullish, or 0 when there is none. |
| TranscriptFetch.SnippetFields | src/lib/transcript.ts:52 | A `snippet` can be read exactly when it is not nullish. |
| TranscriptFetch.SnippetSegment | src/lib/transcript.ts:56-71 | The start is the first start field that is not nullish, in milliseconds, divided by 1000 (0 without one). The duration is max(0, (end − start) / 1000), so it is 0 exactly when the end is not after the start. A truthy text is its `String` (a non-string one is kept unconverted in the source, see Left out), a falsy one "". |
| TranscriptFetch.SnippetRecords | src/lib/transcript.ts:51-52 | Mapping fails exactly when some kept segment's `snippet` is nullish. Otherwise there is one record per kept segment, in order. |
| TranscriptFetch.InnertubeSegments | src/lib/transcript.ts:29-72 | No initial segments is the "No transcript segments found" error. Otherwise there is one segment per kept element, each with a non-negative duration, or the mapping's error. |
| TranscriptFetch.SnippetWithoutTimes | src/lib/transcript.ts:56-70 | A snippet with no time fields gives start 0 and duration 0. |
| TranscriptFetch.FindJapanese | src/lib/transcript.ts:88 | The first track with language code "ja", or none if no track has it. |
| TranscriptFetch.ChooseTrackUrl | src/lib/transcript.ts:82-93 | No tracks is an error. The first Japanese track gives its `base_url`, and without one the first track does. A chosen track without a non-empty `base_url` is an error. |
| TranscriptFetch.JapanesePreferred | src/lib/transcript.ts:88-89 | A Japanese track second in the list is chosen over an English first one. |
| TranscriptFetch.MatchAt | src/lib/transcript.ts:105 | A match at p starts with `<text start="`. Its attribute values are non-empty and hold no `"`. Its body holds no `<`. |
| TranscriptFetch.NextMatch | src/lib/transcript.ts:105-108 | The leftmost match from a position on, as the global regex's `exec` finds it, or none. |
| TranscriptFetch.DecodeEntities | src/lib/transcript.ts:112-119 | The decoded text has no newline and no whitespace at either end. |
| TranscriptFetch.PlainBodyDecodes | src/lib/transcript.ts:112-119 | Text without `&` only has its newlines made spaces and its ends trimmed. |
| TranscriptFetch.EscapedTextDecodes | src/lib/transcript.ts:112-119 | The five replacements undo XML escaping of `<`, `>`, `"` and `'`: escaped text without `&` decodes to itself, on one line and trimmed. |
| TranscriptFetch.AmpersandDecodedFirst | src/lib/transcript.ts:113-114 | `&amp;` is decoded first, so `&amp;lt;` becomes `<`. |
| TranscriptFetch.MatchSegment | src/lib/transcript.ts:109-123 | A match yields a segment exactly when its decoded text is non-empty. The segment holds that text, and the parsed `start` and `dur` attributes, with an unreadable one read as 0. |
| TranscriptFetch.CaptionSegments | src/lib/transcript.ts:108-124 | At most one segment per match. Every text is non-empty, on one line, and starts with no whitespace. |
| TranscriptFetch.CaptionSegmentsAppend | src/lib/transcript.ts:108-124 | One match gives its segment or nothing. Concatenated matches give the concatenated segments, so exactly the matches with a segment are kept, in order. |
| TranscriptFetch.ParseCaptionXml | src/lib/transcript.ts:104-126 | The `while` loop returns the segments of all matches in order. |
| TranscriptFetch.CaptionTrackSegments | src/lib/transcript.ts:76-127 | The method's result is the caption-track outcome: the segments of the body's matches exactly when the chosen track has a `base_url` and the body is non-empty, else that error. |
| TranscriptFetch.CaptionTrackOutcome | src/lib/transcript.ts:82-126 | No tracks is an error. The result is Ok exactly when the track choice succeeds and the response is non-empty, and then it holds the segments of the response's matches. An error from the track choice (no tracks, no `base_url`) is passed through unchanged. |
| TranscriptFetch.GetTranscript | src/lib/transcript.ts:130-158 | A non-empty Innertube result is returned. Otherwise the caption-track result is returned, [] when it fails or is empty. No failure propagates. |
| TranscriptFetch.BothSourcesEmpty | src/lib/transcript.ts:157-158 | When both sources fail or are empty, the result is []. |
| TranscriptBlocks.Acc | src/app/api/analysis/route.ts:194 | The accumulated text is empty exactly for an empty run. |
| TranscriptBlocks.RunsCover | src/app/api/analysis/route.ts:190-211 | The closed runs and the final open run are the input, in order and without overlap. Each closed run closes at its last segment and not before. The open run has not closed. |
| TranscriptBlocks.RunsCloseAtFirstChance | src/app/api/analysis/route.ts:197-200 | A run closes exactly at its first segment where the accumulated text passes the limit or the segment's text ends in 。．！？.!?. |
| TranscriptBlocks.FinalRunDroppedOnlyIfBlank | src/app/api/analysis/route.ts:207-211 | One line per closed run, plus one for the open run exactly when its text is not blank. |
| TranscriptBlocks.BlockLines | src/app/api/analysis/route.ts:186-213 | No segments give no lines. |
| TranscriptBlocks.FormatBlocks | src/app/api/chat/route.ts:126-150 | The loop's output is the block lines, each `[M:SS] trimmed text` with its run's first start, joined by "\n". |
| AnalysisRoute.FormatTranscriptForAnalysis | src/app/api/analysis/route.ts:184-214 | The block lines with limit 200, joined by "\n". Empty input gives "". |
| AnalysisRoute.FenceAbsentMeansNoMatch | src/app/api/analysis/route.ts:132 | When no "```json … ```" fence is found, the regular expression has no match at all. |
| AnalysisRoute.TrimmedGroupMatches | src/app/api/analysis/route.ts:132 | A "```json" and a later "```" frame a match whose group is the text between them, trimmed. |
| AnalysisRoute.FenceContentIsLeftmostMatch | src/app/api/analysis/route.ts:132 | The extracted group is that of a match starting no later than any other match. |
| AnalysisRoute.ExtractJson | src/app/api/analysis/route.ts:132-134 | The text given to `JSON.parse` is trimmed. It is the fence content when that is non-empty, and the whole reply, trimmed, when there is no fence or it is empty. |
| AnalysisRoute.NoFenceParsesWholeReply | src/app/api/analysis/route.ts:132-134 | Without a fence, the whole reply is parsed, trimmed. |
| AnalysisRoute.EmptyFenceParsesWholeReply | src/app/api/analysis/route.ts:133 | A fence with blank content counts as no fence. |
| AnalysisRoute.FenceRoundTrip | src/app/api/analysis/route.ts:132-134 | A body fenced after a preface and before an epilogue without backticks comes back trimmed. |
| AnalysisRoute.ChapterRows | src/app/api/analysis/route.ts:150-158 | One row per chapter, with `order` equal to its index and its fields copied. |
| ChatRoute.FormatTranscriptForChat | src/app/api/chat/route.ts:125-151 | The block lines with limit 150, joined by "\n". Empty input gives "". |
| ChatRoute.ChatMessages | src/app/api/chat/route.ts:38-96 | A missing or empty video id or message is the 400 "required" error. Otherwise the history, in order, is followed by exactly one user message. |
| YouTube.Component | src/lib/youtube.ts:36 | An optional `(\d+)X` component ends within the text. When absent it reads 0 and consumes nothing. |
| YouTube.ParseDuration | src/lib/youtube.ts:35-44 | Text with no "PT" gives 0. The result is a natural number. |
| YouTube.DurationRoundTrip | src/lib/youtube.ts:36-43 | `PT` with optional H, M and S parts, followed by text not starting with a digit, parses to h·3600 + m·60 + s. Missing parts count 0. |
| YouTube.DaysReadAsZero | src/lib/youtube.ts:37 | "P1D" and "P1DT2H" give 0. |
| YouTube.FirstMatch | src/lib/youtube.ts:53-56 | The leftmost position where the pattern matches, with its group, or none. |
| YouTube.ExtractPlaylistId | src/lib/youtube.ts:47-59 | A result is non-empty and has no `&`. Null exactly when neither `[?&]list=` nor a bare `PL` id matches. |
| YouTube.PlaylistUrlRoundTrip | src/lib/youtube.ts:49-56 | `?list=ID` or `&list=ID`, at the first `?` or `&`, yields the text up to the next `&`. |
| YouTube.BarePlaylistIdAccepted | src/lib/youtube.ts:50 | A string `PL[A-Za-z0-9_-]+` is returned whole. It cannot match the URL pattern, so the order of the patterns cannot be seen. |
| YouTube.ExtractVideoId | src/lib/youtube.ts:62-74 | A result is non-empty and holds none of `&`, newline, `?` and `#`. Null exactly when no link form and no bare 11-character id matches. |
| YouTube.VideoUrlRoundTrip | src/lib/youtube.ts:64-71 | A `youtube.com/watch?v=`, `youtu.be/` or `youtube.com/embed/` link yields the id up to `&`, `?`, `#`, a newline or the end. |
| YouTube.BareVideoIdAccepted | src/lib/youtube.ts:65 | An 11-character `[A-Za-z0-9_-]` string is returned whole. |
| ChatPanel.StampLength | src/components/learn/chat-panel.tsx:131 | A stamp at i is 4 or 5 characters: 1 or 2 digits, `:`, 2 digits. |
| ChatPanel.StampLengthIsMatch | src/components/learn/chat-panel.tsx:131 | A stamp is found exactly when the pattern matches at i. It is the longer match when one exists, as the greedy `\d{1,2}` takes it. |
| ChatPanel.NextStamp | src/components/learn/chat-panel.tsx:138 | The leftmost stamp from a position on, or −1. |
| ChatPanel.MatchesLeftmost | src/components/learn/chat-panel.tsx:131-158 | The stamps are leftmost and non-overlapping: none starts between one stamp's end and the next. |
| ChatPanel.LeftmostIsMatches | src/components/learn/chat-panel.tsx:131-158 | Any list of leftmost non-overlapping matches is the list the loop finds. |
| ChatPanel.MatchesLabelled | src/components/learn/chat-panel.tsx:154 | Every stamp's label is digits, `:`, digits. |
| ChatPanel.RenderMessageContent | src/components/learn/chat-panel.tsx:129-167 | The `while` loop returns the pieces of the content, or the content itself when there are none. |
| ChatPanel.RenderShowsContent | src/components/learn/chat-panel.tsx:138-164 | The text pieces and stamp labels, in order, spell the content exactly. No piece is empty. The plain result is returned only for empty content. |
| ChatPanel.NoStampOnePiece | src/components/learn/chat-panel.tsx:162-166 | Non-empty content without a stamp is a single text piece. |
| ChatPanel.SecondsNotRangeChecked | src/components/learn/chat-panel.tsx:144-146 | "1:75" is a stamp, and its seek time is 135. |
| ChatPanel.LeftmostMatchSkipsThirdDigit | src/components/learn/chat-panel.tsx:131-138 | "123:45" renders as text "1" and stamp "23:45", with seek time 1425. |
| ChatPanel.ChatHistory | src/components/learn/chat-panel.tsx:37-42 | Same length and order, and each entry's role and content. |
| ChatPanel.Panel.constructor | src/components/learn/chat-panel.tsx:24-27 | No messages, empty input, nothing in flight. |
| ChatPanel.Panel.Submit | src/components/learn/chat-panel.tsx:44-72 | A blank input or a request in flight changes nothing and sends nothing. Otherwise a user message with the trimmed input is appended and the input cleared, and the body holds the earlier history. |
| ChatPanel.Panel.CompleteStream | src/components/learn/chat-panel.tsx:97-125 | A non-empty reply is appended as an assistant message. The in-flight state is cleared. |
| ChatPanel.Panel.FailRequest | src/components/learn/chat-panel.tsx:106-125 | An abort adds nothing. Another failure appends its message, or the generic text. The in-flight state is cleared in every case. |
| ChatPanel.Panel.RejectResponse | src/components/learn/chat-panel.tsx:74-77 | A non-OK response shows the body's `error` text, or the fixed text when it is missing or empty, and clears the in-flight state. |
| ChatPanel.SubmitReachesModel | src/app/api/chat/route.ts:93-96 | The model receives the panel's messages after the submit, without their ids. |
| VideoSelector.Toggle | src/components/import/video-selector.tsx:62-72 | The id flips membership. Every other id is unchanged. |
| VideoSelector.ToggleTwice | src/components/import/video-selector.tsx:62-72 | Toggling the same id twice restores the selection. |
| VideoSelector.IdsOf | src/components/import/video-selector.tsx:75 | The ids of the loaded videos, exactly. |
| VideoSelector.ChosenVideosSpec | src/components/import/video-selector.tsx:89 | The videos sent are exactly the loaded ones with a selected id, in loaded order. |
| VideoSelector.SelectAllSendsAll | src/components/import/video-selector.tsx:74-89 | After select-all, every loaded video is sent. |
| VideoSelector.StaleSelectionCounted | src/components/import/video-selector.tsx:86-89 | A selected id that is not loaded counts in the total but sends nothing. |
| VideoSelector.FailureDefaults | src/components/import/video-selector.tsx:51-105 | The fixed failure texts appear only when no message comes back. A server `error` wins. |
| VideoSelector.Selector.constructor | src/components/import/video-selector.tsx:26-31 | Nothing loaded or selected, loading, no error, progress 0/0. |
| VideoSelector.Selector.StartFetch | src/components/import/video-selector.tsx:38-39 | Loading, with the error cleared. Nothing else changes. |
| VideoSelector.Selector.FinishFetch | src/components/import/video-selector.tsx:47-59 | The listed videos, or [] without `videos`, or the failure message. The selection is kept. Loading ends. |
| VideoSelector.Selector.ToggleSelect | src/components/import/video-selector.tsx:62-72 | The new selection is the toggle of the old one. Nothing else changes. |
| VideoSelector.Selector.SelectAll | src/components/import/video-selector.tsx:74-76 | The selection is the loaded ids. |
| VideoSelector.Selector.DeselectAll | src/components/import/video-selector.tsx:78-80 | The selection is empty. |
| VideoSelector.Selector.StartImport | src/components/import/video-selector.tsx:82-95 | An empty selection does nothing. Otherwise the state becomes importing, progress 0 of the selection size, and the chosen videos are posted. |
| VideoSelector.Selector.FinishImport | src/components/import/video-selector.tsx:97-108 | Completion is reported exactly on success, and otherwise the failure message is set. Importing ends in every case. |
| ImportModal.SubmitError | src/components/import/import-modal.tsx:36-44 | The error is cleared exactly when the URL matches the playlist pattern. |
| ImportModal.ScreenSpec | src/components/import/import-modal.tsx:105-205 | Nothing is shown when closed. The back button appears exactly when a source is chosen. A playlist reaches the selector exactly when its URL contains `list=`. Own videos reach it with no URL, then call import-complete and close. |
| ImportModal.InputScreenAcceptsOnlyBareIds | src/components/import/import-modal.tsx:38-44 | For a URL without `list=`, the pattern matches exactly when the URL starts with a bare `PL` id. |
| ImportModal.UnvalidatedUrlReachesSelector | src/components/import/import-modal.tsx:173-200 | "list=x" fails the pattern, yet it is handed to the selector. |
| ImportModal.SubmitKeepsInputScreen | src/components/import/import-modal.tsx:36-195 | Submitting on the input screen stays on it. It shows no error for a bare id and the fixed message otherwise. |
| ImportModal.Modal.constructor | src/components/import/import-modal.tsx:19-21 | No source, an empty URL and no error. |
| ImportModal.Modal.SelectSource | src/components/import/import-modal.tsx:25-28 | Sets the source and clears the error. The URL is kept. |
| ImportModal.Modal.Back | src/components/import/import-modal.tsx:30-34 | Resets the source, the URL and the error. |
| ImportModal.Modal.EditUrl | src/components/import/import-modal.tsx:182 | Sets the URL only. |
| ImportModal.Modal.SubmitPlaylist | src/components/import/import-modal.tsx:36-44 | The error becomes the validation result. The source and the URL are kept. |
| Login.ErrorMessage | src/app/login/page.tsx:51-66 | The default message is given exactly for codes outside the five known ones. |
| Login.KnownMessagesDistinct | src/app/login/page.tsx:52-62 | The five known codes have five different messages. |
| Login.LoginPage | src/app/login/page.tsx:14-20 | A session redirects to /dashboard, and only a session does. The message is absent exactly when `error` is missing or empty. Otherwise it is the code's message. |
| JsString.TrimSpec | src/lib/transcript.ts:119 | `trim` removes exactly the leading and trailing whitespace and leaves a contiguous slice. |
| JsString.TrimIdempotent | src/app/api/analysis/route.ts:134 | Trimming twice equals trimming once. |
| JsString.NatToStringDigits | src/lib/transcript-utils.ts:131-135 | A natural number's decimal string is a non-empty digit run that denotes it. |
| JsString.PadStart2Pads | src/lib/transcript-utils.ts:131-135 | `padStart(2, "0")` pads with leading zeros to two characters and keeps the text as its suffix. |
| JsString.ReplaceCharRemovesIt | src/lib/transcript.ts:118 | Replacing every newline by a space leaves no newline. |
| JsNumber.ParseFloat | src/lib/transcript-utils.ts:29 | A finite result needs a digit somewhere in the string. A string with no digit gives NaN or ±Infinity. |
| JsNumber.RemOfNonNegative | src/lib/transcript-utils.ts:127-128 | On a non-negative dividend, `%` is the floored remainder, in [0, y). |
| JsValue.Coalesce | src/lib/transcript-utils.ts:51-58 | A `??` chain gives the first non-nullish operand, or the last operand. |
| JsValue.CoalesceFirstDefined | src/lib/transcript-utils.ts:51-58 | The chain's value is the field at the index of the first defined operand. It is nullish when no operand is defined. |

## Left out

- Network, database and model calls are not modelled: `fetch`, Prisma, the Innertube client and its cache, the Anthropic SDK, NextAuth sessions and redirects. Their results are parameters: `Outcome`, `DeleteOutcome`, the `Result` arguments of `GetTranscript`, `hasSession`.
- The HTTP route handlers are not modelled: authorisation, 401/403/404 responses, the POST body of the analysis route, the listing routes and their 200-item cap, and the debug routes and scripts. They are plumbing around the pure steps that are modelled.
- JSX rendering, keys and class names are not modelled, nor scrolling effects, the streaming reader and its AbortController, or the YouTube player component. They are event- and DOM-driven, not sequential logic. The streamed reply arrives as the `accumulated` parameter of `ChatPanel.Panel.CompleteStream`.
- Console and debug logging, including the `index` argument of `normalizeSegment`, which only feeds logging.
- `Date.now()` is the `now` parameter of the chat panel's methods.
- IEEE-754 doubles are not modelled: numbers are exact reals. So rounding of `x / 1000` and `x * 1000`, precision loss above 2^53, and the rounding in `parseFloat` are not captured. Only overflow to ±Infinity is modelled, from 2^1024 − 2^970 up.
- JsValue.ToJsString spells out only integers below 10^21 in magnitude, booleans, `null`, `undefined`, objects, NaN and ±Infinity. Other finite numbers get the stand-in "", because the shortest round-trip decimal form of a double is out of scope. `JsValue.ParseFloatOf` gives the number back directly instead.
- TranscriptFetch.SnippetSegment maps a non-finite time value to 0, while the source keeps Infinity (and a NaN number), because a real cannot hold them. This covers a number field holding NaN or ±Infinity, and a string field that parses to ±Infinity ("Infinity", "1e400"), which `parseFloat(v) || 0` keeps.
- TranscriptFetch.SnippetSegment stores a truthy non-string `text` as its `String` form, because a segment's text is a string here. The source's `snippet.text || ""` keeps that value as it is, with no conversion.
- TranscriptPanel.PanelStartTime treats `start > 0` as true only for a positive finite number. JavaScript's coercing `>` on a numeric string or on +Infinity is not modelled.
- TranscriptPanel.PanelDuration: `duration > 0` is likewise taken as true only for a positive finite number. For a numeric string such as "5" the source returns the string itself, and the `start + duration` of the lookup then concatenates text. The model instead reads such a `duration` through the fallback.
- TranscriptFetch.MatchSegment maps a `start` or `dur` attribute that parses to ±Infinity ("Infinity", "1e400") to 0. The source's `parseFloat(…) || 0` keeps Infinity, which a real cannot hold. Only NaN becomes 0 there.
- String lengths count Unicode code points, not UTF-16 code units. The 150/200-character limits differ only for text outside the Basic Multilingual Plane.
- JSON.parse of the stored segments, of the model's reply and of request bodies is not modelled. Its input is modelled where it is computed (`AnalysisRoute.ExtractJson`).
- The seek handler of a chat stamp is not modelled as a callback. `ChatPanel.SeekTime` gives the seconds a label stands for.
- TranscriptFetch.MatchAt does not state that a match ends with `</text>`; nothing in the model needs that fact.
- `fetchVideos` builds its request URL with `encodeURIComponent`, which is not modelled; only the response handling is.
- Dashboard.Client.Delete filters the current list. The source filters the `videos` captured by the click handler. The two differ only if the list changed between render and click.
- VideoSelector.YouTubeVideo's `duration` is a natural number, because the listing routes produce whole seconds. Fractional durations are not modelled.
- The import dialog's `isOpen` prop is a parameter of `ImportModal.Modal.View`. The dialog's state survives closing, as the component's hooks do.
- `VideoSelector` re-fetches when its `source` or `playlistUrl` changes. That effect is not modelled; the fetch is the pair `StartFetch`/`FinishFetch`.
- The chat panel's empty `history` case on the server (`history = []` when absent) is modelled. A `null` history, which would make the spread throw, is not.

