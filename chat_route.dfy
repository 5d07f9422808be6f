/** src/app/api/chat/route.ts: the pure steps of a chat request. The transcript
    is grouped into `[M:SS] text` lines with a 150-character limit, a request
    lacking a video id or a message is refused before any lookup, and the
    model receives the history followed by the new user message. Sign-in, the
    database lookups, `JSON.parse` and the streamed reply are not modelled. */
module ChatRoute {
  import opened JsString
  import opened Wrappers
  import opened TranscriptTypes
  import TranscriptBlocks

  /** The character limit of `formatTranscriptForChat`. */
  const ChatLimit: nat := 150

  /** `formatTranscriptForChat`. */
  method FormatTranscriptForChat(segments: seq<Segment>) returns (r: string)
    ensures r == Join(TranscriptBlocks.BlockLines(segments, ChatLimit), "\n")
    ensures segments == [] ==> r == ""
  {
    r := TranscriptBlocks.FormatBlocks(segments, ChatLimit);
  }

  datatype Role = User | Assistant

  /** `{ role, content }`, as the request body and the model both take it. */
  datatype ChatMessage = ChatMessage(role: Role, content: string)

  /** The request body: a string field that is absent or `null` is `None`, and
      an absent `history` takes the default `[]`. */
  datatype ChatRequest = ChatRequest(videoId: Option<string>, message: Option<string>, history: Option<seq<ChatMessage>>)

  /** An error response: its status and its `error` text. */
  datatype HttpError = HttpError(status: nat, error: string)

  /** A string field is truthy: present and not empty. */
  predicate Present(field: Option<string>) {
    field.Some? && field.value != []
  }

  const MissingFields: HttpError := HttpError(400, "Video ID and message are required")

  /** `history = []`: the destructuring default. */
  function HistoryOf(request: ChatRequest): seq<ChatMessage> {
    if request.history.Some? then request.history.value else []
  }

  /** The `messages` handed to the model, or the 400 response of the guard,
      which comes before every lookup. */
  function ChatMessages(request: ChatRequest): (r: Result<seq<ChatMessage>, HttpError>)
    ensures r.Err? <==> !Present(request.videoId) || !Present(request.message)
    ensures r.Err? ==> r.error == MissingFields
    ensures r.Ok? ==> |r.value| == |HistoryOf(request)| + 1
    ensures r.Ok? ==> r.value[..|HistoryOf(request)|] == HistoryOf(request)
    ensures r.Ok? ==> r.value[|HistoryOf(request)|] == ChatMessage(User, request.message.value)
  {
    if !Present(request.videoId) || !Present(request.message) then Err(MissingFields)
    else Ok(HistoryOf(request) + [ChatMessage(User, request.message.value)])
  }
}
