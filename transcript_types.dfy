/** The normalised caption segment shared by every part of the application
    (src/types/transcript.ts and the local copies of the same interface). */
module TranscriptTypes {
  /** `{text, start, duration}`, with both times in seconds. */
  datatype Segment = Segment(text: string, start: real, duration: real)

  function Max0(x: real): (r: real)
    ensures r >= 0.0 && r >= x
    ensures r == x || r == 0.0
  {
    if x > 0.0 then x else 0.0
  }
}
