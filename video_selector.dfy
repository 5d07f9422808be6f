/** The video selector of the import dialog (src/components/import/video-selector.tsx):
    the loaded videos, the set of selected ids, and the handlers that change
    the selection and start the import. The requests themselves are outside
    the model; their outcomes are parameters. */
module VideoSelector {
  import opened Wrappers
  import opened Sequences

  /** One video as the listing routes return it. */
  datatype YouTubeVideo = YouTubeVideo(
    videoId: string,
    title: string,
    thumbnailUrl: string,
    duration: nat,
    publishedAt: string,
    privacyStatus: string,
    description: string)

  /** `{ current, total }` of the progress display. */
  datatype Progress = Progress(current: nat, total: nat)

  /** How a request ended: a response with `ok`, a response without `ok`
      (with its `error` field, if any), or an exception (with its message when
      it is an `Error`). */
  datatype Outcome<+T> = Succeeded(value: T) | Refused(errorField: Option<string>) | Thrown(message: Option<string>)

  /** The selection after clicking a video: its id leaves the set if it was
      there and joins it otherwise. */
  function Toggle(selected: set<string>, id: string): (r: set<string>)
    ensures id in r <==> id !in selected
    ensures forall other :: other != id ==> (other in r <==> other in selected)
  {
    if id in selected then selected - {id} else selected + {id}
  }

  /** Toggling the same id twice restores the selection. */
  lemma ToggleTwice(selected: set<string>, id: string)
    ensures Toggle(Toggle(selected, id), id) == selected
  {
  }

  /** The ids of the loaded videos. */
  function IdsOf(videos: seq<YouTubeVideo>): (r: set<string>)
    ensures forall id :: id in r <==> exists v :: v in videos && v.videoId == id
  {
    set v | v in videos :: v.videoId
  }

  /** The videos sent by the import: the loaded ones whose id is selected. */
  function ChosenVideos(videos: seq<YouTubeVideo>, selected: set<string>): seq<YouTubeVideo> {
    Filter((v: YouTubeVideo) => v.videoId in selected, videos)
  }

  /** What the import sends: exactly the loaded videos with a selected id,
      in the order they were loaded. */
  lemma ChosenVideosSpec(videos: seq<YouTubeVideo>, more: seq<YouTubeVideo>, selected: set<string>)
    ensures forall v :: v in ChosenVideos(videos, selected) <==> v in videos && v.videoId in selected
    ensures ChosenVideos(videos + more, selected) == ChosenVideos(videos, selected) + ChosenVideos(more, selected)
  {
    FilterAppend((v: YouTubeVideo) => v.videoId in selected, videos, more);
  }

  /** After "select all" the import sends every loaded video. */
  lemma SelectAllSendsAll(videos: seq<YouTubeVideo>)
    ensures ChosenVideos(videos, IdsOf(videos)) == videos
  {
    FilterKeepsAll((v: YouTubeVideo) => v.videoId in IdsOf(videos), videos);
  }

  /** Ids left selected from an earlier listing are counted by the progress
      total but send nothing: with `a` and `b` selected and only `a` loaded,
      the total is 2 and one video is sent. */
  lemma StaleSelectionCounted(a: YouTubeVideo, b: string)
    requires a.videoId != b
    ensures |{a.videoId, b}| == 2
    ensures ChosenVideos([a], {a.videoId, b}) == [a]
  {
    assert [a][1..] == [];
  }

  /** The message shown when loading the videos fails. */
  function FetchFailure(outcome: Outcome<Option<seq<YouTubeVideo>>>): string
    requires !outcome.Succeeded?
  {
    match outcome
    case Refused(field) => if field.Some? && field.value != [] then field.value else "動画の取得に失敗しました"
    case Thrown(message) => if message.Some? then message.value else "エラーが発生しました"
  }

  /** The message shown when the import fails. */
  function ImportFailure(outcome: Outcome<()>): string
    requires !outcome.Succeeded?
  {
    match outcome
    case Refused(field) => if field.Some? && field.value != [] then field.value else "インポートに失敗しました"
    case Thrown(message) => if message.Some? then message.value else "インポートエラー"
  }

  /** The fixed texts stand in only when no message comes back; a
      non-empty `error` field from the server wins. */
  lemma FailureDefaults()
    ensures FetchFailure(Refused(None)) == "動画の取得に失敗しました"
    ensures FetchFailure(Thrown(None)) == "エラーが発生しました"
    ensures ImportFailure(Refused(Some(""))) == "インポートに失敗しました"
    ensures ImportFailure(Thrown(None)) == "インポートエラー"
    ensures ImportFailure(Refused(Some("quota"))) == "quota"
  {
  }

  class Selector {
    var videos: seq<YouTubeVideo>
    var selectedIds: set<string>
    var loading: bool
    var importing: bool
    var error: string
    var progress: Progress

    constructor ()
      ensures videos == [] && selectedIds == {} && loading && !importing && error == "" && progress == Progress(0, 0)
    {
      videos := [];
      selectedIds := {};
      loading := true;
      importing := false;
      error := "";
      progress := Progress(0, 0);
    }

    /** `fetchVideos` before its request. */
    method StartFetch()
      modifies this
      ensures loading && error == ""
      ensures videos == old(videos) && selectedIds == old(selectedIds) && importing == old(importing) && progress == old(progress)
    {
      loading := true;
      error := "";
    }

    /** `fetchVideos` after its request: the listed videos (none when the
        body has no `videos`), or an error message; the selection is kept. */
    method FinishFetch(outcome: Outcome<Option<seq<YouTubeVideo>>>)
      modifies this
      ensures outcome.Succeeded? ==>
                videos == (if outcome.value.Some? then outcome.value.value else []) && error == old(error)
      ensures !outcome.Succeeded? ==> videos == old(videos) && error == FetchFailure(outcome)
      ensures !loading && selectedIds == old(selectedIds) && importing == old(importing) && progress == old(progress)
    {
      if outcome.Succeeded? {
        videos := if outcome.value.Some? then outcome.value.value else [];
      } else {
        error := FetchFailure(outcome);
      }
      loading := false;
    }

    /** `toggleSelect`: a copy of the set with the id removed or added. */
    method ToggleSelect(videoId: string)
      modifies this
      ensures selectedIds == Toggle(old(selectedIds), videoId)
      ensures videos == old(videos) && loading == old(loading) && importing == old(importing)
      ensures error == old(error) && progress == old(progress)
    {
      var next := selectedIds;
      if videoId in next {
        next := next - {videoId};
      } else {
        next := next + {videoId};
      }
      selectedIds := next;
    }

    /** `selectAll`: the ids of the loaded videos. */
    method SelectAll()
      modifies this
      ensures selectedIds == IdsOf(videos)
      ensures videos == old(videos) && loading == old(loading) && importing == old(importing)
      ensures error == old(error) && progress == old(progress)
    {
      selectedIds := set v | v in videos :: v.videoId;
    }

    /** `deselectAll`: the empty set. */
    method DeselectAll()
      modifies this
      ensures selectedIds == {}
      ensures videos == old(videos) && loading == old(loading) && importing == old(importing)
      ensures error == old(error) && progress == old(progress)
    {
      selectedIds := {};
    }

    /** `handleImport` up to its request: nothing with an empty selection,
        otherwise the videos to post, with the progress total set to the
        size of the selection. */
    method StartImport() returns (request: Option<seq<YouTubeVideo>>)
      modifies this
      ensures old(selectedIds) == {} ==>
                request.None? && importing == old(importing) && progress == old(progress)
      ensures old(selectedIds) != {} ==>
                request == Some(ChosenVideos(videos, selectedIds)) && importing &&
                progress == Progress(0, |selectedIds|)
      ensures videos == old(videos) && selectedIds == old(selectedIds) && loading == old(loading) && error == old(error)
    {
      if |selectedIds| == 0 {
        return None;
      }
      importing := true;
      progress := Progress(0, |selectedIds|);
      request := Some(ChosenVideos(videos, selectedIds));
    }

    /** `handleImport` after its request: `true` when `onImportComplete` is
        called, otherwise the error message is set; `importing` is cleared in
        every case. */
    method FinishImport(outcome: Outcome<()>) returns (completed: bool)
      modifies this
      ensures completed <==> outcome.Succeeded?
      ensures error == if outcome.Succeeded? then old(error) else ImportFailure(outcome)
      ensures !importing
      ensures videos == old(videos) && selectedIds == old(selectedIds) && loading == old(loading) && progress == old(progress)
    {
      completed := outcome.Succeeded?;
      if !completed {
        error := ImportFailure(outcome);
      }
      importing := false;
    }
  }
}
