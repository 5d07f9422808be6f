/** The dashboard client (src/app/dashboard/dashboard-client.tsx): the list of
    imported videos, the delete button's effect on it, the import dialog's
    open flag and the duration label of each card. */
module Dashboard {
  import opened Wrappers
  import opened JsString
  import opened Sequences
  import opened Clock

  /** One stored video as the page lists it. */
  datatype Video = Video(
    id: string,
    videoId: string,
    title: string,
    thumbnailUrl: Option<string>,
    duration: Option<nat>,
    createdAt: nat)

  /** `formatDuration` of the dashboard: a placeholder for a missing or zero
      duration, the whole-second label otherwise. */
  function DurationLabel(seconds: Option<nat>): string {
    if seconds.None? || seconds.value == 0 then "--:--" else FormatDuration(seconds.value)
  }

  /** The placeholder is shown exactly for a missing or zero duration; any
      other duration reads back from its label. */
  lemma DurationLabelSpec(seconds: Option<nat>)
    ensures DurationLabel(seconds) == "--:--" <==> seconds.None? || seconds.value == 0
    ensures seconds.Some? && seconds.value > 0 ==> ReadClock(DurationLabel(seconds)) == seconds
  {
    if seconds.Some? && seconds.value > 0 {
      DurationLabelRoundTrip(seconds.value);
      assert ReadClock("--:--") == None by {
        assert DigitEnd("--:--", 0) == 0;
      }
    }
  }

  /** The list after a successful delete of `id`: every other video, in order. */
  function Without(videos: seq<Video>, id: string): seq<Video> {
    Filter((v: Video) => v.id != id, videos)
  }

  /** Deleting drops exactly the entries with that id and keeps the order of
      the rest; deleting again, or deleting an id that is not listed, changes
      nothing. */
  lemma WithoutSpec(videos: seq<Video>, more: seq<Video>, id: string)
    ensures forall v :: v in Without(videos, id) <==> v in videos && v.id != id
    ensures Without(videos + more, id) == Without(videos, id) + Without(more, id)
    ensures Without(Without(videos, id), id) == Without(videos, id)
    ensures (forall v :: v in videos ==> v.id != id) ==> Without(videos, id) == videos
  {
    var keep := (v: Video) => v.id != id;
    FilterAppend(keep, videos, more);
    FilterIdempotent(keep, videos);
    if forall v :: v in videos ==> v.id != id {
      FilterKeepsAll(keep, videos);
    }
  }

  /** How the delete request ended. */
  datatype DeleteOutcome = Deleted | NotDeleted | Failed

  class Client {
    var videos: seq<Video>
    var isModalOpen: bool

    constructor (initialVideos: seq<Video>)
      ensures videos == initialVideos && !isModalOpen
    {
      videos := initialVideos;
      isModalOpen := false;
    }

    /** The delete button of a card: on success the list loses that id; on a
        refused or failed request the list stays and an alert is returned. */
    method Delete(id: string, outcome: DeleteOutcome) returns (alert: Option<string>)
      modifies this
      ensures outcome == Deleted ==> videos == Without(old(videos), id) && alert.None?
      ensures outcome == NotDeleted ==> videos == old(videos) && alert == Some("削除に失敗しました")
      ensures outcome == Failed ==> videos == old(videos) && alert == Some("エラーが発生しました")
      ensures isModalOpen == old(isModalOpen)
    {
      match outcome
      case Deleted =>
        videos := Without(videos, id);
        alert := None;
      case NotDeleted =>
        alert := Some("削除に失敗しました");
      case Failed =>
        alert := Some("エラーが発生しました");
    }

    /** Either import button opens the dialog. */
    method OpenImport()
      modifies this
      ensures isModalOpen && videos == old(videos)
    {
      isModalOpen := true;
    }

    /** The dialog's `onClose` closes it. */
    method CloseImport()
      modifies this
      ensures !isModalOpen && videos == old(videos)
    {
      isModalOpen := false;
    }
  }
}
