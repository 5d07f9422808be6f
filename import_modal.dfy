/** The import dialog (src/components/import/import-modal.tsx): which source
    is chosen, the playlist URL typed so far, the validation message, and
    the rule that picks the screen shown from them. */
module ImportModal {
  import opened Wrappers
  import opened JsString
  import YouTube

  datatype Source = MyVideos | Playlist

  /** The callbacks the selector's `onImportComplete` runs, in order. */
  datatype Callback = ImportComplete | Close

  /** What the dialog body shows. */
  datatype Content =
    | SourceChooser
    | UrlInput(url: string, shownError: Option<string>)
    | Selector(source: Source, playlistUrl: Option<string>, onComplete: seq<Callback>)

  /** The whole dialog: nothing, or a header (with or without the back button) over a body. */
  datatype Screen = Hidden | Shown(backButton: bool, content: Content)

  const HostPrefix: string := "youtube.com/"
  const ListParam: string := "list=PL"

  /** A regular-expression `.`: anything but a line terminator. */
  predicate NoLineBreak(url: string, from: nat, to: nat)
    requires from <= to <= |url|
  {
    forall t :: from <= t < to ==> !IsLineTerminator(url[t])
  }

  /** The first alternative of `/(?:youtube\.com\/.*[?&]list=|^)(PL[a-zA-Z0-9_-]+)/`
      matched with `youtube.com/` at `p` and the `?` or `&` at `q`, followed by
      `list=PL` and at least one id character. */
  predicate HostMatchAt(url: string, p: nat, q: nat) {
    p + |HostPrefix| <= q && q + |ListParam| + 1 < |url| &&
    OccursAt(url, p, HostPrefix) && NoLineBreak(url, p + |HostPrefix|, q) &&
    (url[q] == '?' || url[q] == '&') && OccursAt(url, q + 1, ListParam) && YouTube.IsIdChar(url[q + |ListParam| + 1])
  }

  /** The second alternative: `PL` and an id character at the start of the text. */
  predicate BareMatch(url: string) {
    |url| > 2 && url[0] == 'P' && url[1] == 'L' && YouTube.IsIdChar(url[2])
  }

  /** `playlistPattern.test(url)`: the pattern matches somewhere. A match
      needs only one id character after `PL`, so the greedy `+` never
      decides acceptance. */
  predicate MatchesPlaylistPattern(url: string) {
    BareMatch(url) || exists p, q :: 0 <= p <= q < |url| && HostMatchAt(url, p, q)
  }

  const InvalidUrl: string := "有効なYouTubeプレイリストURLを入力してください"

  /** The error `handlePlaylistSubmit` leaves. */
  function SubmitError(url: string): (e: string)
    ensures e == "" <==> MatchesPlaylistPattern(url)
  {
    if MatchesPlaylistPattern(url) then "" else InvalidUrl
  }

  /** The screen rule: nothing when closed; the source chooser with no
      source; the URL input for a playlist URL without `list=`; otherwise the
      selector, which receives the URL only for a playlist and closes the
      dialog after reporting completion. */
  function ScreenOf(isOpen: bool, source: Option<Source>, url: string, error: string): Screen {
    if !isOpen then Hidden
    else if source.None? then Shown(false, SourceChooser)
    else if source.value == Playlist && !Contains(url, "list=") then
      Shown(true, UrlInput(url, if error != "" then Some(error) else None))
    else
      Shown(true, Selector(source.value, if source.value == Playlist then Some(url) else None, [ImportComplete, Close]))
  }

  /** The screen in terms of the state: closed shows nothing; the back button
      is there exactly when a source is chosen; the selector is reached for
      a playlist exactly when the URL contains `list=`. */
  lemma ScreenSpec(isOpen: bool, source: Option<Source>, url: string, error: string)
    ensures ScreenOf(isOpen, source, url, error).Hidden? <==> !isOpen
    ensures isOpen ==> (ScreenOf(isOpen, source, url, error).backButton <==> source.Some?)
    ensures isOpen && source == Some(Playlist) ==>
              (ScreenOf(isOpen, source, url, error).content.Selector? <==> Contains(url, "list="))
    ensures isOpen && source == Some(MyVideos) ==>
              ScreenOf(isOpen, source, url, error).content == Selector(MyVideos, None, [ImportComplete, Close])
  {
  }

  /** On the URL input screen the URL has no `list=`, so only the bare-id
      alternative can pass validation. */
  lemma {:induction false} InputScreenAcceptsOnlyBareIds(url: string)
    requires !Contains(url, "list=")
    ensures MatchesPlaylistPattern(url) <==> BareMatch(url)
  {
    if exists p, q :: 0 <= p <= q < |url| && HostMatchAt(url, p, q) {
      var p, q :| 0 <= p <= q < |url| && HostMatchAt(url, p, q);
      ListParamHasList(url, q + 1);
    }
  }

  /** An occurrence of `list=PL` is an occurrence of `list=`. */
  lemma ListParamHasList(url: string, k: nat)
    requires OccursAt(url, k, ListParam)
    ensures Contains(url, "list=")
  {
    assert url[k..k + 5] == url[k..k + |ListParam|][..5];
    assert OccursAt(url, k, "list=");
  }

  /** A URL with `list=` goes straight to the selector without validation:
      "list=x" fails the pattern yet is handed to the selector. */
  lemma UnvalidatedUrlReachesSelector()
    ensures !MatchesPlaylistPattern("list=x")
    ensures ScreenOf(true, Some(Playlist), "list=x", "") == Shown(true, Selector(Playlist, Some("list=x"), [ImportComplete, Close]))
  {
    var url := "list=x";
    assert OccursAt(url, 0, "list=");
    assert !BareMatch(url);
  }

  class Modal {
    var source: Option<Source>
    var playlistUrl: string
    var playlistError: string

    constructor ()
      ensures source.None? && playlistUrl == "" && playlistError == ""
    {
      source := None;
      playlistUrl := "";
      playlistError := "";
    }

    /** The screen for the current state; the state is kept while the dialog is closed. */
    function View(isOpen: bool): Screen
      reads this
    {
      ScreenOf(isOpen, source, playlistUrl, playlistError)
    }

    /** `handleSourceSelect`. */
    method SelectSource(selected: Source)
      modifies this
      ensures source == Some(selected) && playlistError == "" && playlistUrl == old(playlistUrl)
    {
      source := Some(selected);
      playlistError := "";
    }

    /** `handleBack`. */
    method Back()
      modifies this
      ensures source.None? && playlistUrl == "" && playlistError == ""
    {
      source := None;
      playlistUrl := "";
      playlistError := "";
    }

    /** The URL field's `onChange`. */
    method EditUrl(url: string)
      modifies this
      ensures playlistUrl == url && source == old(source) && playlistError == old(playlistError)
    {
      playlistUrl := url;
    }

    /** `handlePlaylistSubmit`: only the error changes. */
    method SubmitPlaylist()
      modifies this
      ensures playlistError == SubmitError(playlistUrl)
      ensures source == old(source) && playlistUrl == old(playlistUrl)
    {
      if !MatchesPlaylistPattern(playlistUrl) {
        playlistError := InvalidUrl;
        return;
      }
      playlistError := "";
    }
  }

  /** Submitting never leaves the URL input screen: the screen depends on the
      URL and the source, which the submit keeps; a bare playlist id is
      accepted, clears the error and stays on the input. */
  lemma SubmitKeepsInputScreen(url: string, error: string)
    requires !Contains(url, "list=")
    ensures ScreenOf(true, Some(Playlist), url, SubmitError(url)).content.UrlInput?
    ensures BareMatch(url) ==> ScreenOf(true, Some(Playlist), url, SubmitError(url)) == Shown(true, UrlInput(url, None))
    ensures !BareMatch(url) ==> ScreenOf(true, Some(Playlist), url, SubmitError(url)) == Shown(true, UrlInput(url, Some(InvalidUrl)))
  {
    InputScreenAcceptsOnlyBareIds(url);
  }
}
