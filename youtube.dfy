/** The string helpers of src/lib/youtube.ts: the `PT#H#M#S` subset of
    ISO 8601 durations (section 4.4.3.2 of ISO 8601:2004, the format with
    designators), and the extraction of a playlist id and of a video id from
    a URL or a bare id. Each extractor tries its regular expressions in order
    and returns the first group of the first one that matches. */
module YouTube {
  import opened JsString
  import opened Wrappers

  // ---------------------------------------------------------------------
  // parseDuration

  /** One optional `(?:(\d+)X)?` group at `i`: the digit run and its designator
      give the value and the index after them; otherwise the group matches
      nothing, counts 0 and leaves the index where it was. */
  function Component(s: string, i: nat, designator: char): (r: (nat, nat))
    requires i <= |s|
    ensures i <= r.1 <= |s|
    ensures r.1 == i ==> r.0 == 0
  {
    var d := DigitEnd(s, i);
    if d > i && d < |s| && s[d] == designator then (DigitsValue(s[i..d]), d + 1) else (0, i)
  }

  /** `parseDuration`: the leftmost `PT`, then hours, minutes and seconds, each
      optional and in that order; without a `PT` the duration is 0. */
  function ParseDuration(duration: string): (r: nat)
    ensures IndexOf(duration, "PT", 0) == -1 ==> r == 0
  {
    var p := IndexOf(duration, "PT", 0);
    if p == -1 then 0
    else
      var hours := Component(duration, p + 2, 'H');
      var minutes := Component(duration, hours.1, 'M');
      var seconds := Component(duration, minutes.1, 'S');
      hours.0 * 3600 + minutes.0 * 60 + seconds.0
  }

  /** A present component is written as its digits and its designator. */
  function Part(n: Option<nat>, designator: char): string {
    if n.Some? then NatToString(n.value) + [designator] else ""
  }

  function OrZero(n: Option<nat>): nat {
    if n.Some? then n.value else 0
  }

  /** The duration written with designators: `PT`, then whichever of hours,
      minutes and seconds are present. */
  function IsoDuration(hours: Option<nat>, minutes: Option<nat>, seconds: Option<nat>): string {
    "PT" + Part(hours, 'H') + Part(minutes, 'M') + Part(seconds, 'S')
  }

  /** At a written component the group reads its value and steps past the
      designator; a group with another designator matches nothing there. */
  lemma ReadsPart(s: string, i: nat, n: nat, designator: char)
    requires !IsDigit(designator)
    requires OccursAt(s, i, NatToString(n) + [designator])
    ensures Component(s, i, designator) == (n, i + |NatToString(n)| + 1)
    ensures forall other {:trigger Component(s, i, other)} :: other != designator ==> Component(s, i, other) == (0, i)
  {
    var digits := NatToString(n);
    var j := i + |digits|;
    NatToStringDigits(n);
    assert s[i..j] == s[i..j + 1][..|digits|] == digits;
    assert s[j] == s[i..j + 1][|digits|] == designator;
    DigitEndAt(s, i, j);
  }

  /** A component slot `s[i..j]`: a written component is read with its
      designator, and any other designator's group matches nothing there; a
      missing one is empty. */
  lemma SlotReads(s: string, i: nat, j: nat, n: Option<nat>, designator: char)
    requires !IsDigit(designator) && i <= j <= |s| && s[i..j] == Part(n, designator)
    ensures n.Some? ==> Component(s, i, designator) == (n.value, j)
    ensures n.Some? ==> forall other {:trigger Component(s, i, other)} :: other != designator ==> Component(s, i, other) == (0, i)
    ensures n.None? ==> i == j
  {
    if n.Some? {
      ReadsPart(s, i, n.value, designator);
    }
  }

  /** Where no digit follows, every group matches nothing. */
  lemma NoDigitNoComponent(s: string, i: nat)
    requires i <= |s| && (i == |s| || !IsDigit(s[i]))
    ensures forall d {:trigger Component(s, i, d)} :: Component(s, i, d) == (0, i)
  {
  }

  /** `parseDuration` inverts the writing of a duration: the value is
      hours·3600 + minutes·60 + seconds, a missing component counting 0,
      whatever follows when it does not begin with a digit. */
  lemma DurationRoundTrip(hours: Option<nat>, minutes: Option<nat>, seconds: Option<nat>, post: string)
    requires post == [] || !IsDigit(post[0])
    ensures ParseDuration(IsoDuration(hours, minutes, seconds) + post) ==
              OrZero(hours) * 3600 + OrZero(minutes) * 60 + OrZero(seconds)
  {
    var ph, pm, ps := Part(hours, 'H'), Part(minutes, 'M'), Part(seconds, 'S');
    var s := "PT" + ph + pm + ps + post;
    assert s == IsoDuration(hours, minutes, seconds) + post;
    IsoLayout(ph, pm, ps, post);
    var a := 2 + |ph|;
    var b := a + |pm|;
    IndexOfFirst(s, "PT", 0, 0);
    ReadsSlots(s, a, b, b + |ps|, hours, minutes, seconds);
  }

  /** Where the pieces of a written duration sit. */
  lemma IsoLayout(ph: string, pm: string, ps: string, post: string)
    ensures var s := "PT" + ph + pm + ps + post;
            var a := 2 + |ph|; var b := a + |pm|; var e := b + |ps|;
            |s| == e + |post| && s[0..2] == "PT" && s[2..a] == ph && s[a..b] == pm && s[b..e] == ps &&
            (post != [] ==> s[e] == post[0])
  {
  }

  /** Three slots after a leading `PT`, followed by no digit, read as their values. */
  lemma ReadsSlots(s: string, a: nat, b: nat, e: nat, hours: Option<nat>, minutes: Option<nat>, seconds: Option<nat>)
    requires IndexOf(s, "PT", 0) == 0 && 2 <= a <= b <= e <= |s|
    requires s[2..a] == Part(hours, 'H') && s[a..b] == Part(minutes, 'M') && s[b..e] == Part(seconds, 'S')
    requires e == |s| || !IsDigit(s[e])
    ensures ParseDuration(s) == OrZero(hours) * 3600 + OrZero(minutes) * 60 + OrZero(seconds)
  {
    NoDigitNoComponent(s, e);
    SlotReads(s, b, e, seconds, 'S');
    assert Component(s, b, 'S') == (OrZero(seconds), e);
    assert Component(s, b, 'M') == (0, b) && Component(s, b, 'H') == (0, b);
    SlotReads(s, a, b, minutes, 'M');
    assert Component(s, a, 'M') == (OrZero(minutes), b);
    assert Component(s, a, 'H') == (0, a);
    SlotReads(s, 2, a, hours, 'H');
    assert Component(s, 2, 'H') == (OrZero(hours), a);
    ReadsComponents(s, a, b, e, OrZero(hours), OrZero(minutes), OrZero(seconds));
  }

  /** `parseDuration` adds up the three groups read after a leading `PT`. */
  lemma ReadsComponents(s: string, a: nat, b: nat, e: nat, h: nat, m: nat, sec: nat)
    requires IndexOf(s, "PT", 0) == 0 && 2 <= |s|
    requires Component(s, 2, 'H') == (h, a) && a <= |s|
    requires Component(s, a, 'M') == (m, b) && b <= |s|
    requires Component(s, b, 'S') == (sec, e)
    ensures ParseDuration(s) == h * 3600 + m * 60 + sec
  {
    var p := IndexOf(s, "PT", 0);
    assert p + 2 == 2;
    var hours := Component(s, p + 2, 'H');
    assert hours == (h, a);
    var minutes := Component(s, hours.1, 'M');
    assert minutes == (m, b);
    var seconds := Component(s, minutes.1, 'S');
    assert seconds == (sec, e);
  }

  /** A duration in days has no `PT`, so it reads as 0. */
  lemma DaysReadAsZero()
    ensures ParseDuration("P1D") == 0
    ensures ParseDuration("P1DT2H") == 0
  {
    assert "P1D"[0..2][1] == '1' && "P1D"[1..3][0] == '1';
    assert "P1DT2H"[0..2][1] == '1' && "P1DT2H"[1..3][0] == '1' && "P1DT2H"[2..4][0] == 'D';
    assert "P1DT2H"[3..5][0] == 'T' && "P1DT2H"[4..6][0] == '2';
  }

  // ---------------------------------------------------------------------
  // A leftmost search, as `String.prototype.match` without the global flag

  /** The leftmost position from `from` on where `matcher` finds a group, with the group. */
  function FirstMatch(matcher: (string, nat) -> Option<string>, s: string, from: nat): (r: Option<(nat, string)>)
    decreases |s| + 1 - from
    ensures r.Some? ==> from <= r.value.0 <= |s| && matcher(s, r.value.0) == Some(r.value.1)
    ensures r.Some? ==> forall j :: from <= j < r.value.0 ==> matcher(s, j).None?
    ensures r.None? ==> forall j :: from <= j <= |s| ==> matcher(s, j).None?
  {
    if from > |s| then None
    else if matcher(s, from).Some? then Some((from, matcher(s, from).value))
    else FirstMatch(matcher, s, from + 1)
  }

  /** The match at `k` is the one found when nothing matches before it. */
  lemma {:induction false} FirstMatchAt(matcher: (string, nat) -> Option<string>, s: string, from: nat, k: nat)
    requires from <= k <= |s| && matcher(s, k).Some?
    requires forall j :: from <= j < k ==> matcher(s, j).None?
    decreases k - from
    ensures FirstMatch(matcher, s, from) == Some((k, matcher(s, k).value))
  {
    if from < k {
      FirstMatchAt(matcher, s, from + 1, k);
    }
  }

  /** `[a-zA-Z0-9_-]`. */
  predicate IsIdChar(c: char) {
    'a' <= c <= 'z' || 'A' <= c <= 'Z' || '0' <= c <= '9' || c == '_' || c == '-'
  }

  // ---------------------------------------------------------------------
  // extractPlaylistId

  /** `/[?&]list=([^&]+)/` at `i`: the group runs to the next `&` and is not empty. */
  function ListParamAt(url: string, i: nat): (r: Option<string>)
    ensures r.Some? ==> r.value != [] && '&' !in r.value
  {
    if i < |url| && (url[i] == '?' || url[i] == '&') && OccursAt(url, i + 1, "list=") then
      var a := i + 6;
      var e := SkipUntil(url, a, '&');
      if e > a then Some(url[a..e]) else None
    else None
  }

  /** `/^(PL[a-zA-Z0-9_-]+)$/`. */
  predicate IsBarePlaylistId(s: string) {
    |s| >= 3 && s[0] == 'P' && s[1] == 'L' && forall i :: 2 <= i < |s| ==> IsIdChar(s[i])
  }

  /** `extractPlaylistId`: the `list` parameter of a URL, else a bare
      playlist id, else nothing. The result is never empty and never holds `&`. */
  function ExtractPlaylistId(url: string): (r: Option<string>)
    ensures r.Some? ==> r.value != [] && '&' !in r.value
    ensures r.None? <==> (forall j :: 0 <= j <= |url| ==> ListParamAt(url, j).None?) && !IsBarePlaylistId(url)
  {
    var param := FirstMatch(ListParamAt, url, 0);
    if param.Some? then Some(param.value.1)
    else if IsBarePlaylistId(url) then
      assert forall i :: 0 <= i < |url| ==> url[i] != '&' by {
        assert url[0] == 'P' && url[1] == 'L';
      }
      Some(url)
    else None
  }

  /** A URL whose first `?` or `&` starts `list=` yields the parameter's value,
      which runs to the next `&` or to the end. */
  lemma PlaylistUrlRoundTrip(pre: string, separator: char, id: string, post: string)
    requires '?' !in pre && '&' !in pre
    requires separator == '?' || separator == '&'
    requires id != [] && '&' !in id
    requires post == [] || post[0] == '&'
    ensures ExtractPlaylistId(pre + [separator] + "list=" + id + post) == Some(id)
  {
    var url := pre + [separator] + "list=" + id + post;
    var k := |pre|;
    var a := k + 6;
    assert url[k + 1..a] == "list=";
    forall j | 0 <= j < k
      ensures ListParamAt(url, j).None?
    {
      assert url[j] == pre[j];
    }
    assert url[a..a + |id|] == id;
    SkipUntilStops(url, a, a + |id|, '&');
    FirstMatchAt(ListParamAt, url, 0, k);
  }

  /** `SkipUntil` stops at the first occurrence of the character or at the end. */
  lemma SkipUntilStops(s: string, i: nat, j: nat, c: char)
    requires i <= j <= |s|
    requires c !in s[i..j]
    requires j == |s| || s[j] == c
    ensures SkipUntil(s, i, c) == j
  {
  }

  /** A bare playlist id has neither `?` nor `&`, so only the second pattern
      can match it: it is returned whole. */
  lemma BarePlaylistIdAccepted(id: string)
    requires IsBarePlaylistId(id)
    ensures ExtractPlaylistId(id) == Some(id)
  {
    forall j | 0 <= j <= |id|
      ensures ListParamAt(id, j).None?
    {
      if j < |id| {
        assert id[j] != '?' && id[j] != '&' by {
          assert j >= 2 ==> IsIdChar(id[j]);
        }
      }
    }
  }

  // ---------------------------------------------------------------------
  // extractVideoId

  const WatchPrefix: string := "youtube.com/watch?v="
  const ShortPrefix: string := "youtu.be/"
  const EmbedPrefix: string := "youtube.com/embed/"

  /** The characters `[^&\n?#]` excludes. */
  predicate EndsVideoId(c: char) {
    c == '&' || c == '\n' || c == '?' || c == '#'
  }

  /** The index just past the run of id characters `[^&\n?#]` that starts at `i`. */
  function VideoIdEnd(s: string, i: nat): (r: nat)
    requires i <= |s|
    decreases |s| - i
    ensures i <= r <= |s|
    ensures r < |s| ==> EndsVideoId(s[r])
    ensures forall k :: i <= k < r ==> !EndsVideoId(s[k])
  {
    if i == |s| || EndsVideoId(s[i]) then i else VideoIdEnd(s, i + 1)
  }

  /** The group `([^&\n?#]+)` at `a`, if it is not empty. */
  function VideoIdGroup(s: string, a: nat): (r: Option<string>)
    requires a <= |s|
    ensures r.Some? ==> r.value != [] && forall k :: 0 <= k < |r.value| ==> !EndsVideoId(r.value[k])
  {
    var e := VideoIdEnd(s, a);
    if e > a then Some(s[a..e]) else None
  }

  /** The first pattern at `i`: one of the three URL forms, tried in order, then the group. */
  function VideoUrlAt(url: string, i: nat): (r: Option<string>)
    ensures r.Some? ==> r.value != [] && forall k :: 0 <= k < |r.value| ==> !EndsVideoId(r.value[k])
  {
    if OccursAt(url, i, WatchPrefix) && VideoIdGroup(url, i + |WatchPrefix|).Some? then
      VideoIdGroup(url, i + |WatchPrefix|)
    else if OccursAt(url, i, ShortPrefix) && VideoIdGroup(url, i + |ShortPrefix|).Some? then
      VideoIdGroup(url, i + |ShortPrefix|)
    else if OccursAt(url, i, EmbedPrefix) && VideoIdGroup(url, i + |EmbedPrefix|).Some? then
      VideoIdGroup(url, i + |EmbedPrefix|)
    else None
  }

  /** `/^([a-zA-Z0-9_-]{11})$/`. */
  predicate IsBareVideoId(s: string) {
    |s| == 11 && forall i :: 0 <= i < |s| ==> IsIdChar(s[i])
  }

  /** `extractVideoId`: the id after `watch?v=`, `youtu.be/` or `embed/`, else
      an eleven-character bare id, else nothing. The result is never empty and
      holds none of `&`, `?`, `#` and newline. */
  function ExtractVideoId(url: string): (r: Option<string>)
    ensures r.Some? ==> r.value != [] && forall k :: 0 <= k < |r.value| ==> !EndsVideoId(r.value[k])
    ensures r.None? <==> (forall j :: 0 <= j <= |url| ==> VideoUrlAt(url, j).None?) && !IsBareVideoId(url)
  {
    var link := FirstMatch(VideoUrlAt, url, 0);
    if link.Some? then Some(link.value.1)
    else if IsBareVideoId(url) then Some(url)
    else None
  }

  /** A link of any of the three forms, after text without a `y`, yields the id
      that follows it, up to `&`, `?`, `#`, a newline or the end. */
  lemma VideoUrlRoundTrip(pre: string, prefix: string, id: string, post: string)
    requires prefix == WatchPrefix || prefix == ShortPrefix || prefix == EmbedPrefix
    requires 'y' !in pre
    requires id != [] && forall k :: 0 <= k < |id| ==> !EndsVideoId(id[k])
    requires post == [] || EndsVideoId(post[0])
    ensures ExtractVideoId(pre + prefix + id + post) == Some(id)
  {
    var url := pre + prefix + id + post;
    var k := |pre|;
    var a := k + |prefix|;
    LinkLayout(pre, prefix, id, post);
    NoLinkBefore(url, pre);
    IdGroupAt(url, a, id);
    LinkAt(url, k, prefix, id);
    FirstMatchAt(VideoUrlAt, url, 0, k);
  }

  /** Where the pieces of a link sit. */
  lemma LinkLayout(pre: string, prefix: string, id: string, post: string)
    ensures var url := pre + prefix + id + post;
            var a := |pre| + |prefix|; var e := a + |id|;
            |url| == e + |post| && url[..|pre|] == pre && url[|pre|..a] == prefix && url[a..e] == id &&
            (post != [] ==> url[e] == post[0])
  {
  }

  /** No link form starts inside text without a `y`. */
  lemma NoLinkBefore(url: string, pre: string)
    requires |pre| <= |url| && url[..|pre|] == pre && 'y' !in pre
    ensures forall j :: 0 <= j < |pre| ==> VideoUrlAt(url, j).None?
  {
    forall j | 0 <= j < |pre|
      ensures VideoUrlAt(url, j).None?
    {
      assert url[j] == pre[j];
      if j + |ShortPrefix| <= |url| {
        assert url[j..j + |ShortPrefix|][0] == url[j];
      }
    }
  }

  /** The id group reads a run of id characters up to an excluded one or the end. */
  lemma IdGroupAt(url: string, a: nat, id: string)
    requires a + |id| <= |url| && url[a..a + |id|] == id
    requires id != [] && forall t :: 0 <= t < |id| ==> !EndsVideoId(id[t])
    requires a + |id| == |url| || EndsVideoId(url[a + |id|])
    ensures VideoIdGroup(url, a) == Some(id)
  {
    assert forall t :: a <= t < a + |id| ==> url[t] == id[t - a];
    VideoIdEndStops(url, a, a + |id|);
  }

  /** The character a text occurring at `k` puts at `k + i`. */
  lemma CharAt(url: string, k: nat, pat: string, i: nat)
    requires OccursAt(url, k, pat) && i < |pat|
    ensures url[k + i] == pat[i]
  {
    assert url[k..k + |pat|][i] == url[k + i];
  }

  /** At one position at most one link form occurs. */
  lemma LinkFormsExclusive(url: string, k: nat)
    ensures !(OccursAt(url, k, WatchPrefix) && OccursAt(url, k, ShortPrefix))
    ensures !(OccursAt(url, k, WatchPrefix) && OccursAt(url, k, EmbedPrefix))
    ensures !(OccursAt(url, k, ShortPrefix) && OccursAt(url, k, EmbedPrefix))
  {
    if OccursAt(url, k, WatchPrefix) && OccursAt(url, k, ShortPrefix) {
      CharAt(url, k, WatchPrefix, 5);
      CharAt(url, k, ShortPrefix, 5);
    }
    if OccursAt(url, k, WatchPrefix) && OccursAt(url, k, EmbedPrefix) {
      CharAt(url, k, WatchPrefix, 12);
      CharAt(url, k, EmbedPrefix, 12);
    }
    if OccursAt(url, k, ShortPrefix) && OccursAt(url, k, EmbedPrefix) {
      CharAt(url, k, ShortPrefix, 5);
      CharAt(url, k, EmbedPrefix, 5);
    }
  }

  /** The link form at `k` reads the id after it. */
  lemma LinkAt(url: string, k: nat, prefix: string, id: string)
    requires prefix == WatchPrefix || prefix == ShortPrefix || prefix == EmbedPrefix
    requires k + |prefix| <= |url| && url[k..k + |prefix|] == prefix
    requires VideoIdGroup(url, k + |prefix|) == Some(id)
    ensures VideoUrlAt(url, k) == Some(id)
  {
    LinkFormsExclusive(url, k);
  }

  lemma {:induction false} VideoIdEndStops(s: string, i: nat, j: nat)
    requires i <= j <= |s|
    requires forall t :: i <= t < j ==> !EndsVideoId(s[t])
    requires j == |s| || EndsVideoId(s[j])
    decreases j - i
    ensures VideoIdEnd(s, i) == j
  {
    if i < j {
      VideoIdEndStops(s, i + 1, j);
    }
  }

  /** A bare id has no `.`, so no link form occurs in it: it is returned whole. */
  lemma BareVideoIdAccepted(id: string)
    requires IsBareVideoId(id)
    ensures ExtractVideoId(id) == Some(id)
  {
    forall j | 0 <= j <= |id|
      ensures VideoUrlAt(id, j).None?
    {
      if j + |ShortPrefix| <= |id| {
        assert !OccursAt(id, j, ShortPrefix) by {
          assert IsIdChar(id[j + 5]);
          assert id[j..j + |ShortPrefix|][5] == id[j + 5];
        }
      }
    }
  }
}
