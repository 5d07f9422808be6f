/** src/components/learn/chapter-list.tsx: which chapter is playing. A chapter
    runs from its start time up to the next chapter's start; the last one has
    no end. */
module ChapterList {
  import opened Wrappers

  datatype Chapter = Chapter(id: string, title: string, startTime: real, summary: Option<string>)

  /** The `findIndex` predicate at `index`. */
  predicate Claims(chapters: seq<Chapter>, i: nat, t: real)
    requires i < |chapters|
  {
    if i + 1 < |chapters| then chapters[i].startTime <= t < chapters[i + 1].startTime
    else chapters[i].startTime <= t
  }

  /** The first index at or after `from` whose chapter claims `t`, or -1. */
  function FindFrom(chapters: seq<Chapter>, from: nat, t: real): (r: int)
    requires from <= |chapters|
    decreases |chapters| - from
    ensures r == -1 || (from <= r < |chapters| && Claims(chapters, r, t))
    ensures forall j :: from <= j < |chapters| && (r == -1 || j < r) ==> !Claims(chapters, j, t)
  {
    if from == |chapters| then -1
    else if Claims(chapters, from, t) then from
    else FindFrom(chapters, from + 1, t)
  }

  /** `currentChapterIndex`. */
  function CurrentChapterIndex(chapters: seq<Chapter>, t: real): (r: int)
    ensures -1 <= r < |chapters|
    ensures r >= 0 ==> Claims(chapters, r, t)
    ensures forall j :: 0 <= j < |chapters| && (r == -1 || j < r) ==> !Claims(chapters, j, t)
  {
    FindFrom(chapters, 0, t)
  }

  /** The last chapter matches every time from its start on that no earlier chapter claims. */
  lemma LastChapterOpenEnded(chapters: seq<Chapter>, t: real)
    requires chapters != [] && chapters[|chapters| - 1].startTime <= t
    requires forall j :: 0 <= j < |chapters| - 1 ==> !Claims(chapters, j, t)
    ensures CurrentChapterIndex(chapters, t) == |chapters| - 1
  {
    assert Claims(chapters, |chapters| - 1, t);
  }

  predicate Sorted(chapters: seq<Chapter>) {
    forall i, j :: 0 <= i <= j < |chapters| ==> chapters[i].startTime <= chapters[j].startTime
  }

  /** With sorted start times, some chapter at or after `i` claims any time from `i`'s start on. */
  lemma {:induction false} SomeChapterClaims(chapters: seq<Chapter>, i: nat, t: real)
    requires Sorted(chapters) && i < |chapters| && chapters[i].startTime <= t
    decreases |chapters| - i
    ensures exists k :: i <= k < |chapters| && Claims(chapters, k, t)
  {
    if !Claims(chapters, i, t) {
      SomeChapterClaims(chapters, i + 1, t);
    }
  }

  /** With sorted start times the playing chapter is the last one that has
      started, and nothing plays before the first start. */
  lemma SortedIsLastStarted(chapters: seq<Chapter>, t: real)
    requires Sorted(chapters)
    ensures CurrentChapterIndex(chapters, t) == -1 <==> (chapters == [] || t < chapters[0].startTime)
    ensures CurrentChapterIndex(chapters, t) >= 0 ==>
              chapters[CurrentChapterIndex(chapters, t)].startTime <= t &&
              forall j :: CurrentChapterIndex(chapters, t) < j < |chapters| ==> t < chapters[j].startTime
  {
    var r := CurrentChapterIndex(chapters, t);
    if chapters != [] && chapters[0].startTime <= t {
      SomeChapterClaims(chapters, 0, t);
    }
    if r >= 0 && r + 1 < |chapters| {
      assert t < chapters[r + 1].startTime;
      forall j | r < j < |chapters| ensures t < chapters[j].startTime {
        assert chapters[r + 1].startTime <= chapters[j].startTime;
      }
    }
  }

  /** With sorted start times the playing chapter never moves backwards as time moves forwards. */
  lemma SortedMonotone(chapters: seq<Chapter>, t1: real, t2: real)
    requires Sorted(chapters) && t1 <= t2
    ensures CurrentChapterIndex(chapters, t1) <= CurrentChapterIndex(chapters, t2)
  {
    var r1 := CurrentChapterIndex(chapters, t1);
    var r2 := CurrentChapterIndex(chapters, t2);
    SortedIsLastStarted(chapters, t1);
    SortedIsLastStarted(chapters, t2);
    if r1 >= 0 {
      assert chapters[0].startTime <= chapters[r1].startTime;
      assert r2 >= 0;
    }
  }

  /** The list: a placeholder when there are no chapters, checked before any lookup. */
  datatype ChapterView = NoChapters | ChapterRows(active: int)

  function View(chapters: seq<Chapter>, t: real): (v: ChapterView)
    ensures v.NoChapters? <==> chapters == []
    ensures v.ChapterRows? ==> v.active == CurrentChapterIndex(chapters, t) && 0 <= v.active + 1 <= |chapters|
  {
    if |chapters| == 0 then NoChapters else ChapterRows(CurrentChapterIndex(chapters, t))
  }
}
