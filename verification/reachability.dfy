/** Which progress lists the application can reach. The pages only ever
    record a chapter's own items under that chapter's id, and the store
    keeps one row per key, so the completed rows of a catalogue chapter are
    at most its seven items and reach seven exactly when the chapter page
    shows the chapter complete. */
module Reachability {
  import opened Wrappers
  import opened Seqs
  import opened Curriculum
  import opened Progress
  import opened ChapterPage
  import opened ProjectPage

  /** A row recorded under a catalogue chapter's id names one of that
      chapter's items. */
  predicate RowsNameItems(rows: seq<ProgressRow>) {
    forall i, c :: 0 <= i < |rows| && 0 <= c < |ChaptersData| && rows[i].chapterId == ChaptersData[c].id
                   ==> rows[i].lessonId in ItemIds(ChaptersData[c])
  }

  /** The invariant of every list the application holds. */
  predicate ValidRows(rows: seq<ProgressRow>) {
    UniqueKeys(rows) && RowsNameItems(rows)
  }

  /** A key may be written when, if it is a catalogue chapter's, it names
      one of that chapter's items. */
  predicate KeyAllowed(chapterId: string, lessonId: string) {
    forall c :: 0 <= c < |ChaptersData| && ChaptersData[c].id == chapterId ==> lessonId in ItemIds(ChaptersData[c])
  }

  /** Marking an allowed key keeps the rows naming items; the refetched
      rows are the server's copy of what the application wrote. */
  lemma MarkKeepsRowsNameItems(user: Option<UserId>, rows: seq<ProgressRow>, chapterId: string, lessonId: string,
                               upsert: UpsertOutcome, clock: Clock, refetch: FetchOutcome)
    requires RowsNameItems(rows) && KeyAllowed(chapterId, lessonId)
    requires refetch.FetchOk? ==> RowsNameItems(refetch.data.GetOr([]))
    ensures RowsNameItems(MarkLessonComplete(user, rows, chapterId, lessonId, upsert, clock, refetch))
  {
    var r := MarkLessonComplete(user, rows, chapterId, lessonId, upsert, clock, refetch);
    if r != rows && refetch.FetchFailed? {
      var w := Without(rows, chapterId, lessonId);
      assert r[..|r| - 1] == w;
      forall i, c | 0 <= i < |r| && 0 <= c < |ChaptersData| && r[i].chapterId == ChaptersData[c].id
        ensures r[i].lessonId in ItemIds(ChaptersData[c])
      {
        if i < |w| {
          assert r[i] == w[i] && w[i] in rows;
          var j :| 0 <= j < |rows| && rows[j] == w[i];
        }
      }
    }
  }

  /** A write one of the pages can make: item `k` of catalogue chapter
      `c`, a step of project `p`, or project `p`'s completion marker. */
  datatype Write = ChapterItem(c: nat, k: nat) | ProjectStepDone(p: nat, stepId: string) | ProjectDone(p: nat)

  /** The pages offer these writes only for catalogue entries. */
  predicate WriteExists(w: Write) {
    match w
    case ChapterItem(c, k) => c < |ChaptersData| && k < TotalItems(ChaptersData[c])
    case ProjectStepDone(p, _) => p < |ProjectsData|
    case ProjectDone(p) => p < |ProjectsData|
  }

  /** The store after a write, through the page function that makes it. */
  function ApplyWrite(user: Option<UserId>, rows: seq<ProgressRow>, w: Write,
                      upsert: UpsertOutcome, clock: Clock, refetch: FetchOutcome): seq<ProgressRow>
    requires WriteExists(w)
  {
    match w
    case ChapterItem(c, k) =>
      var ch := ChaptersData[c];
      CompleteItem(user, rows, ch, ItemId(AllItems(ch)[k]), upsert, clock, refetch)
    case ProjectStepDone(p, stepId) =>
      CompleteStep(user, rows, ProjectsData[p].id, stepId, upsert, clock, refetch)
    case ProjectDone(p) =>
      HandleComplete(user, rows, ProjectsData[p].id, upsert, clock, refetch)
  }

  /** No project id is a chapter id. */
  lemma ProjectIdsAreNotChapterIds(p: nat, c: nat)
    requires p < |ProjectsData| && c < |ChaptersData|
    ensures ProjectsData[p].id != ChaptersData[c].id
  {
    assert ProjectsData[p].id[0] == 'p' && ChaptersData[c].id[0] == 'c';
  }

  /** A chapter page writes its own items under its own id. */
  lemma ChapterItemKeyAllowed(c: nat, k: nat)
    requires c < |ChaptersData| && k < TotalItems(ChaptersData[c])
    ensures KeyAllowed(ChaptersData[c].id, ItemId(AllItems(ChaptersData[c])[k]))
  {
    AllItemsMatchCatalogue(ChaptersData[c]);
    ChapterIdsDistinct();
    assert ItemId(AllItems(ChaptersData[c])[k]) == ItemIds(ChaptersData[c])[k];
  }

  /** Any key filed under a project's id is allowed. */
  lemma ProjectKeyAllowed(p: nat, lessonId: string)
    requires p < |ProjectsData|
    ensures KeyAllowed(ProjectsData[p].id, lessonId)
  {
    forall c | 0 <= c < |ChaptersData| ensures ChaptersData[c].id != ProjectsData[p].id {
      ProjectIdsAreNotChapterIds(p, c);
    }
  }

  /** Marking an allowed key keeps the invariant. */
  lemma MarkKeepsValidRows(user: Option<UserId>, rows: seq<ProgressRow>, chapterId: string, lessonId: string,
                           upsert: UpsertOutcome, clock: Clock, refetch: FetchOutcome)
    requires ValidRows(rows) && KeyAllowed(chapterId, lessonId)
    requires refetch.FetchOk? ==> ValidRows(refetch.data.GetOr([]))
    ensures ValidRows(MarkLessonComplete(user, rows, chapterId, lessonId, upsert, clock, refetch))
  {
    MarkKeepsRowsNameItems(user, rows, chapterId, lessonId, upsert, clock, refetch);
    MarkKeepsUniqueKeys(user, rows, chapterId, lessonId, upsert, clock, refetch);
  }

  /** Every write the pages can make keeps the invariant. */
  lemma WriteKeepsValidRows(user: Option<UserId>, rows: seq<ProgressRow>, w: Write,
                            upsert: UpsertOutcome, clock: Clock, refetch: FetchOutcome)
    requires WriteExists(w) && ValidRows(rows)
    requires refetch.FetchOk? ==> ValidRows(refetch.data.GetOr([]))
    ensures ValidRows(ApplyWrite(user, rows, w, upsert, clock, refetch))
  {
    match w {
      case ChapterItem(c, k) =>
        ChapterItemKeyAllowed(c, k);
        MarkKeepsValidRows(user, rows, ChaptersData[c].id, ItemId(AllItems(ChaptersData[c])[k]), upsert, clock, refetch);
      case ProjectStepDone(p, stepId) =>
        ProjectKeyAllowed(p, stepId);
        MarkKeepsValidRows(user, rows, ProjectsData[p].id, stepId, upsert, clock, refetch);
      case ProjectDone(p) =>
        ProjectKeyAllowed(p, CompletedMarker);
        MarkKeepsValidRows(user, rows, ProjectsData[p].id, CompletedMarker, upsert, clock, refetch);
    }
  }

  /** Signing in or out keeps the invariant: the list is emptied or loaded
      from the server's copy. */
  lemma UserChangeKeepsValidRows(user: Option<UserId>, rows: seq<ProgressRow>, res: FetchOutcome)
    requires ValidRows(rows)
    requires res.FetchOk? ==> ValidRows(res.data.GetOr([]))
    ensures ValidRows(OnUserChange(user, rows, res))
  {
  }

  /** The lesson ids of a list of rows, in order. */
  function LessonIdsOf(rs: seq<ProgressRow>): (ids: seq<string>)
    ensures |ids| == |rs| && forall i :: 0 <= i < |rs| ==> ids[i] == rs[i].lessonId
  {
    seq(|rs|, i requires 0 <= i < |rs| => rs[i].lessonId)
  }

  /** With unique keys, the completed rows of one chapter name different
      lessons. */
  lemma ChapterLessonIdsDistinct(rows: seq<ProgressRow>, chapterId: string)
    requires UniqueKeys(rows)
    ensures Distinct(LessonIdsOf(ChapterRows(rows, chapterId)))
  {
    var rs := ChapterRows(rows, chapterId);
    FilterKeepsUniqueKeys(rows, CompletedIn(chapterId));
    UniqueKeysPairwise(rs);
    forall i, j | 0 <= i < j < |rs| ensures rs[i].lessonId != rs[j].lessonId {
      assert CompletedIn(chapterId)(rs[i]) && CompletedIn(chapterId)(rs[j]);
    }
  }

  /** The lessons named by a chapter's completed rows are among its items. */
  lemma ChapterLessonIdsAreItems(rows: seq<ProgressRow>, c: nat)
    requires c < |ChaptersData| && RowsNameItems(rows)
    ensures Elems(LessonIdsOf(ChapterRows(rows, ChaptersData[c].id))) <= Elems(ItemIds(ChaptersData[c]))
  {
    var rs := ChapterRows(rows, ChaptersData[c].id);
    forall x | x in Elems(LessonIdsOf(rs)) ensures x in Elems(ItemIds(ChaptersData[c])) {
      var i :| 0 <= i < |rs| && LessonIdsOf(rs)[i] == x;
      assert CompletedIn(ChaptersData[c].id)(rs[i]) && rs[i] in rows;
      var j :| 0 <= j < |rows| && rows[j] == rs[i];
    }
  }

  /** A catalogue chapter has seven distinct item ids. */
  lemma SevenItemIds(c: nat)
    requires c < |ChaptersData|
    ensures |Elems(ItemIds(ChaptersData[c]))| == 7
  {
    SevenItemsPerChapter(c);
    ItemIdsDistinct(c);
    DistinctElemsCard(ItemIds(ChaptersData[c]));
  }

  /** Every lesson named by a chapter's completed rows is complete. */
  lemma NamedLessonComplete(rows: seq<ProgressRow>, chapterId: string, x: string)
    requires x in Elems(LessonIdsOf(ChapterRows(rows, chapterId)))
    ensures IsLessonComplete(rows, chapterId, x)
  {
    var rs := ChapterRows(rows, chapterId);
    var i :| 0 <= i < |rs| && LessonIdsOf(rs)[i] == x;
    assert CompletedIn(chapterId)(rs[i]) && rs[i] in rows;
    var j :| 0 <= j < |rows| && rows[j] == rs[i];
    assert HasKey(rows[j], chapterId, x) && rows[j].completed;
  }

  /** Every complete lesson is named by one of the chapter's completed
      rows. */
  lemma CompleteLessonNamed(rows: seq<ProgressRow>, chapterId: string, x: string)
    requires IsLessonComplete(rows, chapterId, x)
    ensures x in Elems(LessonIdsOf(ChapterRows(rows, chapterId)))
  {
    var rs := ChapterRows(rows, chapterId);
    var j :| 0 <= j < |rows| && HasKey(rows[j], chapterId, x) && rows[j].completed;
    assert CompletedIn(chapterId)(rows[j]);
    assert rows[j] in rs;
    var i :| 0 <= i < |rs| && rs[i] == rows[j];
    assert LessonIdsOf(rs)[i] == x;
  }

  /** In a reachable list, the lessons named by a chapter's completed rows
      are as many as those rows, and among the chapter's seven items. */
  lemma ChapterLessonSet(rows: seq<ProgressRow>, c: nat)
    requires c < |ChaptersData| && ValidRows(rows)
    ensures var a := Elems(LessonIdsOf(ChapterRows(rows, ChaptersData[c].id)));
            && |a| == ChapterProgress(rows, ChaptersData[c].id)
            && a <= Elems(ItemIds(ChaptersData[c]))
            && |Elems(ItemIds(ChaptersData[c]))| == 7
  {
    ChapterLessonIdsDistinct(rows, ChaptersData[c].id);
    DistinctElemsCard(LessonIdsOf(ChapterRows(rows, ChaptersData[c].id)));
    ChapterLessonIdsAreItems(rows, c);
    SevenItemIds(c);
  }

  /** In every reachable list a catalogue chapter has at most seven
      completed rows. */
  lemma ChapterProgressAtMostSeven(rows: seq<ProgressRow>, c: nat)
    requires c < |ChaptersData| && ValidRows(rows)
    ensures ChapterProgress(rows, ChaptersData[c].id) <= 7
  {
    var a := Elems(LessonIdsOf(ChapterRows(rows, ChaptersData[c].id)));
    var b := Elems(ItemIds(ChaptersData[c]));
    ChapterLessonSet(rows, c);
    assert |b - a| == |b| - |a|;
  }

  /** Seven completed rows mean every item of the chapter is complete. */
  lemma SevenRowsMeansComplete(rows: seq<ProgressRow>, c: nat)
    requires c < |ChaptersData| && ValidRows(rows)
    requires ChapterProgress(rows, ChaptersData[c].id) == 7
    ensures IsChapterComplete(ChaptersData[c], rows)
  {
    var ch := ChaptersData[c];
    var a := Elems(LessonIdsOf(ChapterRows(rows, ch.id)));
    var b := Elems(ItemIds(ch));
    ChapterLessonSet(rows, c);
    SubsetSameCard(a, b);
    AllItemsMatchCatalogue(ch);
    forall k | 0 <= k < TotalItems(ch) ensures IsLessonComplete(rows, ch.id, ItemId(AllItems(ch)[k])) {
      assert ItemIds(ch)[k] in b;
      NamedLessonComplete(rows, ch.id, ItemIds(ch)[k]);
    }
  }

  /** A chapter its page shows complete has seven completed rows. */
  lemma CompleteMeansSevenRows(rows: seq<ProgressRow>, c: nat)
    requires c < |ChaptersData| && ValidRows(rows)
    requires IsChapterComplete(ChaptersData[c], rows)
    ensures ChapterProgress(rows, ChaptersData[c].id) == 7
  {
    var ch := ChaptersData[c];
    var a := Elems(LessonIdsOf(ChapterRows(rows, ch.id)));
    var b := Elems(ItemIds(ch));
    ChapterLessonSet(rows, c);
    AllItemsMatchCatalogue(ch);
    forall x | x in b ensures x in a {
      var k :| 0 <= k < |ItemIds(ch)| && ItemIds(ch)[k] == x;
      assert ItemId(AllItems(ch)[k]) == x;
      CompleteLessonNamed(rows, ch.id, x);
    }
    assert |a - b| == |a| - |b|;
  }

  /** In every reachable list a catalogue chapter has seven completed rows
      exactly when its page shows it complete. */
  lemma ChapterProgressSevenIffComplete(rows: seq<ProgressRow>, c: nat)
    requires c < |ChaptersData| && ValidRows(rows)
    ensures ChapterProgress(rows, ChaptersData[c].id) == 7 <==> IsChapterComplete(ChaptersData[c], rows)
  {
    if ChapterProgress(rows, ChaptersData[c].id) == 7 {
      SevenRowsMeansComplete(rows, c);
    }
    if IsChapterComplete(ChaptersData[c], rows) {
      CompleteMeansSevenRows(rows, c);
    }
  }
}
