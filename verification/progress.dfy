/** The progress store of `useProgress`: the signed-in user's list of
    progress rows, keyed by (chapter, lesson), the mark-complete update and
    the count and percentage queries over the list. Backend calls are
    parameters: the upsert either succeeds or fails, and the refetch either
    returns the server's rows or fails. */
module Progress {
  import opened Wrappers
  import opened Seqs
  import opened JsText

  /** `UserProgress`. */
  datatype ProgressRow = ProgressRow(
    id: string,
    userId: string,
    chapterId: string,
    lessonId: string,
    completed: bool,
    completedAt: Option<string>,
    createdAt: string)

  /** The signed-in user, reduced to its identifier. */
  type UserId = string

  /** The backend's answer to the upsert of one row. */
  datatype UpsertOutcome = UpsertOk | UpsertFailed

  /** The backend's answer to the select of the user's rows; `data` may be
      null. */
  datatype FetchOutcome = FetchOk(data: Option<seq<ProgressRow>>) | FetchFailed

  /** The wall clock when a row is written: `Date.now()` in decimal and
      `new Date().toISOString()`. */
  datatype Clock = Clock(millis: string, iso: string)

  predicate HasKey(p: ProgressRow, chapterId: string, lessonId: string) {
    p.chapterId == chapterId && p.lessonId == lessonId
  }

  /** The filter predicate selecting the rows of one key. */
  function KeyIs(chapterId: string, lessonId: string): ProgressRow -> bool {
    (p: ProgressRow) => HasKey(p, chapterId, lessonId)
  }

  /** The filter predicate selecting the rows of every other key. */
  function KeyIsNot(chapterId: string, lessonId: string): ProgressRow -> bool {
    (p: ProgressRow) => !HasKey(p, chapterId, lessonId)
  }

  /** At most one row per (chapter, lesson) key, stated from the head: the
      first row's key occurs nowhere after it. */
  predicate UniqueKeys(rows: seq<ProgressRow>) {
    |rows| == 0 ||
    ((forall x :: x in rows[1..] ==> !HasKey(x, rows[0].chapterId, rows[0].lessonId))
     && UniqueKeys(rows[1..]))
  }

  /** `fetchProgress`: with a user, a successful select replaces the list
      (`data || []`); a failed one is logged and leaves it as it was. */
  function FetchProgress(user: Option<UserId>, rows: seq<ProgressRow>, res: FetchOutcome): (r: seq<ProgressRow>)
    ensures user.None? || res.FetchFailed? ==> r == rows
    ensures user.Some? && res.FetchOk? && res.data.None? ==> r == []
    ensures user.Some? && res.FetchOk? && res.data.Some? ==> r == res.data.value
  {
    if user.None? then rows
    else match res
      case FetchOk(data) => data.GetOr([])
      case FetchFailed => rows
  }

  /** The effect on `user`: signing out empties the list, signing in loads
      it from the backend. */
  function OnUserChange(user: Option<UserId>, rows: seq<ProgressRow>, res: FetchOutcome): (r: seq<ProgressRow>)
    ensures user.None? ==> r == []
    ensures user.Some? && res.FetchFailed? ==> r == rows
    ensures user.Some? && res.FetchOk? ==> r == res.data.GetOr([])
  {
    if user.Some? then FetchProgress(user, rows, res) else []
  }

  /** The first row for the key, as `progress.find` returns it. */
  function Existing(rows: seq<ProgressRow>, chapterId: string, lessonId: string): Option<ProgressRow>
  {
    Find(rows, KeyIs(chapterId, lessonId))
  }

  /** The rows whose key differs from (chapterId, lessonId), in order. */
  function Without(rows: seq<ProgressRow>, chapterId: string, lessonId: string): seq<ProgressRow>
  {
    Filter(rows, KeyIsNot(chapterId, lessonId))
  }

  /** The row written locally for the key: it reuses the existing row's
      `id` and `created_at` when they are non-empty. */
  function NewRow(user: UserId, chapterId: string, lessonId: string,
                  existing: Option<ProgressRow>, clock: Clock): ProgressRow
  {
    var freshId := "temp-" + clock.millis;
    ProgressRow(
      if existing.Some? then OrElse(existing.value.id, freshId) else freshId,
      user, chapterId, lessonId, true, Some(clock.iso),
      if existing.Some? then OrElse(existing.value.createdAt, clock.iso) else clock.iso)
  }

  /** The `setProgress(prev => ...)` update after a successful upsert:
      every row for the key is dropped and the new row goes last. */
  function LocalUpdate(rows: seq<ProgressRow>, user: UserId, chapterId: string, lessonId: string,
                       clock: Clock): (r: seq<ProgressRow>)
    ensures |r| >= 1 && HasKey(r[|r| - 1], chapterId, lessonId) && r[|r| - 1].completed
    ensures r[..|r| - 1] == Without(rows, chapterId, lessonId)
  {
    var existing := Existing(rows, chapterId, lessonId);
    var r := Without(rows, chapterId, lessonId) + [NewRow(user, chapterId, lessonId, existing, clock)];
    assert r[..|r| - 1] == Without(rows, chapterId, lessonId);
    r
  }

  /** `markLessonComplete`: nothing without a user or when the first row
      for the key is already completed; nothing when the upsert fails (the
      error is logged, not thrown); otherwise the local update followed by
      a refetch. */
  function MarkLessonComplete(user: Option<UserId>, rows: seq<ProgressRow>,
                              chapterId: string, lessonId: string,
                              upsert: UpsertOutcome, clock: Clock, refetch: FetchOutcome): (r: seq<ProgressRow>)
    ensures user.None? ==> r == rows
    ensures upsert.UpsertFailed? ==> r == rows
    ensures var e := Existing(rows, chapterId, lessonId); e.Some? && e.value.completed ==> r == rows
    ensures user.Some? && upsert.UpsertOk? && refetch.FetchFailed? ==>
              IsLessonComplete(r, chapterId, lessonId)
  {
    if user.None? then rows
    else
      var existing := Existing(rows, chapterId, lessonId);
      if existing.Some? && existing.value.completed then
        assert IsLessonComplete(rows, chapterId, lessonId) by {
          var i :| 0 <= i < |rows| && rows[i] == existing.value && HasKey(rows[i], chapterId, lessonId);
          assert HasKey(rows[i], chapterId, lessonId) && rows[i].completed;
        }
        rows
      else if upsert.UpsertFailed? then rows
      else
        var local := LocalUpdate(rows, user.value, chapterId, lessonId, clock);
        assert IsLessonComplete(local, chapterId, lessonId) by {
          assert HasKey(local[|local| - 1], chapterId, lessonId) && local[|local| - 1].completed;
        }
        FetchProgress(user, local, refetch)
  }

  /** `isLessonComplete`: some row for the key is completed. */
  function IsLessonComplete(rows: seq<ProgressRow>, chapterId: string, lessonId: string): (b: bool)
    ensures b <==> exists i :: 0 <= i < |rows| && HasKey(rows[i], chapterId, lessonId) && rows[i].completed
  {
    Any(rows, (p: ProgressRow) => HasKey(p, chapterId, lessonId) && p.completed)
  }

  /** The filter predicate of `getChapterProgress`. */
  function CompletedIn(chapterId: string): ProgressRow -> bool {
    (p: ProgressRow) => p.chapterId == chapterId && p.completed
  }

  /** The completed rows of a chapter. */
  function ChapterRows(rows: seq<ProgressRow>, chapterId: string): seq<ProgressRow> {
    Filter(rows, CompletedIn(chapterId))
  }

  /** `getChapterProgress`: the number of the chapter's completed rows,
      at most the list's length. */
  function ChapterProgress(rows: seq<ProgressRow>, chapterId: string): (n: nat)
    ensures n <= |rows|
  {
    |ChapterRows(rows, chapterId)|
  }

  /** A chapter's count is positive exactly when some row filed under the
      chapter is completed. */
  lemma ChapterProgressPositive(rows: seq<ProgressRow>, chapterId: string)
    ensures ChapterProgress(rows, chapterId) > 0 <==>
            exists i :: 0 <= i < |rows| && rows[i].chapterId == chapterId && rows[i].completed
  {
    var r := ChapterRows(rows, chapterId);
    if |r| > 0 {
      var i :| 0 <= i < |rows| && rows[i] == r[0];
      assert CompletedIn(chapterId)(rows[i]);
    }
  }

  /** The filter predicate of `getCompletedLessonsCount`. */
  function IsCompleted(): ProgressRow -> bool {
    (p: ProgressRow) => p.completed
  }

  /** `getCompletedLessonsCount`: the number of completed rows, the whole
      list exactly when every row is completed. */
  function CompletedLessonsCount(rows: seq<ProgressRow>): (n: nat)
    ensures n <= |rows|
    ensures n == |rows| <==> forall i :: 0 <= i < |rows| ==> rows[i].completed
    ensures n > 0 <==> exists i :: 0 <= i < |rows| && rows[i].completed
  {
    var r := Filter(rows, IsCompleted());
    FilterKeepsAll(rows, IsCompleted());
    assert |r| > 0 ==> exists i :: 0 <= i < |rows| && rows[i].completed by {
      if |r| > 0 {
        var i :| 0 <= i < |rows| && rows[i] == r[0];
        assert IsCompleted()(rows[i]);
      }
    }
    |r|
  }

  /** `getTotalProgressPercentage`: completed rows over all rows of the
      list (not over the catalogue). */
  function TotalProgressPercentage(rows: seq<ProgressRow>): (r: nat)
    ensures |rows| == 0 ==> r == 0
    ensures r <= 100
  {
    CountsOrdered(rows, "");
    Percentage(CompletedLessonsCount(rows), |rows|)
  }

  /** A chapter's count never exceeds the completed count, which never
      exceeds the length of the list. */
  lemma {:induction false} CountsOrdered(rows: seq<ProgressRow>, chapterId: string)
    ensures ChapterProgress(rows, chapterId) <= CompletedLessonsCount(rows) <= |rows|
  {
    if |rows| > 0 {
      CountsOrdered(rows[1..], chapterId);
    }
  }

  /** The global percentage is 100 exactly when every row is completed
      (for lists shorter than 200 rows, where rounding cannot reach 100
      early). */
  lemma TotalPercentageFull(rows: seq<ProgressRow>)
    requires 0 < |rows| < 200
    ensures TotalProgressPercentage(rows) == 100 <==> forall i :: 0 <= i < |rows| ==> rows[i].completed
  {
    CountsOrdered(rows, "");
    PercentageFullIffAll(CompletedLessonsCount(rows), |rows|);
    FilterKeepsAll(rows, IsCompleted());
  }

  /** No row of `Without` carries the removed key. */
  lemma WithoutDropsKey(rows: seq<ProgressRow>, chapterId: string, lessonId: string)
    ensures forall i :: 0 <= i < |Without(rows, chapterId, lessonId)| ==>
              !HasKey(Without(rows, chapterId, lessonId)[i], chapterId, lessonId)
  {
  }

  /** After the local update there is exactly one row for the key (the
      last one, completed). */
  lemma LocalUpdateSingleRow(rows: seq<ProgressRow>, user: UserId,
                             chapterId: string, lessonId: string, clock: Clock)
    ensures var r := LocalUpdate(rows, user, chapterId, lessonId, clock);
            && |Filter(r, KeyIs(chapterId, lessonId))| == 1
            && IsLessonComplete(r, chapterId, lessonId)
  {
    var w := Without(rows, chapterId, lessonId);
    var r := LocalUpdate(rows, user, chapterId, lessonId, clock);
    var last := r[|r| - 1];
    assert r == w + [last];
    FilterAppend(w, [last], KeyIs(chapterId, lessonId));
    WithoutDropsKey(rows, chapterId, lessonId);
    FilterNone(w, KeyIs(chapterId, lessonId));
    assert Filter([last], KeyIs(chapterId, lessonId)) == [last];
    assert HasKey(r[|r| - 1], chapterId, lessonId) && r[|r| - 1].completed;
  }

  /** The local update keeps the rows of every other key, unchanged and in
      their old order. */
  lemma LocalUpdateKeepsOthers(rows: seq<ProgressRow>, user: UserId,
                               chapterId: string, lessonId: string, clock: Clock)
    ensures var r := LocalUpdate(rows, user, chapterId, lessonId, clock);
            Filter(r, KeyIsNot(chapterId, lessonId)) == Filter(rows, KeyIsNot(chapterId, lessonId))
  {
    var w := Without(rows, chapterId, lessonId);
    var r := LocalUpdate(rows, user, chapterId, lessonId, clock);
    var last := r[|r| - 1];
    assert r == w + [last];
    FilterAppend(w, [last], KeyIsNot(chapterId, lessonId));
    assert Filter([last], KeyIsNot(chapterId, lessonId)) == [];
    FilterIdempotent(rows, KeyIsNot(chapterId, lessonId));
  }

  /** Filtering twice by the same predicate is filtering once. */
  lemma {:induction false} FilterIdempotent(s: seq<ProgressRow>, p: ProgressRow -> bool)
    ensures Filter(Filter(s, p), p) == Filter(s, p)
  {
    if |s| > 0 {
      FilterIdempotent(s[1..], p);
      var head := if p(s[0]) then [s[0]] else [];
      FilterAppend(head, Filter(s[1..], p), p);
    }
  }

  /** A replaced row keeps its `id` and `created_at` when they are
      non-empty; only a key with no row gets the fresh `temp-` id. */
  lemma LocalUpdateKeepsIdentity(rows: seq<ProgressRow>, user: UserId,
                                 chapterId: string, lessonId: string, clock: Clock)
    ensures var r := LocalUpdate(rows, user, chapterId, lessonId, clock);
            var e := Existing(rows, chapterId, lessonId);
            && (e.Some? && e.value.id != "" ==> r[|r| - 1].id == e.value.id)
            && (e.Some? && e.value.createdAt != "" ==> r[|r| - 1].createdAt == e.value.createdAt)
            && (e.None? ==> r[|r| - 1].id == "temp-" + clock.millis && r[|r| - 1].createdAt == clock.iso)
  {
  }

  /** Marking twice is marking once: after a mark whose upsert succeeded
      and whose refetch failed (so the local list stands), a second mark of
      the same key changes nothing, whatever the backend then answers. */
  lemma MarkIdempotent(user: Option<UserId>, rows: seq<ProgressRow>, chapterId: string, lessonId: string,
                       clock: Clock, upsert2: UpsertOutcome, clock2: Clock, refetch2: FetchOutcome)
    ensures var once := MarkLessonComplete(user, rows, chapterId, lessonId, UpsertOk, clock, FetchFailed);
            MarkLessonComplete(user, once, chapterId, lessonId, upsert2, clock2, refetch2) == once
  {
    MarkEffect(user, rows, chapterId, lessonId, UpsertOk, clock);
    if user.Some? {
      LocalUpdateFindsNewRow(rows, user.value, chapterId, lessonId, clock);
    }
  }

  /** When the local list stands, a mark is the local update exactly when
      someone is signed in, the key's first row is not completed and the
      upsert succeeds; otherwise it changes nothing. */
  lemma MarkEffect(user: Option<UserId>, rows: seq<ProgressRow>, chapterId: string, lessonId: string,
                   upsert: UpsertOutcome, clock: Clock)
    ensures var r := MarkLessonComplete(user, rows, chapterId, lessonId, upsert, clock, FetchFailed);
            var e := Existing(rows, chapterId, lessonId);
            if user.Some? && !(e.Some? && e.value.completed) && upsert.UpsertOk?
            then r == LocalUpdate(rows, user.value, chapterId, lessonId, clock)
            else r == rows
  {
  }

  /** After the local update, `find` for the key lands on the new row. */
  lemma LocalUpdateFindsNewRow(rows: seq<ProgressRow>, user: UserId, chapterId: string, lessonId: string,
                               clock: Clock)
    ensures var r := LocalUpdate(rows, user, chapterId, lessonId, clock);
            Existing(r, chapterId, lessonId) == Some(r[|r| - 1])
  {
    var r := LocalUpdate(rows, user, chapterId, lessonId, clock);
    var w := Without(rows, chapterId, lessonId);
    WithoutDropsKey(rows, chapterId, lessonId);
    assert KeyIs(chapterId, lessonId)(r[|r| - 1]);
    var e := Existing(r, chapterId, lessonId);
    assert forall k :: 0 <= k < |w| ==> r[k] == w[k] && !KeyIs(chapterId, lessonId)(r[k]);
    var i :| 0 <= i < |r| && r[i] == e.value && KeyIs(chapterId, lessonId)(r[i]);
    assert i == |r| - 1;
  }

  /** Dropping the rows of one key leaves the completion of every other
      key as it was. */
  lemma WithoutKeepsOtherCompletion(rows: seq<ProgressRow>, chapterId: string, lessonId: string,
                                    otherChapter: string, otherLesson: string)
    requires (otherChapter, otherLesson) != (chapterId, lessonId)
    ensures IsLessonComplete(Without(rows, chapterId, lessonId), otherChapter, otherLesson)
            <==> IsLessonComplete(rows, otherChapter, otherLesson)
  {
    var w := Without(rows, chapterId, lessonId);
    if IsLessonComplete(rows, otherChapter, otherLesson) {
      var i :| 0 <= i < |rows| && HasKey(rows[i], otherChapter, otherLesson) && rows[i].completed;
      assert KeyIsNot(chapterId, lessonId)(rows[i]);
      assert rows[i] in w;
      var j :| 0 <= j < |w| && w[j] == rows[i];
      assert HasKey(w[j], otherChapter, otherLesson) && w[j].completed;
    }
    if IsLessonComplete(w, otherChapter, otherLesson) {
      var j :| 0 <= j < |w| && HasKey(w[j], otherChapter, otherLesson) && w[j].completed;
      assert w[j] in rows;
      var i :| 0 <= i < |rows| && rows[i] == w[j];
      assert HasKey(rows[i], otherChapter, otherLesson) && rows[i].completed;
    }
  }

  /** Appending a row of another key leaves a key's completion as it was. */
  lemma AppendOtherKeyCompletion(rows: seq<ProgressRow>, x: ProgressRow, chapterId: string, lessonId: string)
    requires !HasKey(x, chapterId, lessonId)
    ensures IsLessonComplete(rows + [x], chapterId, lessonId) <==> IsLessonComplete(rows, chapterId, lessonId)
  {
    var r := rows + [x];
    if IsLessonComplete(r, chapterId, lessonId) {
      var j :| 0 <= j < |r| && HasKey(r[j], chapterId, lessonId) && r[j].completed;
      assert j < |rows| && r[j] == rows[j];
    }
    if IsLessonComplete(rows, chapterId, lessonId) {
      var i :| 0 <= i < |rows| && HasKey(rows[i], chapterId, lessonId) && rows[i].completed;
      assert r[i] == rows[i];
    }
  }

  /** The local update leaves the completion of every other key as it
      was, in both directions. */
  lemma LocalUpdateOtherCompletion(rows: seq<ProgressRow>, user: UserId, chapterId: string, lessonId: string,
                                   clock: Clock, otherChapter: string, otherLesson: string)
    requires (otherChapter, otherLesson) != (chapterId, lessonId)
    ensures IsLessonComplete(LocalUpdate(rows, user, chapterId, lessonId, clock), otherChapter, otherLesson)
            <==> IsLessonComplete(rows, otherChapter, otherLesson)
  {
    var r := LocalUpdate(rows, user, chapterId, lessonId, clock);
    var w := Without(rows, chapterId, lessonId);
    var last := r[|r| - 1];
    assert r == w + [last];
    AppendOtherKeyCompletion(w, last, otherChapter, otherLesson);
    WithoutKeepsOtherCompletion(rows, chapterId, lessonId, otherChapter, otherLesson);
  }

  /** Marking never takes a completion away: when the local list stands
      (the refetch failed), every key complete before is complete after. */
  lemma MarkKeepsCompletion(user: Option<UserId>, rows: seq<ProgressRow>, chapterId: string, lessonId: string,
                            upsert: UpsertOutcome, clock: Clock, otherChapter: string, otherLesson: string)
    requires IsLessonComplete(rows, otherChapter, otherLesson)
    ensures IsLessonComplete(MarkLessonComplete(user, rows, chapterId, lessonId, upsert, clock, FetchFailed),
                             otherChapter, otherLesson)
  {
    var r := MarkLessonComplete(user, rows, chapterId, lessonId, upsert, clock, FetchFailed);
    MarkEffect(user, rows, chapterId, lessonId, upsert, clock);
    if r != rows {
      if (otherChapter, otherLesson) == (chapterId, lessonId) {
        assert HasKey(r[|r| - 1], otherChapter, otherLesson) && r[|r| - 1].completed;
      } else {
        LocalUpdateOtherCompletion(rows, user.value, chapterId, lessonId, clock, otherChapter, otherLesson);
      }
    }
  }

  /** Marking one key leaves the completion of every other key as it was,
      in both directions, when the local list stands. */
  lemma MarkOnlyTouchesItsKey(user: Option<UserId>, rows: seq<ProgressRow>, chapterId: string, lessonId: string,
                              upsert: UpsertOutcome, clock: Clock, otherChapter: string, otherLesson: string)
    requires (otherChapter, otherLesson) != (chapterId, lessonId)
    ensures IsLessonComplete(MarkLessonComplete(user, rows, chapterId, lessonId, upsert, clock, FetchFailed),
                             otherChapter, otherLesson)
            <==> IsLessonComplete(rows, otherChapter, otherLesson)
  {
    var r := MarkLessonComplete(user, rows, chapterId, lessonId, upsert, clock, FetchFailed);
    MarkEffect(user, rows, chapterId, lessonId, upsert, clock);
    if r != rows {
      LocalUpdateOtherCompletion(rows, user.value, chapterId, lessonId, clock, otherChapter, otherLesson);
    }
  }

  /** Rows with unique keys stay unique under any filter. */
  lemma {:induction false} FilterKeepsUniqueKeys(rows: seq<ProgressRow>, p: ProgressRow -> bool)
    requires UniqueKeys(rows)
    ensures UniqueKeys(Filter(rows, p))
  {
    if |rows| > 0 {
      FilterKeepsUniqueKeys(rows[1..], p);
      var tail := Filter(rows[1..], p);
      if p(rows[0]) {
        var f := Filter(rows, p);
        assert f == [rows[0]] + tail;
        assert f[1..] == tail;
        forall x | x in tail ensures !HasKey(x, rows[0].chapterId, rows[0].lessonId) {
          var k :| 0 <= k < |tail| && tail[k] == x;
        }
      } else {
        assert Filter(rows, p) == tail;
      }
    }
  }

  /** Unique keys, stated pairwise: no later row repeats an earlier row's
      key. */
  lemma {:induction false} UniqueKeysPairwise(rows: seq<ProgressRow>)
    requires UniqueKeys(rows)
    ensures forall i, j :: 0 <= i < j < |rows| ==> !HasKey(rows[j], rows[i].chapterId, rows[i].lessonId)
  {
    if |rows| > 0 {
      UniqueKeysPairwise(rows[1..]);
      forall i, j | 0 <= i < j < |rows|
        ensures !HasKey(rows[j], rows[i].chapterId, rows[i].lessonId)
      {
        assert rows[j] == rows[1..][j - 1];
        if i > 0 {
          assert rows[i] == rows[1..][i - 1];
        }
      }
    }
  }

  /** Appending a row whose key is new keeps the keys unique. */
  lemma {:induction false} AppendKeepsUniqueKeys(rows: seq<ProgressRow>, x: ProgressRow)
    requires UniqueKeys(rows)
    requires forall i :: 0 <= i < |rows| ==> !HasKey(rows[i], x.chapterId, x.lessonId)
    ensures UniqueKeys(rows + [x])
  {
    if |rows| > 0 {
      assert (rows + [x])[1..] == rows[1..] + [x];
      AppendKeepsUniqueKeys(rows[1..], x);
      assert !HasKey(x, rows[0].chapterId, rows[0].lessonId);
    } else {
      assert (rows + [x])[1..] == [];
    }
  }

  /** Marking keeps one row per key when the refetch fails; a successful
      refetch brings the server's rows, whose uniqueness is the database
      constraint `user_id,chapter_id,lesson_id`. */
  lemma MarkKeepsUniqueKeys(user: Option<UserId>, rows: seq<ProgressRow>, chapterId: string, lessonId: string,
                            upsert: UpsertOutcome, clock: Clock, refetch: FetchOutcome)
    requires UniqueKeys(rows)
    requires refetch.FetchOk? ==> UniqueKeys(refetch.data.GetOr([]))
    ensures UniqueKeys(MarkLessonComplete(user, rows, chapterId, lessonId, upsert, clock, refetch))
  {
    if user.Some? {
      var w := Without(rows, chapterId, lessonId);
      FilterKeepsUniqueKeys(rows, KeyIsNot(chapterId, lessonId));
      WithoutDropsKey(rows, chapterId, lessonId);
      var existing := Existing(rows, chapterId, lessonId);
      AppendKeepsUniqueKeys(w, NewRow(user.value, chapterId, lessonId, existing, clock));
    }
  }
}
