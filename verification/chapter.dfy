/** The chapter page of `Chapter`: the chapter's items (lessons, then
    exercises), the current-item index with its Previous/Next clamps, the
    completion count and percentage read from the progress store, and the
    code handed to the editor. */
module ChapterPage {
  import opened Wrappers
  import opened Seqs
  import opened JsText
  import opened Curriculum
  import opened Progress

  /** An entry of `allItems`. */
  datatype Item = LessonItem(lesson: Lesson) | ExerciseItem(exercise: Exercise)

  function ItemId(it: Item): string {
    match it
    case LessonItem(l) => l.id
    case ExerciseItem(e) => e.id
  }

  /** `allItems`: the lessons followed by the exercises. */
  function AllItems(ch: ChapterData): (items: seq<Item>)
    ensures |items| == |ch.lessons| + |ch.exercises|
    ensures forall k :: 0 <= k < |ch.lessons| ==> items[k] == LessonItem(ch.lessons[k])
    ensures forall k :: 0 <= k < |ch.exercises| ==> items[|ch.lessons| + k] == ExerciseItem(ch.exercises[k])
  {
    seq(|ch.lessons|, k requires 0 <= k < |ch.lessons| => LessonItem(ch.lessons[k]))
    + seq(|ch.exercises|, k requires 0 <= k < |ch.exercises| => ExerciseItem(ch.exercises[k]))
  }

  /** `totalItems`. */
  function TotalItems(ch: ChapterData): nat {
    |AllItems(ch)|
  }

  /** The page's items carry exactly the catalogue's item identifiers, in
      the same order. */
  lemma AllItemsMatchCatalogue(ch: ChapterData)
    ensures |AllItems(ch)| == |ItemIds(ch)|
    ensures forall k :: 0 <= k < |AllItems(ch)| ==> ItemId(AllItems(ch)[k]) == ItemIds(ch)[k]
  {
  }

  /** `isExercise`: the index is past the lessons. */
  predicate IsExercise(ch: ChapterData, index: nat) {
    index >= |ch.lessons|
  }

  /** The classification by index agrees with the kind of item stored at
      that index. */
  lemma IsExerciseMatchesItem(ch: ChapterData, index: nat)
    requires index < TotalItems(ch)
    ensures IsExercise(ch, index) <==> AllItems(ch)[index].ExerciseItem?
  {
    if index >= |ch.lessons| {
      assert AllItems(ch)[|ch.lessons| + (index - |ch.lessons|)] == ExerciseItem(ch.exercises[index - |ch.lessons|]);
    }
  }

  /** `handleNext`: one step forward unless at the last item. */
  function Next(ch: ChapterData, index: nat): (r: nat)
    ensures index <= r <= index + 1
    ensures index < TotalItems(ch) ==> r < TotalItems(ch)
    ensures r == index + 1 <==> index + 1 < TotalItems(ch)
  {
    if index < TotalItems(ch) - 1 then index + 1 else index
  }

  /** `handlePrevious`: one step back unless at the first item. */
  function Previous(index: nat): (r: nat)
    ensures r <= index && index <= r + 1
    ensures r + 1 == index <==> index > 0
  {
    if index > 0 then index - 1 else index
  }

  /** The Previous button is disabled at the first item. */
  predicate PreviousDisabled(index: nat) {
    index == 0
  }

  /** The Next button is disabled at the last item. */
  predicate NextDisabled(ch: ChapterData, index: nat) {
    index == TotalItems(ch) - 1
  }

  /** Within range, a button is disabled exactly when clicking it would do
      nothing. */
  lemma DisabledIffNoMove(ch: ChapterData, index: nat)
    requires index < TotalItems(ch)
    ensures PreviousDisabled(index) <==> Previous(index) == index
    ensures NextDisabled(ch, index) <==> Next(ch, index) == index
  {
  }

  /** What the reader can do to the current index: the Next and Previous
      buttons, and the button of lesson `k` or exercise `k`. */
  datatype Nav = NextItem | PreviousItem | SelectLesson(k: nat) | SelectExercise(k: nat)

  /** A selection button exists only for the chapter's own items. */
  predicate NavExists(ch: ChapterData, a: Nav) {
    match a
    case SelectLesson(k) => k < |ch.lessons|
    case SelectExercise(k) => k < |ch.exercises|
    case _ => true
  }

  function Navigate(ch: ChapterData, index: nat, a: Nav): (r: nat)
    ensures a.SelectExercise? ==> IsExercise(ch, r)
    ensures a.SelectLesson? && a.k < |ch.lessons| ==> !IsExercise(ch, r)
  {
    match a
    case NextItem => Next(ch, index)
    case PreviousItem => Previous(index)
    case SelectLesson(k) => k
    case SelectExercise(k) => |ch.lessons| + k
  }

  /** The selection buttons land on the item they show. */
  lemma SelectionLandsOnItem(ch: ChapterData, index: nat, a: Nav)
    requires NavExists(ch, a) && (a.SelectLesson? || a.SelectExercise?)
    ensures Navigate(ch, index, a) < TotalItems(ch)
    ensures a.SelectLesson? ==> AllItems(ch)[Navigate(ch, index, a)] == LessonItem(ch.lessons[a.k])
    ensures a.SelectExercise? ==> AllItems(ch)[Navigate(ch, index, a)] == ExerciseItem(ch.exercises[a.k])
  {
  }

  function NavigateAll(ch: ChapterData, index: nat, actions: seq<Nav>): nat
    decreases |actions|
  {
    if |actions| == 0 then index else NavigateAll(ch, Navigate(ch, index, actions[0]), actions[1..])
  }

  /** From any item in range, no sequence of clicks on existing buttons
      leaves the range of the chapter's items. */
  lemma {:induction false} IndexStaysInRange(ch: ChapterData, index: nat, actions: seq<Nav>)
    requires index < TotalItems(ch)
    requires forall j :: 0 <= j < |actions| ==> NavExists(ch, actions[j])
    ensures NavigateAll(ch, index, actions) < TotalItems(ch)
    decreases |actions|
  {
    if |actions| > 0 {
      IndexStaysInRange(ch, Navigate(ch, index, actions[0]), actions[1..]);
    }
  }

  /** The filter predicate of `completedCount`. */
  function ItemDone(rows: seq<ProgressRow>, chapterId: string): Item -> bool {
    (it: Item) => IsLessonComplete(rows, chapterId, ItemId(it))
  }

  /** `completedCount`: the chapter's items for which a completed row
      exists. */
  function CompletedCount(ch: ChapterData, rows: seq<ProgressRow>): (n: nat)
    ensures n <= TotalItems(ch)
  {
    |Filter(AllItems(ch), ItemDone(rows, ch.id))|
  }

  /** `isChapterComplete`: the chapter is complete exactly when each of
      its items is. */
  function IsChapterComplete(ch: ChapterData, rows: seq<ProgressRow>): (b: bool)
    ensures b <==> forall k :: 0 <= k < TotalItems(ch) ==> IsLessonComplete(rows, ch.id, ItemId(AllItems(ch)[k]))
  {
    FilterKeepsAll(AllItems(ch), ItemDone(rows, ch.id));
    CompletedCount(ch, rows) == TotalItems(ch)
  }

  /** `progressPercentage`. */
  function ProgressPercentage(ch: ChapterData, rows: seq<ProgressRow>): (r: nat)
    ensures TotalItems(ch) == 0 ==> r == 0
    ensures r <= 100
    ensures TotalItems(ch) > 0 && IsChapterComplete(ch, rows) ==> r == 100
  {
    Percentage(CompletedCount(ch, rows), TotalItems(ch))
  }

  /** For any chapter of fewer than 200 items, the page shows 100% exactly
      when the chapter is complete. */
  lemma FullPercentageIffComplete(ch: ChapterData, rows: seq<ProgressRow>)
    requires 0 < TotalItems(ch) < 200
    ensures ProgressPercentage(ch, rows) == 100 <==> IsChapterComplete(ch, rows)
  {
    PercentageFullIffAll(CompletedCount(ch, rows), TotalItems(ch));
  }

  /** `completeLesson`: marks the item only when someone is signed in. */
  function CompleteItem(user: Option<UserId>, rows: seq<ProgressRow>, ch: ChapterData, itemId: string,
                        upsert: UpsertOutcome, clock: Clock, refetch: FetchOutcome): (r: seq<ProgressRow>)
    ensures user.None? ==> r == rows
    ensures user.Some? && upsert.UpsertOk? && refetch.FetchFailed? ==> IsLessonComplete(r, ch.id, itemId)
  {
    if user.Some? then MarkLessonComplete(user, rows, ch.id, itemId, upsert, clock, refetch) else rows
  }

  /** Completing an item never lowers the count, and raises it when the
      item was not yet done and the backend accepted the write (the local
      list standing after a failed refetch). */
  lemma CompleteItemRaisesCount(user: Option<UserId>, rows: seq<ProgressRow>, ch: ChapterData, k: nat,
                                upsert: UpsertOutcome, clock: Clock)
    requires k < TotalItems(ch)
    ensures var r := CompleteItem(user, rows, ch, ItemId(AllItems(ch)[k]), upsert, clock, FetchFailed);
            && CompletedCount(ch, rows) <= CompletedCount(ch, r)
            && (user.Some? && upsert.UpsertOk? && !ItemDone(rows, ch.id)(AllItems(ch)[k])
                ==> CompletedCount(ch, rows) < CompletedCount(ch, r))
  {
    var items := AllItems(ch);
    var id := ItemId(items[k]);
    var r := CompleteItem(user, rows, ch, id, upsert, clock, FetchFailed);
    forall i | 0 <= i < |items| && ItemDone(rows, ch.id)(items[i])
      ensures ItemDone(r, ch.id)(items[i])
    {
      MarkKeepsCompletion(user, rows, ch.id, id, upsert, clock, ch.id, ItemId(items[i]));
    }
    if user.Some? && upsert.UpsertOk? && !ItemDone(rows, ch.id)(items[k]) {
      assert ItemDone(r, ch.id)(items[k]);
    }
    FilterGrows(items, ItemDone(rows, ch.id), ItemDone(r, ch.id));
  }

  /** The code given to the editor, `code || initialCode`: a lesson's
      editor opens on the lesson's code and an exercise's (which has no
      `code`) on its starting code. */
  function EditorCode(ch: ChapterData, index: nat): (code: string)
    requires index < TotalItems(ch)
    ensures index < |ch.lessons| ==> code == ch.lessons[index].code
    ensures index >= |ch.lessons| ==> code == ch.exercises[index - |ch.lessons|].initialCode
  {
    IsExerciseMatchesItem(ch, index);
    assert index >= |ch.lessons| ==>
      AllItems(ch)[|ch.lessons| + (index - |ch.lessons|)] == ExerciseItem(ch.exercises[index - |ch.lessons|]);
    var it := AllItems(ch)[index];
    var code := if it.LessonItem? then it.lesson.code else "";
    OrElse(code, if IsExercise(ch, index) then it.exercise.initialCode else "")
  }
}
