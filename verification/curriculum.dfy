/** The structure of the course catalogue: four chapters of four lessons
    and three exercises each, and four final projects. Only identifiers,
    numbers, item counts and the chapter-to-project links are kept; the
    lesson prose and the code snippets are not part of this model (every
    `code` and `initialCode` here is the empty string). */
module Curriculum {
  import opened JsText
  import opened Seqs

  datatype Lesson = Lesson(id: string, code: string)

  datatype Exercise = Exercise(id: string, initialCode: string)

  datatype ChapterData = ChapterData(
    id: string,
    number: int,
    lessons: seq<Lesson>,
    exercises: seq<Exercise>,
    projectId: string)

  datatype ProjectData = ProjectData(id: string, number: int)

  /** The decimal digit for 0..9. */
  function Digit(n: nat): char
    requires n <= 9
  {
    (48 + n) as char
  }

  function ChapterId(n: nat): string requires n <= 9 { "chapter-" + [Digit(n)] }

  function ProjectId(n: nat): string requires n <= 9 { "project-" + [Digit(n)] }

  function LessonId(n: nat, k: nat): string
    requires n <= 9 && k <= 9
  {
    "lesson-" + [Digit(n)] + "-" + [Digit(k)]
  }

  function ExerciseId(n: nat, k: nat): string
    requires n <= 9 && k <= 9
  {
    "exercise-" + [Digit(n)] + "-" + [Digit(k)]
  }

  /** Chapter `n`: lessons `lesson-n-1`..`lesson-n-4`, exercises
      `exercise-n-1`..`exercise-n-3`, final project `project-n`. */
  function MakeChapter(n: nat): ChapterData
    requires 1 <= n <= 4
  {
    ChapterData(
      ChapterId(n), n,
      [Lesson(LessonId(n, 1), ""), Lesson(LessonId(n, 2), ""),
       Lesson(LessonId(n, 3), ""), Lesson(LessonId(n, 4), "")],
      [Exercise(ExerciseId(n, 1), ""), Exercise(ExerciseId(n, 2), ""),
       Exercise(ExerciseId(n, 3), "")],
      ProjectId(n))
  }

  /** `chaptersData`. */
  const ChaptersData: seq<ChapterData> :=
    [MakeChapter(1), MakeChapter(2), MakeChapter(3), MakeChapter(4)]

  /** `projectsData`. */
  const ProjectsData: seq<ProjectData> :=
    [ProjectData(ProjectId(1), 1), ProjectData(ProjectId(2), 2),
     ProjectData(ProjectId(3), 3), ProjectData(ProjectId(4), 4)]

  /** The identifiers of a chapter's items, lessons first. */
  function ItemIds(ch: ChapterData): (ids: seq<string>)
    ensures |ids| == |ch.lessons| + |ch.exercises|
    ensures forall k :: 0 <= k < |ch.lessons| ==> ids[k] == ch.lessons[k].id
    ensures forall k :: 0 <= k < |ch.exercises| ==> ids[|ch.lessons| + k] == ch.exercises[k].id
  {
    seq(|ch.lessons|, k requires 0 <= k < |ch.lessons| => ch.lessons[k].id)
    + seq(|ch.exercises|, k requires 0 <= k < |ch.exercises| => ch.exercises[k].id)
  }

  /** The identifier of item `j` (0-based, lessons first) of chapter `n`. */
  function ItemIdAt(n: nat, j: nat): string
    requires 1 <= n <= 4 && j < 7
  {
    if j < 4 then LessonId(n, j + 1) else ExerciseId(n, j - 3)
  }

  /** The chapters written out are chapter-1..chapter-4, numbered 1..4. */
  lemma ChapterIdsAsWritten()
    ensures |ChaptersData| == 4
    ensures ChaptersData[0].id == "chapter-1" && ChaptersData[0].number == 1
    ensures ChaptersData[1].id == "chapter-2" && ChaptersData[1].number == 2
    ensures ChaptersData[2].id == "chapter-3" && ChaptersData[2].number == 3
    ensures ChaptersData[3].id == "chapter-4" && ChaptersData[3].number == 4
    ensures ChaptersData[1].lessons[0].id == "lesson-2-1"
    ensures ChaptersData[3].exercises[2].id == "exercise-4-3"
  {
  }

  /** Chapter `i` of the catalogue is chapter number `i + 1`. */
  lemma ChaptersNumberedInOrder(i: nat)
    requires i < |ChaptersData|
    ensures ChaptersData[i] == MakeChapter(i + 1)
    ensures ChaptersData[i].number == i + 1 && ChaptersData[i].id == ChapterId(i + 1)
  {
  }

  /** The items of chapter `n` as built: positions 0..3 are its lessons
      and 4..6 its exercises. */
  lemma MakeChapterItems(n: nat)
    requires 1 <= n <= 4
    ensures |MakeChapter(n).lessons| == 4 && |MakeChapter(n).exercises| == 3
    ensures |ItemIds(MakeChapter(n))| == 7
    ensures forall j :: 0 <= j < 7 ==> ItemIds(MakeChapter(n))[j] == ItemIdAt(n, j)
  {
    var ch := MakeChapter(n);
    forall j | 0 <= j < 7 ensures ItemIds(ch)[j] == ItemIdAt(n, j) {
      if j < 4 {
        assert ItemIds(ch)[j] == ch.lessons[j].id;
      } else {
        assert ItemIds(ch)[4 + (j - 4)] == ch.exercises[j - 4].id;
      }
    }
  }

  /** Every chapter has four lessons and three exercises, seven items. */
  lemma SevenItemsPerChapter(i: nat)
    requires i < |ChaptersData|
    ensures |ChaptersData[i].lessons| == 4 && |ChaptersData[i].exercises| == 3
    ensures |ItemIds(ChaptersData[i])| == 7
    ensures forall j :: 0 <= j < 7 ==> ItemIds(ChaptersData[i])[j] == ItemIdAt(i + 1, j)
  {
    ChaptersNumberedInOrder(i);
    MakeChapterItems(i + 1);
  }

  /** Every chapter id carries the `chapter-` prefix and every project id
      the `project-` prefix that view routing dispatches on. */
  lemma IdsCarryRoutingPrefix()
    ensures forall i :: 0 <= i < |ChaptersData| ==> StartsWith(ChaptersData[i].id, "chapter-")
    ensures forall i :: 0 <= i < |ProjectsData| ==> StartsWith(ProjectsData[i].id, "project-")
  {
    forall i | 0 <= i < |ChaptersData| ensures StartsWith(ChaptersData[i].id, "chapter-") {
      assert ChaptersData[i].id[..8] == "chapter-";
    }
    forall i | 0 <= i < |ProjectsData| ensures StartsWith(ProjectsData[i].id, "project-") {
      assert ProjectsData[i].id[..8] == "project-";
    }
  }

  /** Every chapter's final project is listed in `projectsData`. */
  lemma ProjectLinksResolve()
    ensures forall i :: 0 <= i < |ChaptersData| ==>
              ProjectsData[i].id == ChaptersData[i].projectId
  {
  }

  /** Chapter identifiers are pairwise different. */
  lemma ChapterIdsDistinct()
    ensures forall a, b :: 0 <= a < b < |ChaptersData| ==> ChaptersData[a].id != ChaptersData[b].id
  {
    forall a, b | 0 <= a < b < |ChaptersData|
      ensures ChaptersData[a].id != ChaptersData[b].id
    {
      assert ChaptersData[a].id[8] == Digit(a + 1);
      assert ChaptersData[b].id[8] == Digit(b + 1);
    }
  }

  /** Item identifiers determine their chapter and position. */
  lemma ItemIdAtInjective(n: nat, j: nat, m: nat, k: nat)
    requires 1 <= n <= 4 && j < 7 && 1 <= m <= 4 && k < 7
    requires ItemIdAt(n, j) == ItemIdAt(m, k)
    ensures n == m && j == k
  {
    var a := ItemIdAt(n, j);
    var b := ItemIdAt(m, k);
    if j < 4 && k < 4 {
      assert a[7] == Digit(n) && b[7] == Digit(m);
      assert a[9] == Digit(j + 1) && b[9] == Digit(k + 1);
    } else if j >= 4 && k >= 4 {
      assert a[9] == Digit(n) && b[9] == Digit(m);
      assert a[11] == Digit(j - 3) && b[11] == Digit(k - 3);
    }
  }

  /** No lesson or exercise identifier is used twice in the catalogue. */
  lemma ItemIdsUniqueAcrossCurriculum(a: nat, j: nat, b: nat, k: nat)
    requires a < |ChaptersData| && b < |ChaptersData|
    requires j < |ItemIds(ChaptersData[a])| && k < |ItemIds(ChaptersData[b])|
    requires (a, j) != (b, k)
    ensures ItemIds(ChaptersData[a])[j] != ItemIds(ChaptersData[b])[k]
  {
    SevenItemsPerChapter(a);
    SevenItemsPerChapter(b);
    if ItemIdAt(a + 1, j) == ItemIdAt(b + 1, k) {
      ItemIdAtInjective(a + 1, j, b + 1, k);
    }
  }

  /** Within a chapter the item identifiers are distinct. */
  lemma ItemIdsDistinct(i: nat)
    requires i < |ChaptersData|
    ensures Distinct(ItemIds(ChaptersData[i]))
  {
    SevenItemsPerChapter(i);
    forall j, k | 0 <= j < k < |ItemIds(ChaptersData[i])|
      ensures ItemIds(ChaptersData[i])[j] != ItemIds(ChaptersData[i])[k]
    {
      ItemIdsUniqueAcrossCurriculum(i, j, i, k);
    }
  }
}
