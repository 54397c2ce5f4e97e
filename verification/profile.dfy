/** The profile panel of `UserProfile`: the avatar file checks, the
    storage keys of the old and new avatar, the removal guard, and the
    progress statistics (global completion rate, per-chapter stats and the
    count of finished chapters). */
module Profile {
  import opened Wrappers
  import opened Seqs
  import opened JsText
  import opened Curriculum
  import opened Progress
  import opened ChapterPage
  import opened Reachability

  /** The picked file: name, MIME type and size in bytes (its bytes are not
      modelled). */
  datatype File = File(name: string, mimeType: string, size: nat)

  /** 5 MiB. */
  const MaxAvatarBytes: nat := 5 * 1024 * 1024

  /** What `handleFileSelect` does with the picked file. */
  datatype FileDecision = NoAction | RejectNotImage | RejectTooLarge | Upload(file: File)

  /** `handleFileSelect`: the type is checked before the size. */
  function HandleFileSelect(file: Option<File>): (d: FileDecision)
    ensures d.NoAction? <==> file.None?
    ensures d.Upload? ==> d.file == file.value
  {
    if file.None? then NoAction
    else if !StartsWith(file.value.mimeType, "image/") then RejectNotImage
    else if file.value.size > MaxAvatarBytes then RejectTooLarge
    else Upload(file.value)
  }

  /** A file is uploaded exactly when it is an image of at most 5 MiB, and
      a non-image is rejected for its type whatever its size. */
  lemma FileSelectRules(file: File)
    ensures HandleFileSelect(Some(file)).Upload? <==>
            StartsWith(file.mimeType, "image/") && file.size <= MaxAvatarBytes
    ensures !StartsWith(file.mimeType, "image/") ==> HandleFileSelect(Some(file)) == RejectNotImage
    ensures StartsWith(file.mimeType, "image/") && file.size > MaxAvatarBytes ==>
              HandleFileSelect(Some(file)) == RejectTooLarge
  {
  }

  /** The boundary: an image of exactly 5 MiB is uploaded, one byte more
      is rejected. */
  lemma SizeBoundary(name: string)
    ensures HandleFileSelect(Some(File(name, "image/png", 5242880))).Upload?
    ensures HandleFileSelect(Some(File(name, "image/png", 5242881))) == RejectTooLarge
  {
    assert "image/png"[..6] == "image/";
  }

  /** `file.name.split('.').pop()`. */
  function FileExtension(name: string): (ext: string)
    ensures '.' !in ext && |ext| <= |name| && ext == name[|name| - |ext|..]
  {
    LastSegment(name, '.')
  }

  /** The extension is the text after the last dot; a name without a dot
      is its own extension. */
  lemma ExtensionAfterLastDot(base: string, ext: string)
    requires '.' !in ext
    ensures FileExtension(base + "." + ext) == ext
    ensures '.' !in base ==> FileExtension(base) == base
  {
    LastSegmentAfterSeparator(base, '.', ext);
  }

  /** The storage key of the current avatar, `userId/` followed by the last
      `/` segment of its URL, when that segment is non-empty. */
  function AvatarKey(userId: string, avatarUrl: string): (key: Option<string>)
    ensures key.Some? ==> key.value == userId + "/" + LastSegment(avatarUrl, '/') && LastSegment(avatarUrl, '/') != ""
  {
    var fileName := LastSegment(avatarUrl, '/');
    if fileName != "" then Some(userId + "/" + fileName) else None
  }

  /** For a URL ending in `/name`, the key is `userId/name`; a URL ending in
      `/` names no file. */
  lemma AvatarKeyOfUrl(userId: string, prefix: string, name: string)
    requires '/' !in name
    ensures AvatarKey(userId, prefix + "/" + name) == if name != "" then Some(userId + "/" + name) else None
  {
    LastSegmentAfterSeparator(prefix, '/', name);
  }

  /** The storage operations of an upload: the old avatar to delete, if
      any, then the new file's key `userId/<millis>.<extension>`. */
  datatype UploadPlan = UploadPlan(removeKey: Option<string>, uploadKey: string)

  /** `uploadAvatar` up to the storage calls; nothing without a user. */
  function PlanUpload(user: Option<UserId>, avatarUrl: string, file: File, millis: string): (plan: Option<UploadPlan>)
    ensures plan.None? <==> user.None?
    ensures plan.Some? ==> (plan.value.removeKey.Some? ==> avatarUrl != "")
    ensures plan.Some? ==> plan.value.uploadKey == user.value + "/" + millis + "." + FileExtension(file.name)
  {
    if user.None? then None
    else
      var previous := if avatarUrl != "" then AvatarKey(user.value, avatarUrl) else None;
      Some(UploadPlan(previous, user.value + "/" + millis + "." + FileExtension(file.name)))
  }

  /** The storage key `removeAvatar` deletes, or nothing at all. */
  datatype RemovalPlan = NoRemoval | Remove(storageKey: Option<string>)

  /** `removeAvatar`: nothing without a user or without a current avatar. */
  function PlanRemoval(user: Option<UserId>, avatarUrl: string): (plan: RemovalPlan)
    ensures plan.NoRemoval? <==> user.None? || avatarUrl == ""
    ensures plan.Remove? ==> plan.storageKey == AvatarKey(user.value, avatarUrl)
  {
    if user.None? || avatarUrl == "" then NoRemoval else Remove(AvatarKey(user.value, avatarUrl))
  }

  /** Upload and removal address the same stored file for the same avatar. */
  lemma UploadAndRemovalAgree(user: UserId, avatarUrl: string, file: File, millis: string)
    requires avatarUrl != ""
    ensures PlanUpload(Some(user), avatarUrl, file, millis).value.removeKey
            == PlanRemoval(Some(user), avatarUrl).storageKey
  {
  }

  /** `completionRate`: completed rows over all rows, the formula of the
      store's global percentage. */
  function CompletionRate(rows: seq<ProgressRow>): (r: nat)
    ensures |rows| == 0 ==> r == 0
    ensures r <= 100
  {
    TotalProgressPercentage(rows)
  }

  /** An entry of the `chapterStats` table before its counts are added. */
  datatype StatEntry = StatEntry(id: string, total: nat)

  /** A row of the profile's chapter statistics. */
  datatype ChapterStat = ChapterStat(id: string, total: nat, completed: nat, percentage: nat)

  /** The counts of one entry: the chapter's completed rows and their
      percentage of the entry's total. */
  function StatOf(rows: seq<ProgressRow>, e: StatEntry): (s: ChapterStat)
    ensures s.id == e.id && s.total == e.total && s.completed == ChapterProgress(rows, e.id)
    ensures s.completed <= e.total ==> s.percentage <= 100
  {
    ChapterStat(e.id, e.total, ChapterProgress(rows, e.id), Percentage(ChapterProgress(rows, e.id), e.total))
  }

  function StatsOf(rows: seq<ProgressRow>, entries: seq<StatEntry>): (stats: seq<ChapterStat>)
    ensures |stats| == |entries|
    ensures forall i :: 0 <= i < |entries| ==> stats[i] == StatOf(rows, entries[i])
  {
    seq(|entries|, i requires 0 <= i < |entries| => StatOf(rows, entries[i]))
  }

  /** The totals as the profile writes them: 7, 8, 9 and 7 items. */
  const TotalsAsWritten: seq<StatEntry> :=
    [StatEntry("chapter-1", 7), StatEntry("chapter-2", 8), StatEntry("chapter-3", 9), StatEntry("chapter-4", 7)]

  /** `chapterStats` as written. */
  function ChapterStatsAsWritten(rows: seq<ProgressRow>): (stats: seq<ChapterStat>)
    ensures |stats| == 4
    ensures forall i :: 0 <= i < 4 ==> stats[i] == StatOf(rows, TotalsAsWritten[i])
    ensures stats[0].id == "chapter-1" && stats[0].total == 7
    ensures stats[1].id == "chapter-2" && stats[1].total == 8
    ensures stats[2].id == "chapter-3" && stats[2].total == 9
    ensures stats[3].id == "chapter-4" && stats[3].total == 7
    ensures forall i :: 0 <= i < 4 ==> stats[i].completed == ChapterProgress(rows, stats[i].id)
  {
    StatsOf(rows, TotalsAsWritten)
  }

  /** An entry whose count stays below its total shows less than 100%. */
  lemma BelowTotalNotFull(rows: seq<ProgressRow>, e: StatEntry)
    requires ChapterProgress(rows, e.id) < e.total < 200
    ensures StatOf(rows, e).percentage < 100
  {
    PercentageFullIffAll(ChapterProgress(rows, e.id), e.total);
  }

  /** Chapters 2 and 3 have seven items, not eight and nine, so in every
      reachable list their statistics stay below 100%. */
  lemma AsWrittenNeverFinishes(rows: seq<ProgressRow>)
    requires ValidRows(rows)
    ensures ChapterStatsAsWritten(rows)[1].percentage < 100
    ensures ChapterStatsAsWritten(rows)[2].percentage < 100
  {
    var stats := ChapterStatsAsWritten(rows);
    ChaptersNumberedInOrder(1);
    ChaptersNumberedInOrder(2);
    assert ChapterId(2) == "chapter-2" && ChapterId(3) == "chapter-3";
    ChapterProgressAtMostSeven(rows, 1);
    ChapterProgressAtMostSeven(rows, 2);
    assert stats[1] == StatOf(rows, StatEntry("chapter-2", 8));
    assert stats[2] == StatOf(rows, StatEntry("chapter-3", 9));
    BelowTotalNotFull(rows, StatEntry("chapter-2", 8));
    BelowTotalNotFull(rows, StatEntry("chapter-3", 9));
  }

  /** Every item of catalogue chapter `c`, recorded complete. */
  function AllItemsDone(user: UserId, c: nat): (rows: seq<ProgressRow>)
    requires c < |ChaptersData|
    ensures |rows| == 7
  {
    seq(7, k requires 0 <= k < 7 => ProgressRow("", user, ChaptersData[c].id, ItemIdAt(c + 1, k), true, None, ""))
  }

  /** Those rows complete the chapter, with seven completed rows. */
  lemma AllItemsDoneCompletes(user: UserId, c: nat)
    requires c < |ChaptersData|
    ensures IsChapterComplete(ChaptersData[c], AllItemsDone(user, c))
    ensures ChapterProgress(AllItemsDone(user, c), ChaptersData[c].id) == 7
  {
    var rows := AllItemsDone(user, c);
    var ch := ChaptersData[c];
    SevenItemsPerChapter(c);
    AllItemsMatchCatalogue(ch);
    forall k | 0 <= k < TotalItems(ch) ensures IsLessonComplete(rows, ch.id, ItemId(AllItems(ch)[k])) {
      assert ItemId(AllItems(ch)[k]) == ItemIdAt(c + 1, k);
      assert HasKey(rows[k], ch.id, ItemIdAt(c + 1, k)) && rows[k].completed;
    }
    FilterKeepsAll(rows, CompletedIn(ch.id));
  }

  /** Seven completed rows of chapter 2 read as 88% in the profile. */
  lemma SevenOfEightRounds(rows: seq<ProgressRow>)
    requires ChapterProgress(rows, "chapter-2") == 7
    ensures ChapterStatsAsWritten(rows)[1].percentage == 88
  {
    assert TotalsAsWritten[1] == StatEntry("chapter-2", 8);
    assert ChapterStatsAsWritten(rows)[1] == StatOf(rows, TotalsAsWritten[1]);
    assert Percentage(7, 8) == 88;
  }

  /** A user who completed all seven items of chapter 2 sees the chapter
      complete on its page but 88% in the profile. */
  lemma CompleteChapterShowsEightyEight(user: UserId)
    ensures IsChapterComplete(ChaptersData[1], AllItemsDone(user, 1))
    ensures ChapterStatsAsWritten(AllItemsDone(user, 1))[1].percentage == 88
  {
    AllItemsDoneCompletes(user, 1);
    ChapterIdsAsWritten();
    SevenOfEightRounds(AllItemsDone(user, 1));
  }

  /** The totals taken from the catalogue: each chapter's lessons and
      exercises. */
  function CatalogueTotals(): (entries: seq<StatEntry>)
    ensures |entries| == |ChaptersData|
    ensures forall i :: 0 <= i < |ChaptersData| ==> entries[i] == StatEntry(ChaptersData[i].id, TotalItems(ChaptersData[i]))
  {
    seq(|ChaptersData|, i requires 0 <= i < |ChaptersData| => StatEntry(ChaptersData[i].id, TotalItems(ChaptersData[i])))
  }

  /** The chapter statistics over the catalogue's own totals. */
  function ChapterStats(rows: seq<ProgressRow>): (stats: seq<ChapterStat>)
    ensures |stats| == |ChaptersData|
  {
    StatsOf(rows, CatalogueTotals())
  }

  /** With the catalogue's totals, and in every reachable list, a chapter's
      statistic lies in 0..100 and reads 100 exactly when the chapter page
      shows the chapter complete. */
  lemma StatFullIffChapterComplete(rows: seq<ProgressRow>, c: nat)
    requires c < |ChaptersData| && ValidRows(rows)
    ensures ChapterStats(rows)[c].percentage <= 100
    ensures ChapterStats(rows)[c].percentage == 100 <==> IsChapterComplete(ChaptersData[c], rows)
  {
    SevenItemsPerChapter(c);
    ChapterProgressAtMostSeven(rows, c);
    ChapterProgressSevenIffComplete(rows, c);
    PercentageFullIffAll(ChapterProgress(rows, ChaptersData[c].id), 7);
  }

  /** The filter predicate of the finished-chapter count. */
  function Finished(): ChapterStat -> bool {
    (s: ChapterStat) => s.percentage == 100
  }

  /** The number of chapters shown as finished: those at 100%. */
  function FinishedChapters(stats: seq<ChapterStat>): (n: nat)
    ensures n <= |stats|
  {
    |Filter(stats, Finished())|
  }

  /** The filter predicate selecting the chapters complete on their page. */
  function CompleteOnPage(rows: seq<ProgressRow>): ChapterData -> bool {
    (ch: ChapterData) => IsChapterComplete(ch, rows)
  }

  /** In every reachable list the corrected count of finished chapters is
      the number of chapters complete on their page. */
  lemma FinishedCountsCompleteChapters(rows: seq<ProgressRow>)
    requires ValidRows(rows)
    ensures FinishedChapters(ChapterStats(rows)) == |Filter(ChaptersData, CompleteOnPage(rows))|
  {
    var stats := ChapterStats(rows);
    forall i | 0 <= i < |stats| ensures Finished()(stats[i]) <==> CompleteOnPage(rows)(ChaptersData[i]) {
      StatFullIffChapterComplete(rows, i);
    }
    FilterLengthAgrees(stats, Finished(), ChaptersData, CompleteOnPage(rows));
  }
}
