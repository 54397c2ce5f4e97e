# A model of the JavaScript course application

This project models the browser-side logic of a French-language JavaScript learning site. The site serves four chapters, each with four lessons and three exercises, plus one final project per chapter. Each item has an in-page code editor that runs the learner's script and captures its console output. A signed-in learner's progress is stored as rows keyed by (chapter, lesson). The chapter page, the project page, the home page's cards and the profile's statistics are each computed from such a list of rows. Each of them holds its own copy of the list; the model treats one copy at a time.

One Dafny module follows each part of the program:

- `Curriculum`: the chapter and project catalogue.
- `Progress`: the progress store hook.
- `Editor`: the code editor and its output transcript.
- `Auth`: the sign-in and sign-up form.
- `AuthCallback`: the email-confirmation landing page.
- `ChapterPage` and `ProjectPage`: the two course pages.
- `App`: the application shell, its router and its cards.
- `Profile`: the user profile.

Three support modules sit underneath them:

- `JsText`: the JavaScript string and number operations the code relies on (`startsWith`, `includes`, `split('/').pop()`, `||` on strings, and `Math.round` of a percentage).
- `Seqs`: `filter`, `find` and `some`.
- `Reachability`: states and preserves an invariant on the progress rows that the app's own writes can produce:
  - every (chapter, lesson) key appears in at most one row;
  - every row filed under a catalogue chapter names one of that chapter's seven items.

Backend answers are parameters of the operations rather than effects:

- `UpsertOutcome`: the answer to the progress upsert.
- `FetchOutcome`: the answer to the progress select.
- `SubmitAnswer` and `ResendAnswer`: the sign-in, sign-up and resend answers.
- `Execution`: the console calls a script makes and its fault, if any.

The wall clock is a `Clock` value.

Two behaviours of the code are worth stating:

- `console.error` lines are marked `❌ Error: `, while a parse or runtime fault is marked `❌ Erreur: `.
- The copy action sets the copied flag without waiting for the clipboard write. A rejected write is therefore never surfaced. On a page without a clipboard API the write call throws first, and the flag is never raised.

## Model

| member | source | states |
|---|---|---|
| Curriculum.ItemIds | src/data/chapters.ts:1-24 | A chapter's item identifiers are its lesson ids followed by its exercise ids, position by position |
| Curriculum.ChapterIdsAsWritten | src/data/chapters.ts:26-1219 | The catalogue holds four chapters, `chapter-1` to `chapter-4`, numbered 1 to 4, with item ids such as `lesson-2-1` and `exercise-4-3` |
| Curriculum.ChaptersNumberedInOrder | src/data/chapters.ts:26-1219 | Chapter i+1 sits at position i and carries the id `chapter-(i+1)` |
| Curriculum.SevenItemsPerChapter | src/data/chapters.ts:26-1219 | Every chapter has four lessons and three exercises, so seven item ids |
| Curriculum.IdsCarryRoutingPrefix | src/data/chapters.ts:1221-1246 | Every chapter id starts with `chapter-` and every project id with `project-`, the prefixes the router tests |
| Curriculum.ProjectLinksResolve | src/data/chapters.ts:1221-1246 | Chapter i's `projectId` is the id of project i, so every chapter's final project is listed |
| Curriculum.ChapterIdsDistinct | src/data/chapters.ts:26-1219 | No two chapters share an id |
| Curriculum.ItemIdAtInjective | src/data/chapters.ts:26-1219 | Different (chapter, position) pairs give different item ids |
| Curriculum.ItemIdsUniqueAcrossCurriculum | src/data/chapters.ts:26-1219 | No item id is used twice anywhere in the catalogue |
| Curriculum.ItemIdsDistinct | src/data/chapters.ts:26-1219 | Within a chapter the seven item ids are pairwise different |
| Progress.OnUserChange | src/hooks/useProgress.ts:20-46 | Signing out empties the list; a successful load replaces it with the rows read, or with the empty list when the select returns no data; a failed load keeps the list |
| Progress.FetchProgress | src/hooks/useProgress.ts:29-46 | Without a user, or when the select fails, the list stays as it was; a successful select gives its rows, or the empty list for null data |
| Progress.ChapterProgress | src/hooks/useProgress.ts:104-107 | A chapter's count never exceeds the list's length |
| Progress.ChapterProgressPositive | src/hooks/useProgress.ts:104-107 | A chapter's count is positive exactly when some row filed under the chapter is completed |
| Progress.CompletedLessonsCount | src/hooks/useProgress.ts:109-111 | The completed count equals the list's length exactly when every row is completed, and is positive exactly when some row is |
| Progress.LocalUpdate | src/hooks/useProgress.ts:76-89 | After the local update the last row is a completed row for the key, and the rows before it are the old rows of every other key, in order |
| Progress.MarkLessonComplete | src/hooks/useProgress.ts:48-96 | Nothing changes without a user, on a rejected write, or when the first row for the key is already completed; an accepted write whose refetch fails leaves the key completed |
| Progress.IsLessonComplete | src/hooks/useProgress.ts:98-102 | True exactly when some row with that key is completed |
| Progress.TotalProgressPercentage | src/hooks/useProgress.ts:113-118 | The global percentage is 0 for an empty list and never exceeds 100 |
| Progress.CountsOrdered | src/hooks/useProgress.ts:104-111 | A chapter's completed count is at most the overall completed count, which is at most the number of rows |
| Progress.TotalPercentageFull | src/hooks/useProgress.ts:113-118 | For fewer than 200 rows the global percentage reads 100 exactly when every row is completed |
| Progress.WithoutDropsKey | src/hooks/useProgress.ts:77-79 | The filter in the local update removes every row of the key |
| Progress.LocalUpdateSingleRow | src/hooks/useProgress.ts:76-89 | After the local update exactly one row carries the key, and it is completed |
| Progress.LocalUpdateKeepsOthers | src/hooks/useProgress.ts:76-89 | The local update keeps the rows of all other keys, unchanged and in their order |
| Progress.FilterIdempotent | src/hooks/useProgress.ts:77-79 | Filtering twice with the same predicate equals filtering once |
| Progress.LocalUpdateKeepsIdentity | src/hooks/useProgress.ts:80-88 | A replaced row keeps the existing row's `id` and `created_at` when they are non-empty; a new key gets a `temp-` id from the clock |
| Progress.MarkIdempotent | src/hooks/useProgress.ts:53-59 | Marking a key a second time, after an accepted first mark, changes nothing |
| Progress.MarkEffect | src/hooks/useProgress.ts:48-96 | While the local list stands, a mark is the local update exactly when someone is signed in, the key's first row is not completed and the write is accepted; otherwise nothing changes |
| Progress.LocalUpdateFindsNewRow | src/hooks/useProgress.ts:53-55 | After the local update, `find` for the key returns the newly written row |
| Progress.MarkKeepsCompletion | src/hooks/useProgress.ts:48-96 | While the local list stands, marking never takes a completed key away |
| Progress.WithoutKeepsOtherCompletion | src/hooks/useProgress.ts:77-79 | Dropping one key's rows leaves every other key's completion as it was, in both directions |
| Progress.AppendOtherKeyCompletion | src/hooks/useProgress.ts:80 | Appending a row of another key leaves a key's completion as it was |
| Progress.LocalUpdateOtherCompletion | src/hooks/useProgress.ts:76-89 | The local update leaves every other key's completion as it was, in both directions |
| Progress.MarkOnlyTouchesItsKey | src/hooks/useProgress.ts:76-89 | While the local list stands, marking one key leaves every other key's completion as it was, in both directions |
| Progress.FilterKeepsUniqueKeys | src/hooks/useProgress.ts:77-79 | Filtering a list with one row per key keeps one row per key |
| Progress.UniqueKeysPairwise | src/hooks/useProgress.ts:5-13 | One row per key means no later row repeats an earlier row's key |
| Progress.AppendKeepsUniqueKeys | src/hooks/useProgress.ts:80 | Appending a row with a new key keeps one row per key |
| Progress.MarkKeepsUniqueKeys | src/hooks/useProgress.ts:48-96 | Marking keeps at most one row per key, given a refetched list that has that property too |
| Editor.Lines | src/components/CodeEditor.tsx:28-66 | The transcript has one line per console call in call order, then exactly one fault line if the script faulted; only that last line is a fault line |
| Editor.RenderAllAppend | src/components/CodeEditor.tsx:38 | The output text of two line sequences in a row is the concatenation of their texts |
| Editor.FaultKeepsEarlierOutput | src/components/CodeEditor.tsx:61-63 | A fault appends one marked line after everything printed before it; nothing printed is lost |
| Editor.OutputFollowsCallOrder | src/components/CodeEditor.tsx:34-47 | The output of calls `a` then `b` is the output of `a` followed by the output of `b` |
| Editor.SingleCallOutput | src/components/CodeEditor.tsx:34-47 | One `log`, `error` or `warn` call prints its arguments joined by single spaces, behind its marker, ending in a newline |
| Editor.RenderedCall | src/components/CodeEditor.tsx:34-47 | The line a call adds is its arguments joined by single spaces, behind the marker of its kind, then a newline |
| Editor.ParseFaultOutput | src/components/CodeEditor.tsx:50-63 | A script that does not parse prints exactly one fault line with the parser's message |
| Editor.Mount | src/components/CodeEditor.tsx:17-20 | A new editor holds the initial code, empty output, and both flags lowered |
| Editor.ReceiveInitialCode | src/components/CodeEditor.tsx:23-26 | A changed initial code replaces the code and clears the output; an unchanged one leaves the editor as it is |
| Editor.Reset | src/components/CodeEditor.tsx:68-71 | Reset restores the initial code, clears the output and touches nothing else |
| Editor.Copy | src/components/CodeEditor.tsx:73-77 | With a clipboard API, copy hands the current code to the clipboard and raises the copied flag; without one, nothing changes and nothing is copied; code and output are left alone either way |
| Editor.RunCode | src/components/CodeEditor.tsx:28-66 | Building the output line by line yields the transcript of the execution; the code is untouched and the running flag is raised |
| Editor.RunOnlyWhenEnabled | src/components/CodeEditor.tsx:100 | A click on Run while running or read-only changes nothing; otherwise the output becomes the run's transcript and Run is disabled |
| Editor.StepsKeepInitialCode | src/components/CodeEditor.tsx:17-77 | No sequence of edits, runs, copies, resets, timer firings or late console calls changes the initial code or the read-only flag |
| Editor.ResetRestoresInitialCode | src/components/CodeEditor.tsx:68-71 | Whatever happened since the editor opened, reset brings back exactly the initial code with empty output |
| Editor.Edit | src/components/CodeEditor.tsx:119-123 | A read-only text area ignores typing; otherwise the typed text becomes the code and nothing else changes |
| Editor.Step | src/components/CodeEditor.tsx:28-77 | No action changes the initial code or the read-only flag, a read-only editor on its initial code keeps it, and a late console call appends its rendered line to whatever the pane holds |
| Editor.TimersIndependent | src/components/CodeEditor.tsx:65-77 | The run timer lowers only the running flag and the copy timer only the copied flag |
| Editor.LateCallOutlivesRun | src/components/CodeEditor.tsx:33-48 | A console call from a script's callback after a reset stands alone in the cleared pane, and after a new run lands behind that run's transcript |
| Editor.ReadOnlyCodeFixed | src/components/CodeEditor.tsx:119-123 | A read-only editor's code never changes |
| JsText.Includes | src/components/Auth.tsx:44-49 | `includes` holds exactly when the searched text occurs somewhere in the string |
| JsText.OrElse | src/components/Chapter.tsx:174 | `a \|\| b` on strings is non-empty exactly when one side is, and is `a` whenever `a` is non-empty |
| JsText.Split | src/components/UserProfile.tsx:44 | `split` gives at least one part, no part contains the separator, and joining the parts back gives the string |
| JsText.LastSegment | src/components/UserProfile.tsx:44 | `split(sep).pop()` is a separator-free suffix of the string, preceded by the separator when shorter than the string |
| JsText.LastSegmentIsSuffix | src/components/UserProfile.tsx:128 | The last part of `split` is a suffix of the string, preceded by the separator when it is shorter than the string |
| JsText.LastSegmentAfterSeparator | src/components/UserProfile.tsx:53 | The last segment of `prefix + sep + tail` is `tail` when `tail` has no separator |
| JsText.SplitJoinRoundTrip | src/components/UserProfile.tsx:44 | Joining the parts of `split` with the separator gives back the string |
| JsText.RoundPercent | src/components/Chapter.tsx:61 | The rounded percentage is the nearest integer to 100·part/whole, halves rounding up; it is at most 100 when part ≤ whole, and 100 when they are equal |
| JsText.Percentage | src/components/Chapter.tsx:61 | The guarded percentage is 0 for a zero total and at most 100 when part ≤ whole |
| JsText.PercentageFullIffAll | src/components/Chapter.tsx:61 | Below 200 items the percentage reads 100 exactly when every item is counted |
| Auth.Utf16Length | src/components/Auth.tsx:79 | JavaScript's `length` lies between the number of characters and twice that, and equals it when no character lies outside the basic plane |
| Auth.ValidatePassword | src/components/Auth.tsx:78-89 | Each criterion holds exactly when the password has six code units, an ASCII digit or an ASCII letter; the password is valid exactly when all three hold |
| Auth.PasswordLengthExamples | src/components/Auth.tsx:78-89 | `abc12` is too short and `abc123` is valid |
| Auth.AstralCharactersCountTwice | src/components/Auth.tsx:79 | Three emoji pass the six-character minimum, because each counts as two code units |
| Auth.MapError | src/components/Auth.tsx:43-53 | The resend panel opens exactly when the message mentions an unconfirmed email, with the matching French text, and the error shown is never empty |
| Auth.MapErrorIsFirstMatch | src/components/Auth.tsx:43-53 | The error shown is the message of the first rule whose phrase occurs in the backend message; without a match the raw message, or the default when it is empty |
| Auth.RawMessageShown | src/components/Auth.tsx:51-53 | A non-empty message matching no rule is shown as is, and the panel stays closed |
| Auth.SubmitDisabled | src/components/Auth.tsx:238 | The button is disabled while a request is pending; in sign-in mode only then; an idle sign-up button is enabled if and only if the password meets all three criteria |
| Auth.BeginSubmit | src/components/Auth.tsx:24-26 | Submitting raises the loading flag and clears both messages, keeping the fields |
| Auth.Submit | src/components/Auth.tsx:22-57 | Loading ends; a rejection shows the mapped error; an acceptance shows a success message; the modal closes after 2000 or 1000 ms except for an unconfirmed sign-up, which opens the email panel |
| Auth.SubmitForgetsOldMessages | src/components/Auth.tsx:24-26 | The messages after a submit depend on the answer and the mode alone, never on the messages shown before |
| Auth.Resend | src/components/Auth.tsx:59-76 | Without an email only an error is set and no request is made; otherwise loading ends with the confirmation message or the backend's error |
| Auth.ToggleMode | src/components/Auth.tsx:262-267 | Switching mode flips sign-in and sign-up and clears the messages and the email panel, keeping the fields |
| Auth.ToggleTwice | src/components/Auth.tsx:262-267 | Switching twice returns to the same mode, with messages cleared |
| AuthCallback.Decide | src/components/AuthCallback.tsx:15-36 | The page succeeds exactly for a signed-in user with a confirmed email, and only then goes home after 3000 ms; each failure carries its own message |
| AuthCallback.Mount | src/components/AuthCallback.tsx:11-12 | The page mounts loading, with no navigation scheduled |
| AuthCallback.Handle | src/components/AuthCallback.tsx:14-42 | A user change keeps the view and any scheduled navigation and records the user; the timer's firing ends the loading state and schedules the navigation home exactly for a confirmed user, keeping one already scheduled |
| AuthCallback.HomePendingSurvives | src/components/AuthCallback.tsx:23-25 | A scheduled navigation home is never withdrawn by later events, since the cleanup cancels only the one-second timer |
| AuthCallback.HomePendingIffConfirmedFiring | src/components/AuthCallback.tsx:14-42 | The navigation home is pending exactly when some firing met a signed-in user with a confirmed email |
| AuthCallback.LastFiringDecides | src/components/AuthCallback.tsx:14-42 | After the last firing the page shows the decision for the user current at that firing |
| AuthCallback.UserChangesKeepView | src/components/AuthCallback.tsx:42 | User changes alone never change what the page shows |
| AuthCallback.LoadingUntilTimer | src/components/AuthCallback.tsx:11 | Until the timer fires the page is loading |
| ChapterPage.AllItems | src/components/Chapter.tsx:18-19 | The page's items are the lessons in order, then the exercises in order |
| ChapterPage.AllItemsMatchCatalogue | src/components/Chapter.tsx:18-23 | The page's items carry exactly the chapter's catalogue ids, in the same order |
| ChapterPage.IsExerciseMatchesItem | src/components/Chapter.tsx:46-47 | The index test for an exercise agrees with the kind of item stored at that index |
| ChapterPage.Next | src/components/Chapter.tsx:49-53 | Next moves one step forward exactly when a next item exists, and never leaves the range |
| ChapterPage.Previous | src/components/Chapter.tsx:55-59 | Previous moves one step back exactly when the index is positive |
| ChapterPage.DisabledIffNoMove | src/components/Chapter.tsx:183-198 | Within range, a button is disabled exactly when clicking it would not move |
| ChapterPage.Navigate | src/components/Chapter.tsx:105-122 | An exercise button lands on an exercise and a lesson button on a lesson |
| ChapterPage.SelectionLandsOnItem | src/components/Chapter.tsx:105-122 | Each selection button lands on the very item it shows |
| ChapterPage.IndexStaysInRange | src/components/Chapter.tsx:49-59 | From any index in range, no sequence of clicks on existing buttons leaves the range |
| ChapterPage.CompletedCount | src/components/Chapter.tsx:21-23 | The completed count never exceeds the number of items |
| ChapterPage.IsChapterComplete | src/components/Chapter.tsx:31 | The chapter is complete exactly when each of its items has a completed row |
| ChapterPage.ProgressPercentage | src/components/Chapter.tsx:61 | The percentage is at most 100, is 0 for an empty chapter, and is 100 for a complete one |
| ChapterPage.FullPercentageIffComplete | src/components/Chapter.tsx:61 | Below 200 items the page shows 100% exactly when the chapter is complete |
| ChapterPage.CompleteItem | src/components/Chapter.tsx:25-29 | Without a user nothing changes; an accepted write makes the item complete |
| ChapterPage.CompleteItemRaisesCount | src/components/Chapter.tsx:21-29 | Completing an item never lowers the count, and raises it when the item was not done and the write was accepted |
| ChapterPage.EditorCode | src/components/Chapter.tsx:174 | A lesson's editor opens on the lesson's code and an exercise's on its starting code |
| ProjectPage.ProjectSteps | src/components/Project.tsx:25-212 | Every project opens on its introduction, and only project 1 has a step after it |
| ProjectPage.CompletedSteps | src/components/Project.tsx:223-225 | The completed count counts the introduction and never exceeds the number of steps |
| ProjectPage.ProjectCompletion | src/components/Project.tsx:223-227 | A project that is only an introduction is complete at once; project 1 is complete exactly when its step is |
| ProjectPage.CompleteStep | src/components/Project.tsx:217-221 | The introduction and a signed-out user record nothing; an accepted write completes the step |
| ProjectPage.CompletingStepCompletesProject | src/components/Project.tsx:217-227 | Completing project 1's step with the write accepted completes the project |
| ProjectPage.HandleComplete | src/components/Project.tsx:229-233 | Finishing records the `completed` marker for a signed-in user and nothing otherwise |
| ProjectPage.MarkerLeavesStepsAlone | src/components/Project.tsx:227-233 | Recording the `completed` marker neither completes nor un-completes a project's steps |
| ProjectPage.PreviousStep | src/components/Project.tsx:338 | Previous steps back by one and stays at 0 exactly at the first step |
| ProjectPage.NextStep | src/components/Project.tsx:347 | Next stays within the steps, and within range it stays put exactly at the last step |
| ProjectPage.StepButtonsAgree | src/components/Project.tsx:338-348 | Within range, a step button is disabled exactly when clicking it would not move |
| Reachability.MarkKeepsRowsNameItems | src/components/Chapter.tsx:25-29 | Marking an allowed key keeps every chapter row naming one of that chapter's items |
| Reachability.ProjectIdsAreNotChapterIds | src/data/chapters.ts:1221-1246 | No project id equals a chapter id, so project rows never count towards a chapter |
| Reachability.ChapterItemKeyAllowed | src/components/Chapter.tsx:25-29 | A chapter page writes only its own items under its own id |
| Reachability.ProjectKeyAllowed | src/components/Project.tsx:217-233 | Any key filed under a project's id respects the invariant, since no project id is a chapter id |
| Reachability.MarkKeepsValidRows | src/hooks/useProgress.ts:48-96 | Marking an allowed key keeps both halves of the invariant |
| Reachability.WriteKeepsValidRows | src/hooks/useProgress.ts:48-96 | Every write the pages can issue keeps one row per key and chapter rows naming that chapter's items |
| Reachability.UserChangeKeepsValidRows | src/hooks/useProgress.ts:20-27 | Signing in or out keeps the invariant, given a loaded list that satisfies it |
| Reachability.LessonIdsOf | src/hooks/useProgress.ts:104-107 | The lesson ids of a list of rows, one per row, in order |
| Reachability.ChapterLessonIdsDistinct | src/hooks/useProgress.ts:104-107 | With one row per key, a chapter's completed rows name pairwise different items |
| Reachability.ChapterLessonIdsAreItems | src/hooks/useProgress.ts:104-107 | Under the invariant, a chapter's completed rows name only that chapter's items |
| Reachability.SevenItemIds | src/data/chapters.ts:26-1219 | A chapter has seven distinct item ids |
| Reachability.NamedLessonComplete | src/hooks/useProgress.ts:98-107 | An item named by a completed row of the chapter is complete |
| Reachability.CompleteLessonNamed | src/hooks/useProgress.ts:98-107 | A complete item is named by a completed row of the chapter |
| Reachability.ChapterLessonSet | src/hooks/useProgress.ts:104-107 | Under the invariant, the items named by a chapter's completed rows are exactly its complete items |
| Reachability.ChapterProgressAtMostSeven | src/hooks/useProgress.ts:104-107 | Under the invariant, a chapter's progress count never exceeds its seven items |
| Reachability.SevenRowsMeansComplete | src/components/Chapter.tsx:31 | Under the invariant, seven completed rows mean the chapter page shows it complete |
| Reachability.CompleteMeansSevenRows | src/components/Chapter.tsx:31 | Under the invariant, a chapter the page shows complete has seven completed rows |
| Reachability.ChapterProgressSevenIffComplete | src/hooks/useProgress.ts:104-107 | Under the invariant, the progress count is seven exactly when the chapter page shows the chapter complete |
| App.CallbackAddressRouting | src/App.tsx:22-60 | Opening the site shows the confirmation page exactly for a confirmation redirect (the callback path, or an `access_token` or `refresh_token` parameter), and home otherwise |
| App.OnLoad | src/App.tsx:22-33 | A confirmation redirect opens the callback view; any other address leaves the shell alone |
| App.ProtectedNavigation | src/App.tsx:36-42 | Without a user the sign-in form opens and the view stays; with one the view changes |
| App.RenderContent | src/App.tsx:44-90 | The sign-in form comes first, then the profile; with neither open, `auth-callback` and `contact` show their own screens; a chapter or project screen always shows the catalogue entry whose id is the current view |
| App.EveryChapterRoutes | src/App.tsx:63-74 | With no modal open, every chapter's view shows that chapter |
| App.EveryProjectRoutes | src/App.tsx:77-87 | With no modal open, every project's view shows that project |
| App.HomeIsTheFallback | src/App.tsx:55-90 | With no modal open, home shows exactly for views that are neither special nor a catalogue id |
| App.CardProgress | src/App.tsx:234 | A card shows no progress to a signed-out visitor, and never more than the chapter's completed rows |
| App.CardShowsProgress | src/App.tsx:246-256 | A card shows its percentage exactly to a signed-in user with a completed row filed under the chapter |
| App.ProjectCardComplete | src/App.tsx:269 | A project card is complete only for a signed-in user, exactly when the `completed` marker that the project page writes is recorded |
| App.FinishedProjectCardComplete | src/App.tsx:269 | Finishing a project on its page with the write accepted marks its home card complete |
| App.CardPercentage | src/App.tsx:235-236 | A card's percentage is 0 for a signed-out visitor or an empty chapter |
| App.CardPercentageFaithful | src/App.tsx:234-236 | Under the invariant, a catalogue chapter's card reads at most 100, and 100 exactly when the chapter is complete |
| Profile.HandleFileSelect | src/components/UserProfile.tsx:102-119 | No file means no action; an upload carries the chosen file |
| Profile.FileSelectRules | src/components/UserProfile.tsx:106-118 | A file uploads exactly when it is an image of at most 5 MiB; non-images and oversized images are rejected with their own alerts |
| Profile.SizeBoundary | src/components/UserProfile.tsx:113 | An image of exactly 5242880 bytes uploads and one byte more is rejected |
| Profile.FileExtension | src/components/UserProfile.tsx:53 | The extension is the dot-free suffix of the file name |
| Profile.ExtensionAfterLastDot | src/components/UserProfile.tsx:53 | The extension of `base.ext` is `ext`, and a dot-free name is its own extension |
| Profile.AvatarKey | src/components/UserProfile.tsx:43-50 | The old avatar's storage key is the user id and the URL's last segment, and exists only when that segment is non-empty |
| Profile.AvatarKeyOfUrl | src/components/UserProfile.tsx:128-133 | For a URL ending in `/name` the key is `user/name`, or none when the name is empty |
| Profile.PlanUpload | src/components/UserProfile.tsx:36-54 | Only a signed-in user uploads; the new key is `user/millis.ext`; an old key is removed only when there is an avatar URL |
| Profile.PlanRemoval | src/components/UserProfile.tsx:121-133 | Removal happens exactly for a signed-in user with an avatar, under the avatar's storage key |
| Profile.UploadAndRemovalAgree | src/components/UserProfile.tsx:43-50 | Replacing an avatar deletes the same storage key that removing it would |
| Profile.CompletionRate | src/components/UserProfile.tsx:166-168 | The profile's rate is the store's global percentage over the same rows: 0 without rows and never above 100 |
| Profile.StatOf | src/components/UserProfile.tsx:175-181 | A statistic counts the chapter's completed rows and stays at most 100 when the count is within its total |
| Profile.StatsOf | src/components/UserProfile.tsx:170-182 | One statistic per entry, in order |
| Profile.ChapterStatsAsWritten | src/components/UserProfile.tsx:170-182 | The statistics with the totals as written: four rows, `chapter-1` to `chapter-4`, with totals 7, 8, 9 and 7, each counting that chapter's completed rows and giving its percentage of the written total |
| Profile.AsWrittenNeverFinishes | src/components/UserProfile.tsx:172-173 | With the totals as written, chapters 2 and 3 never reach 100% in any reachable list |
| Profile.BelowTotalNotFull | src/components/UserProfile.tsx:180 | An entry whose count stays below its total shows less than 100% |
| Profile.AllItemsDone | src/data/chapters.ts:26-1219 | A list of seven rows, one completed row per item of a chapter |
| Profile.AllItemsDoneCompletes | src/components/Chapter.tsx:31 | That list completes the chapter and gives it a progress count of seven |
| Profile.SevenOfEightRounds | src/components/UserProfile.tsx:180 | Seven completed rows of chapter 2 show as 88% with the total of 8 as written |
| Profile.CompleteChapterShowsEightyEight | src/components/UserProfile.tsx:172 | A chapter 2 that its own page shows complete appears at 88% on the profile |
| Profile.CatalogueTotals | src/components/UserProfile.tsx:170-174 | The corrected totals: each chapter's item count taken from the catalogue |
| Profile.ChapterStats | src/components/UserProfile.tsx:170-182 | The corrected statistics, one per catalogue chapter |
| Profile.StatFullIffChapterComplete | src/components/UserProfile.tsx:170-182 | Under the invariant, a corrected statistic is at most 100, and 100 exactly when the chapter page shows the chapter complete |
| Profile.FinishedChapters | src/components/UserProfile.tsx:302 | The number of finished chapters never exceeds the number of statistics |
| Profile.FinishedCountsCompleteChapters | src/components/UserProfile.tsx:302 | Under the invariant, the corrected finished count equals the number of chapters whose page shows them complete |

## Left out

- Script evaluation (`eval` and the wrapper function) is not modelled: a run is given as its sequence of console calls and optional fault message.
- Editor.Lines: a script that throws `null` or `undefined` is not modelled. Reading `.message` of that value throws inside the output updater at the next render, so no fault line is written and the render itself fails; no error boundary in these components catches it. The model gives every fault a message string. For other thrown values without a `message` property, that string is `undefined`, as the concatenation prints it.
- Editor.FaultKeepsEarlierOutput: for the same reason, it does not cover a thrown `null` or `undefined`, which appends no fault line.
- `String(x)` and `JSON.stringify(x, null, 2)` are not computed: each `JsValue` carries both forms as data.
- The backend client calls (`supabase` queries, storage, `signUp`, `signIn`, `resendConfirmation`) are not modelled: each backend answer is a parameter. `src/hooks/useAuth.ts` and `src/lib/supabase.ts` are not part of this model.
- The loading flags of the progress store and the profile are left out, because they only drive spinners.
- The `console.error` logging in the catch blocks is left out.
- Timers are modelled as explicit events, not durations:
  - the 500 ms run timer;
  - the 2000 ms copy timer;
  - the 1000 ms callback timer;
  - the 3000 ms navigation home, which is a flag that a success raises;
  - the modal-closing delays, which are returned as numbers.
- The clipboard write itself (beyond whether the clipboard API exists), `alert`, `Date.now()`, `new Date().toISOString()` and the file bytes are not modelled: the clock is a parameter and a file is its name, type and size.
- `src/components/Contact.tsx` is not part of this model. It is reached only through the `contact` view.
- JSX rendering, styling and icons are not modelled.
- The chapter page's re-render counter `key` is left out. It only remounts the editor.
- The lesson and exercise text is not modelled, and their code snippets are set to the empty string.
- Math.round is modelled in exact arithmetic as round-half-up of the rational `100·part/whole`, not in floating point.
- The regular expressions `/\d/` and `/[a-zA-Z]/` are modelled as ASCII character tests.
- URL query parsing is left out: a location is its path plus the set of query parameter names.
- The shell's loading screen, shown instead of everything else while the session is being restored (`authLoading`), is left out: the shell is modelled once that check has finished.
- The `window.history.replaceState` call that strips the confirmation parameters from the address is left out: it changes no state the model keeps.
- The browser's `required` and `minLength` form validation is left out.
- The `catch` branch of `handleAuthCallback` is left out: nothing in its `try` block can throw.
- `uploadAvatar` and `removeAvatar` are modelled up to the storage keys they compute. The upload itself, the public URL, the metadata and profile updates, `refreshUser` and the alerts are left out.
- `handleSignOut`, the `uploading` flag and the effect that copies the avatar URL from the user's metadata are left out.
- Progress.MarkLessonComplete: the mark is one atomic step. In the code, the existing row is read from the list of the render that started the mark, while the local update filters the list current when the write returns; the refetch uses the user of that render. A sign-out during the awaited upsert therefore gets the old user's new row appended to the emptied list, and the pending refetch reloads the old user's rows. That interleaving is not modelled, so "signing out empties the list" holds only until such a pending mark completes.
- Progress.OnUserChange: every page holds its own copy of the progress list (the shell, the chapter page, the project page and the profile each call the hook), and a copy reloads only when its user changes or after its own mark. The model follows one copy. Properties that relate two pages, such as a home card agreeing with the chapter page or `Profile.FinishedCountsCompleteChapters`, hold for copies holding the same rows; a card can lag behind marks made on another page until it reloads.
- Editor.Step: an exception thrown by a late callback of the script is not caught by the editor and is not modelled; only its console calls are.
- Progress.MarkLessonComplete: after an accepted write whose refetch succeeds, the result is the refetched list, and the contract says nothing more about that list's contents.
- ChapterPage.FullPercentageIffComplete: assumes fewer than 200 items, the range where one missing item already rounds below 100. Every catalogue chapter has seven items.
- Progress.TotalPercentageFull: assumes fewer than 200 rows, for the same rounding reason.

## Findings

| source | as written | input that shows it | evidently intended | confidence | as-written member | corrected member |
|---|---|---|---|---|---|---|
| src/components/UserProfile.tsx:172-173 | The profile's statistics give chapter 2 a total of 8 items and chapter 3 a total of 9. | All seven items of chapter 2 completed. The chapter page shows the chapter complete at 100%, but the profile shows 7/8 = 88%, so the chapter never counts as finished. | Each chapter's total is its number of lessons plus exercises (7 for every chapter), as the chapter page and the home cards compute it. | not executed | Profile.CompleteChapterShowsEightyEight | Profile.StatFullIffChapterComplete |
