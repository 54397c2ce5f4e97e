/** The application shell of `App`: detecting an email-confirmation
    redirect, the sign-in guard on protected views, the choice of screen
    from the view state, and the home page's chapter and project cards. */
module App {
  import opened Wrappers
  import opened Seqs
  import opened JsText
  import opened Curriculum
  import opened Progress
  import opened ChapterPage
  import opened Reachability
  import ProjectPage

  /** The page address: its path and the names of its query parameters
      (`URLSearchParams.has`; the query parsing itself is not modelled). */
  datatype Location = Location(pathname: string, queryNames: seq<string>)

  /** `isAuthCallback`. */
  predicate IsAuthCallback(loc: Location) {
    loc.pathname == "/auth/callback" || "access_token" in loc.queryNames || "refresh_token" in loc.queryNames
  }

  const HomeView: string := "home"
  const CallbackView: string := "auth-callback"
  const ContactView: string := "contact"

  /** The shell's state. */
  datatype Shell = Shell(currentView: string, showAuth: bool, showProfile: bool)

  const InitialShell: Shell := Shell(HomeView, false, false)

  /** The mount effect: a confirmation redirect opens the callback view. */
  function OnLoad(s: Shell, loc: Location): (s': Shell)
    ensures IsAuthCallback(loc) ==> s' == s.(currentView := CallbackView)
    ensures !IsAuthCallback(loc) ==> s' == s
  {
    if IsAuthCallback(loc) then s.(currentView := CallbackView) else s
  }

  /** `handleProtectedNavigation`: without a user the sign-in form opens and
      the view stays; with one the view changes. */
  function ProtectedNavigation(s: Shell, user: Option<UserId>, view: string): (s': Shell)
    ensures user.None? ==> s'.showAuth && s'.currentView == s.currentView && s'.showProfile == s.showProfile
    ensures user.Some? ==> s' == s.(currentView := view)
  {
    if user.None? then s.(showAuth := true) else s.(currentView := view)
  }

  /** What `renderContent` shows. */
  datatype Screen =
    | AuthScreen
    | ProfileScreen
    | CallbackScreen
    | ContactScreen
    | ChapterScreen(chapter: ChapterData)
    | ProjectScreen(project: ProjectData)
    | HomeScreen

  function ChapterIdIs(view: string): ChapterData -> bool {
    (c: ChapterData) => c.id == view
  }

  function ProjectIdIs(view: string): ProjectData -> bool {
    (p: ProjectData) => p.id == view
  }

  /** `renderContent`: the sign-in form first, then the profile, then the
      view; a `chapter-` or `project-` view whose id is not found falls
      through to home. */
  function RenderContent(s: Shell): (r: Screen)
    ensures s.showAuth ==> r == AuthScreen
    ensures !s.showAuth && s.showProfile ==> r == ProfileScreen
    ensures !s.showAuth && !s.showProfile && s.currentView == CallbackView ==> r == CallbackScreen
    ensures !s.showAuth && !s.showProfile && s.currentView == ContactView ==> r == ContactScreen
    ensures r.ChapterScreen? ==> r.chapter in ChaptersData && r.chapter.id == s.currentView
    ensures r.ProjectScreen? ==> r.project in ProjectsData && r.project.id == s.currentView
  {
    if s.showAuth then AuthScreen
    else if s.showProfile then ProfileScreen
    else if s.currentView == CallbackView then CallbackScreen
    else if s.currentView == ContactView then ContactScreen
    else
      var chapter := if StartsWith(s.currentView, "chapter-") then Find(ChaptersData, ChapterIdIs(s.currentView)) else None;
      var project := if StartsWith(s.currentView, "project-") then Find(ProjectsData, ProjectIdIs(s.currentView)) else None;
      if chapter.Some? then ChapterScreen(chapter.value)
      else if project.Some? then ProjectScreen(project.value)
      else HomeScreen
  }

  /** Opening the site shows the confirmation page exactly for a
      confirmation redirect, and the home page for any other address. */
  lemma CallbackAddressRouting(loc: Location)
    ensures RenderContent(OnLoad(InitialShell, loc)) == CallbackScreen <==> IsAuthCallback(loc)
    ensures !IsAuthCallback(loc) ==> RenderContent(OnLoad(InitialShell, loc)) == HomeScreen
  {
    assert !StartsWith(HomeView, "chapter-") && !StartsWith(HomeView, "project-") by {
      assert HomeView[0] == 'h';
    }
  }

  /** With no modal open, every catalogue chapter's view shows that
      chapter. */
  lemma EveryChapterRoutes(s: Shell, c: nat)
    requires c < |ChaptersData| && !s.showAuth && !s.showProfile && s.currentView == ChaptersData[c].id
    ensures RenderContent(s) == ChapterScreen(ChaptersData[c])
  {
    IdsCarryRoutingPrefix();
    ChapterIdsDistinct();
    assert ChaptersData[c].id[..8] == "chapter-";
    var f := Find(ChaptersData, ChapterIdIs(s.currentView));
    assert ChapterIdIs(s.currentView)(ChaptersData[c]);
    var i :| 0 <= i < |ChaptersData| && ChaptersData[i] == f.value && ChapterIdIs(s.currentView)(ChaptersData[i]);
  }

  /** With no modal open, every project's view shows that project. */
  lemma EveryProjectRoutes(s: Shell, p: nat)
    requires p < |ProjectsData| && !s.showAuth && !s.showProfile && s.currentView == ProjectsData[p].id
    ensures RenderContent(s) == ProjectScreen(ProjectsData[p])
  {
    IdsCarryRoutingPrefix();
    assert ProjectsData[p].id[..8] == "project-";
    assert !StartsWith(s.currentView, "chapter-") by {
      assert s.currentView[0] == 'p';
    }
    var f := Find(ProjectsData, ProjectIdIs(s.currentView));
    assert ProjectIdIs(s.currentView)(ProjectsData[p]);
    var i :| 0 <= i < |ProjectsData| && ProjectsData[i] == f.value && ProjectIdIs(s.currentView)(ProjectsData[i]);
    assert i == p by {
      assert ProjectsData[i].id[8] == ProjectsData[p].id[8];
    }
  }

  /** With no modal open, home is shown exactly for the views that are not
      a special screen and name no catalogue entry. */
  lemma HomeIsTheFallback(s: Shell)
    requires !s.showAuth && !s.showProfile
    ensures RenderContent(s) == HomeScreen <==>
            s.currentView != CallbackView && s.currentView != ContactView
            && (forall c :: 0 <= c < |ChaptersData| ==> ChaptersData[c].id != s.currentView)
            && (forall p :: 0 <= p < |ProjectsData| ==> ProjectsData[p].id != s.currentView)
  {
    if exists c :: 0 <= c < |ChaptersData| && ChaptersData[c].id == s.currentView {
      var c :| 0 <= c < |ChaptersData| && ChaptersData[c].id == s.currentView;
      EveryChapterRoutes(s, c);
    } else if exists p :: 0 <= p < |ProjectsData| && ProjectsData[p].id == s.currentView {
      var p :| 0 <= p < |ProjectsData| && ProjectsData[p].id == s.currentView;
      EveryProjectRoutes(s, p);
    }
  }

  /** A chapter card's progress: the chapter's completed rows for a
      signed-in user, zero otherwise. */
  function CardProgress(user: Option<UserId>, rows: seq<ProgressRow>, ch: ChapterData): (n: nat)
    ensures user.None? ==> n == 0
    ensures n <= |ChapterRows(rows, ch.id)|
  {
    if user.Some? then ChapterProgress(rows, ch.id) else 0
  }

  /** A chapter card's percentage, over the chapter's lessons and exercises. */
  function CardPercentage(user: Option<UserId>, rows: seq<ProgressRow>, ch: ChapterData): (r: nat)
    ensures user.None? || |ch.lessons| + |ch.exercises| == 0 ==> r == 0
  {
    Percentage(CardProgress(user, rows, ch), |ch.lessons| + |ch.exercises|)
  }

  /** The card shows its percentage only to a signed-in user with some
      progress in the chapter, that is, with a completed row filed under
      the chapter. */
  function CardShowsProgress(user: Option<UserId>, rows: seq<ProgressRow>, ch: ChapterData): (b: bool)
    ensures b <==> user.Some? && exists i :: 0 <= i < |rows| && rows[i].chapterId == ch.id && rows[i].completed
  {
    ChapterProgressPositive(rows, ch.id);
    user.Some? && CardProgress(user, rows, ch) > 0
  }

  /** In every reachable list a catalogue chapter's card lies in 0..100 and
      reads 100 exactly when the chapter is complete. */
  lemma CardPercentageFaithful(user: UserId, rows: seq<ProgressRow>, c: nat)
    requires c < |ChaptersData| && ValidRows(rows)
    ensures CardPercentage(Some(user), rows, ChaptersData[c]) <= 100
    ensures CardPercentage(Some(user), rows, ChaptersData[c]) == 100 <==> IsChapterComplete(ChaptersData[c], rows)
  {
    SevenItemsPerChapter(c);
    ChapterProgressAtMostSeven(rows, c);
    ChapterProgressSevenIffComplete(rows, c);
    PercentageFullIffAll(ChapterProgress(rows, ChaptersData[c].id), 7);
  }

  /** A project card is marked complete when a signed-in user has recorded
      the project's `completed` marker, the key the project page's
      "Terminer le projet" writes. */
  function ProjectCardComplete(user: Option<UserId>, rows: seq<ProgressRow>, p: ProjectData): (b: bool)
    ensures b ==> user.Some?
    ensures b <==> user.Some? && IsLessonComplete(rows, p.id, ProjectPage.CompletedMarker)
  {
    user.Some? && IsLessonComplete(rows, p.id, "completed")
  }

  /** Finishing a project on its page, with the write accepted, marks its
      home card complete. */
  lemma FinishedProjectCardComplete(user: UserId, rows: seq<ProgressRow>, p: ProjectData,
                                    clock: Clock)
    ensures var r := ProjectPage.HandleComplete(Some(user), rows, p.id, UpsertOk, clock, FetchFailed);
            ProjectCardComplete(Some(user), r, p)
  {
  }
}
