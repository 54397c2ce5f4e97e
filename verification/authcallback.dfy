/** The email-confirmation landing page of `AuthCallback`: one second after
    it mounts (or after the signed-in user changes) it decides, from the
    current user alone, between success and error. */
module AuthCallback {
  import opened Wrappers
  import opened Auth

  datatype Status = Loading | Success | Failure

  const ConfirmedMessage: string :=
    "Votre email a été confirmé avec succès ! Vous pouvez maintenant accéder à tous les cours."
  const NotConfirmedMessage: string :=
    "Votre email n'est pas encore confirmé. Veuillez vérifier votre boîte de réception."
  const NoUserMessage: string := "Erreur lors de la confirmation. Veuillez réessayer."

  /** What the page shows. */
  datatype View = View(status: Status, message: string)

  /** The page as it mounts, before the one-second timer fires. */
  const InitialView: View := View(Loading, "")

  /** The decision taken when the timer fires, and the delay after which
      the page navigates home by itself, if it does. */
  datatype Decision = Decision(view: View, homeAfterMs: Option<nat>)

  /** `handleAuthCallback`: success exactly for a signed-in user whose
      email is confirmed; otherwise an error naming the reason. */
  function Decide(user: Option<AuthUser>): (d: Decision)
    ensures d.view.status != Loading
    ensures d.view.status == Success <==> user.Some? && EmailConfirmed(user.value)
    ensures d.homeAfterMs.Some? <==> d.view.status == Success
    ensures d.homeAfterMs.Some? ==> d.homeAfterMs.value == 3000
    ensures user.Some? && !EmailConfirmed(user.value) ==> d.view.message == NotConfirmedMessage
    ensures user.None? ==> d.view.message == NoUserMessage
  {
    if user.Some? && EmailConfirmed(user.value) then
      Decision(View(Success, ConfirmedMessage), Some(3000))
    else if user.Some? then
      Decision(View(Failure, NotConfirmedMessage), None)
    else
      Decision(View(Failure, NoUserMessage), None)
  }

  /** Something that reaches the page: the signed-in user changes (which
      restarts the one-second timer) or the timer fires. */
  datatype Event = UserChanged(user: Option<AuthUser>) | TimerFired

  /** The page's state: what it shows, the current user, and whether a
      success has scheduled the three-second navigation home. The effect's
      cleanup cancels only the one-second timer, so once scheduled that
      navigation is never withdrawn. */
  datatype Page = Page(view: View, user: Option<AuthUser>, homePending: bool)

  /** The page as it mounts for a user. */
  function Mount(user: Option<AuthUser>): (p: Page)
    ensures p.view.status == Loading && !p.homePending && p.user == user
  {
    Page(InitialView, user, false)
  }

  /** One event. A user change alone leaves the view and any scheduled
      navigation as they were; a firing shows the decision for the current
      user and schedules the navigation home exactly on success. */
  function Handle(p: Page, e: Event): (p': Page)
    ensures e.UserChanged? ==> p'.view == p.view && p'.user == e.user && p'.homePending == p.homePending
    ensures e.TimerFired? ==> p'.user == p.user && p'.view.status != Loading
    ensures e.TimerFired? ==>
              (p'.homePending <==> p.homePending || Confirmed(p.user))
  {
    match e
    case UserChanged(u) => p.(user := u)
    case TimerFired =>
      var d := Decide(p.user);
      p.(view := d.view, homePending := p.homePending || d.homeAfterMs.Some?)
  }

  /** A signed-in user whose email is confirmed. */
  predicate Confirmed(user: Option<AuthUser>) {
    user.Some? && EmailConfirmed(user.value)
  }

  /** A sequence of events, oldest first. */
  function Run(p: Page, events: seq<Event>): Page
    decreases |events|
  {
    if |events| == 0 then p else Run(Handle(p, events[0]), events[1..])
  }

  /** Once the timer has fired, the page shows the decision for the user
      current at the last firing, whatever happened before it. */
  lemma {:induction false} LastFiringDecides(p: Page, events: seq<Event>, k: nat)
    requires k < |events| && events[k].TimerFired?
    requires forall j :: k < j < |events| ==> events[j].UserChanged?
    ensures Run(p, events).view == Decide(Run(p, events[..k]).user).view
    decreases |events|
  {
    if k == 0 {
      assert events[..0] == [];
      UserChangesKeepView(Handle(p, events[0]), events[1..]);
    } else {
      assert events[1..][..k - 1] == events[1..k];
      assert events[..k][1..] == events[1..k];
      LastFiringDecides(Handle(p, events[0]), events[1..], k - 1);
    }
  }

  /** User changes alone never change what the page shows. */
  lemma {:induction false} UserChangesKeepView(p: Page, events: seq<Event>)
    requires forall j :: 0 <= j < |events| ==> events[j].UserChanged?
    ensures Run(p, events).view == p.view
    decreases |events|
  {
    if |events| > 0 {
      UserChangesKeepView(Handle(p, events[0]), events[1..]);
    }
  }

  /** Until the timer first fires the page is loading. */
  lemma LoadingUntilTimer(user: Option<AuthUser>, events: seq<Event>)
    requires forall j :: 0 <= j < |events| ==> events[j].UserChanged?
    ensures Run(Mount(user), events).view.status == Loading
  {
    UserChangesKeepView(Mount(user), events);
  }

  /** A scheduled navigation home survives every later event: a sign-out
      followed by an error decision still leaves it pending. */
  lemma {:induction false} HomePendingSurvives(p: Page, events: seq<Event>)
    requires p.homePending
    ensures Run(p, events).homePending
    decreases |events|
  {
    if |events| > 0 {
      HomePendingSurvives(Handle(p, events[0]), events[1..]);
    }
  }

  /** The navigation home is pending exactly when some firing met a
      confirmed user. */
  lemma {:induction false} HomePendingIffConfirmedFiring(p: Page, events: seq<Event>)
    requires !p.homePending
    ensures Run(p, events).homePending <==>
            exists k :: 0 <= k < |events| && events[k].TimerFired? && Confirmed(Run(p, events[..k]).user)
    decreases |events|
  {
    if |events| > 0 {
      var q := Handle(p, events[0]);
      assert events[..1][1..] == [];
      if q.homePending {
        HomePendingSurvives(q, events[1..]);
        assert events[0].TimerFired? && Confirmed(Run(p, events[..0]).user) by {
          assert events[..0] == [];
        }
      } else {
        HomePendingIffConfirmedFiring(q, events[1..]);
        forall k | 1 <= k <= |events|
          ensures Run(p, events[..k]) == Run(q, events[1..][..k - 1])
        {
          assert events[..k][0] == events[0];
          assert events[..k][1..] == events[1..][..k - 1];
        }
        if Run(q, events[1..]).homePending {
          var k :| 0 <= k < |events[1..]| && events[1..][k].TimerFired? && Confirmed(Run(q, events[1..][..k]).user);
          assert events[k + 1].TimerFired? && Confirmed(Run(p, events[..k + 1]).user);
        } else {
          forall k | 0 <= k < |events| && events[k].TimerFired?
            ensures !Confirmed(Run(p, events[..k]).user)
          {
            if k == 0 {
              assert events[..0] == [];
            } else {
              assert events[1..][k - 1] == events[k];
            }
          }
        }
      }
    }
  }
}
