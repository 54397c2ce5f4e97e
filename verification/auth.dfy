/** The sign-in / sign-up form of `Auth`: the password rules, the mapping
    from backend error text to the messages shown, and the form's state
    transitions (submit, resend confirmation, mode toggle) with the backend
    answer given as a parameter. */
module Auth {
  import opened Wrappers
  import opened JsText
  import opened Seqs

  /** The account returned by the authentication backend;
      `emailConfirmedAt` is `email_confirmed_at`, absent until the address
      is confirmed. */
  datatype AuthUser = AuthUser(id: string, emailConfirmedAt: Option<string>)

  /** `user.email_confirmed_at` is truthy. */
  predicate EmailConfirmed(u: AuthUser) {
    u.emailConfirmedAt.Some? && u.emailConfirmedAt.value != ""
  }

  /** `s.length` in JavaScript: UTF-16 code units, so a character beyond
      U+FFFF counts twice. */
  function Utf16Length(s: string): (n: nat)
    ensures |s| <= n <= 2 * |s|
    ensures (forall i :: 0 <= i < |s| ==> s[i] as int <= 0xFFFF) ==> n == |s|
  {
    if |s| == 0 then 0
    else (if s[0] as int > 0xFFFF then 2 else 1) + Utf16Length(s[1..])
  }

  /** `\d` without the `u` flag: the ASCII digits. */
  predicate IsAsciiDigit(c: char) {
    '0' <= c <= '9'
  }

  /** `[a-zA-Z]`. */
  predicate IsAsciiLetter(c: char) {
    ('a' <= c <= 'z') || ('A' <= c <= 'Z')
  }

  /** The result of `validatePassword`. */
  datatype PasswordCheck = PasswordCheck(minLength: bool, hasNumber: bool, hasLetter: bool, isValid: bool)

  /** `validatePassword`: at least six (UTF-16) characters, an ASCII digit
      and an ASCII letter. */
  function ValidatePassword(password: string): (v: PasswordCheck)
    ensures v.minLength <==> Utf16Length(password) >= 6
    ensures v.hasNumber <==> exists i :: 0 <= i < |password| && IsAsciiDigit(password[i])
    ensures v.hasLetter <==> exists i :: 0 <= i < |password| && IsAsciiLetter(password[i])
    ensures v.isValid <==> v.minLength && v.hasNumber && v.hasLetter
  {
    var minLength := Utf16Length(password) >= 6;
    var hasNumber := Any(password, IsAsciiDigit);
    var hasLetter := Any(password, IsAsciiLetter);
    PasswordCheck(minLength, hasNumber, hasLetter, minLength && hasNumber && hasLetter)
  }

  /** Length is counted in code units: five ASCII characters are too few
      and six are enough. */
  lemma PasswordLengthExamples()
    ensures !ValidatePassword("abc12").minLength
    ensures ValidatePassword("abc123").isValid
  {
    assert "abc123"[3] == '1' && "abc123"[0] == 'a';
  }

  /** Three characters beyond U+FFFF are six code units, so they pass the
      length rule although they are only three characters. */
  lemma AstralCharactersCountTwice()
    ensures ValidatePassword("\U{1F600}\U{1F600}\U{1F600}").minLength
  {
    var e := "\U{1F600}\U{1F600}\U{1F600}";
    assert e[1..][1..][1..] == [];
    assert Utf16Length(e[1..][1..][1..]) == 0;
    assert Utf16Length(e[1..][1..]) == 2;
    assert Utf16Length(e[1..]) == 4;
    assert Utf16Length(e) == 6;
  }

  const NotConfirmedMessage: string :=
    "Votre email n'est pas encore confirmé. Veuillez vérifier votre boîte de réception."
  const BadCredentialsMessage: string := "Email ou mot de passe incorrect."
  const AlreadyRegisteredMessage: string := "Un compte existe déjà avec cette adresse email."
  const DefaultErrorMessage: string := "Une erreur est survenue"

  /** What the form shows for a rejected submit, and whether the
      confirmation panel opens. */
  datatype ErrorDisplay = ErrorDisplay(error: string, opensEmailPanel: bool)

  /** The `catch` of `handleSubmit`. A missing message is the empty
      string, which contains none of the three phrases and is falsy. Only
      "Email not confirmed" opens the confirmation panel, whatever else the
      message says, and the form never shows an empty error. */
  function MapError(message: string): (d: ErrorDisplay)
    ensures d.opensEmailPanel <==> OccursIn("Email not confirmed", message)
    ensures OccursIn("Email not confirmed", message) ==> d.error == NotConfirmedMessage
    ensures d.error != ""
  {
    if Includes(message, "Email not confirmed") then ErrorDisplay(NotConfirmedMessage, true)
    else if Includes(message, "Invalid login credentials") then ErrorDisplay(BadCredentialsMessage, false)
    else if Includes(message, "User already registered") then ErrorDisplay(AlreadyRegisteredMessage, false)
    else ErrorDisplay(OrElse(message, DefaultErrorMessage), false)
  }

  /** A recognised backend phrase and the message that replaces it. */
  datatype Rule = Rule(phrase: string, shown: string, opensEmailPanel: bool)

  /** The recognised phrases, highest priority first. */
  const Rules: seq<Rule> := [
    Rule("Email not confirmed", NotConfirmedMessage, true),
    Rule("Invalid login credentials", BadCredentialsMessage, false),
    Rule("User already registered", AlreadyRegisteredMessage, false)
  ]

  /** The rule whose phrase the message contains, first in priority. */
  function MatchingRule(message: string): Option<Rule> {
    Find(Rules, (r: Rule) => Includes(message, r.phrase))
  }

  /** The error mapping is first-match over the priority table, falling
      back to the raw message and then to the default. */
  lemma MapErrorIsFirstMatch(message: string)
    ensures MapError(message) ==
            match MatchingRule(message)
            case Some(r) => ErrorDisplay(r.shown, r.opensEmailPanel)
            case None => ErrorDisplay(if message != "" then message else DefaultErrorMessage, false)
  {
    var p := (r: Rule) => Includes(message, r.phrase);
    var m := MatchingRule(message);
    if m.Some? {
      var i :| 0 <= i < |Rules| && Rules[i] == m.value && p(Rules[i])
                && forall j :: 0 <= j < i ==> !p(Rules[j]);
      if i == 0 {
        assert Includes(message, "Email not confirmed");
      } else if i == 1 {
        assert !p(Rules[0]) && p(Rules[1]);
        assert !Includes(message, "Email not confirmed") && Includes(message, "Invalid login credentials");
      } else {
        assert !p(Rules[0]) && !p(Rules[1]) && p(Rules[2]);
        assert !Includes(message, "Email not confirmed") && !Includes(message, "Invalid login credentials");
        assert Includes(message, "User already registered");
      }
    } else {
      assert !p(Rules[0]) && !p(Rules[1]) && !p(Rules[2]);
    }
  }

  /** The raw message is shown only when it is non-empty and contains none
      of the recognised phrases. */
  lemma RawMessageShown(message: string)
    requires message != ""
    requires !OccursIn("Email not confirmed", message)
    requires !OccursIn("Invalid login credentials", message)
    requires !OccursIn("User already registered", message)
    ensures MapError(message) == ErrorDisplay(message, false)
  {
  }

  /** The form's state. */
  datatype AuthForm = AuthForm(
    isSignUp: bool,
    email: string,
    password: string,
    fullName: string,
    loading: bool,
    error: string,
    success: string,
    emailSent: bool)

  /** The form as it opens: sign-in mode, every field empty. */
  const InitialForm: AuthForm := AuthForm(false, "", "", "", false, "", "", false)

  /** The submit button is disabled while loading and, in sign-up mode,
      while the password fails the rules: a sign-in can always be sent
      when idle, and an idle sign-up exactly when its password has six
      code units, an ASCII digit and an ASCII letter. */
  function SubmitDisabled(f: AuthForm): (b: bool)
    ensures f.loading ==> b
    ensures !f.isSignUp ==> (b <==> f.loading)
    ensures f.isSignUp && !b ==>
              Utf16Length(f.password) >= 6
              && (exists i :: 0 <= i < |f.password| && IsAsciiDigit(f.password[i]))
              && (exists i :: 0 <= i < |f.password| && IsAsciiLetter(f.password[i]))
    ensures f.isSignUp && !f.loading && Utf16Length(f.password) >= 6
            && (exists i :: 0 <= i < |f.password| && IsAsciiDigit(f.password[i]))
            && (exists i :: 0 <= i < |f.password| && IsAsciiLetter(f.password[i]))
            ==> !b
  {
    f.loading || (f.isSignUp && !ValidatePassword(f.password).isValid)
  }

  /** The backend's answer to a submit: accepted (for a sign-up, with the
      user it created, if any) or rejected with an error message. */
  datatype SubmitAnswer = Accepted(user: Option<AuthUser>) | Rejected(message: string)

  const SignUpPendingMessage: string :=
    "Un email de confirmation a été envoyé à votre adresse. Veuillez vérifier votre boîte de réception et cliquer sur le lien de confirmation."
  const SignUpDoneMessage: string := "Compte créé avec succès !"
  const SignInDoneMessage: string := "Connexion réussie !"

  /** The form after a submit, and the delay after which it closes itself,
      if it does. */
  datatype SubmitResult = SubmitResult(form: AuthForm, closeAfterMs: Option<nat>)

  /** The synchronous start of `handleSubmit`. */
  function BeginSubmit(f: AuthForm): (f': AuthForm)
    ensures f'.loading && f'.error == "" && f'.success == ""
    ensures f'.isSignUp == f.isSignUp && f'.email == f.email && f'.password == f.password
    ensures f'.emailSent == f.emailSent
  {
    f.(loading := true, error := "", success := "")
  }

  /** `handleSubmit`: clear the messages, ask the backend, then show the
      outcome; loading is always lowered at the end. */
  function Submit(f: AuthForm, answer: SubmitAnswer): (r: SubmitResult)
    ensures !r.form.loading
    ensures answer.Rejected? ==> r.form.error == MapError(answer.message).error && r.form.success == ""
    ensures answer.Accepted? ==> r.form.error == "" && r.form.success != ""
    ensures r.closeAfterMs.Some? <==>
              answer.Accepted? && !(f.isSignUp && answer.user.Some? && !EmailConfirmed(answer.user.value))
    ensures r.form.emailSent <==>
              f.emailSent
              || (answer.Rejected? && MapError(answer.message).opensEmailPanel)
              || (answer.Accepted? && f.isSignUp && answer.user.Some? && !EmailConfirmed(answer.user.value))
    ensures r.form.isSignUp == f.isSignUp && r.form.email == f.email && r.form.password == f.password
  {
    var g := BeginSubmit(f);
    var done :=
      match answer
      case Rejected(message) =>
        var d := MapError(message);
        SubmitResult(g.(error := d.error, emailSent := g.emailSent || d.opensEmailPanel), None)
      case Accepted(user) =>
        if f.isSignUp then
          if user.Some? && !EmailConfirmed(user.value) then
            SubmitResult(g.(emailSent := true, success := SignUpPendingMessage), None)
          else
            SubmitResult(g.(success := SignUpDoneMessage), Some(2000))
        else
          SubmitResult(g.(success := SignInDoneMessage), Some(1000));
    done.(form := done.form.(loading := false))
  }

  /** A submit never leaves a message from before it on screen: the error
      and success shown come from this answer alone. */
  lemma SubmitForgetsOldMessages(f: AuthForm, g: AuthForm, answer: SubmitAnswer)
    requires f.isSignUp == g.isSignUp && f.emailSent == g.emailSent
    ensures Submit(f, answer).form.error == Submit(g, answer).form.error
    ensures Submit(f, answer).form.success == Submit(g, answer).form.success
  {
  }

  /** The backend's answer to a resend request. */
  datatype ResendAnswer = ResendOk | ResendFailed(message: string)

  const MissingEmailMessage: string := "Veuillez saisir votre adresse email"
  const ResentMessage: string := "Email de confirmation renvoyé ! Vérifiez votre boîte de réception."
  const ResendErrorMessage: string := "Erreur lors de l'envoi de l'email"

  /** The form after a resend request, and whether the backend was called. */
  datatype ResendResult = ResendResult(form: AuthForm, calledBackend: bool)

  /** `handleResendConfirmation`: an empty email only sets an error;
      otherwise the backend is asked and its answer shown. */
  function Resend(f: AuthForm, answer: ResendAnswer): (r: ResendResult)
    ensures r.calledBackend <==> f.email != ""
    ensures f.email == "" ==> r.form == f.(error := MissingEmailMessage)
    ensures f.email != "" ==> !r.form.loading
    ensures f.email != "" && answer.ResendOk? ==> r.form.error == "" && r.form.success == ResentMessage
    ensures f.email != "" && answer.ResendFailed? ==>
              r.form.error == OrElse(answer.message, ResendErrorMessage) && r.form.success == f.success
  {
    if f.email == "" then ResendResult(f.(error := MissingEmailMessage), false)
    else
      var g := f.(loading := true, error := "");
      var h :=
        match answer
        case ResendOk => g.(success := ResentMessage)
        case ResendFailed(message) => g.(error := OrElse(message, ResendErrorMessage));
      ResendResult(h.(loading := false), true)
  }

  /** The mode link: switches between sign-in and sign-up and clears every
      message and the confirmation panel. */
  function ToggleMode(f: AuthForm): (f': AuthForm)
    ensures f'.isSignUp == !f.isSignUp
    ensures f'.error == "" && f'.success == "" && !f'.emailSent
    ensures f'.email == f.email && f'.password == f.password && f'.loading == f.loading
  {
    f.(isSignUp := !f.isSignUp, error := "", success := "", emailSent := false)
  }

  /** Toggling twice returns to the original mode with a clean slate. */
  lemma ToggleTwice(f: AuthForm)
    ensures ToggleMode(ToggleMode(f)) == f.(error := "", success := "", emailSent := false)
  {
  }
}
