/** The code editor of `CodeEditor`: one session holding the current code,
    the initial code it came with, the output pane and the two UI flags,
    and `runCode`, which turns the console calls a script makes into the
    output text. The script itself is not interpreted: running it is given
    as an `Execution`, the console calls it makes in order followed by
    normal completion or a fault (a parse error is a fault before any
    call). */
module Editor {
  import opened Wrappers
  import opened JsText

  /** A value handed to a console method. `isObject` is
      `typeof v === 'object'`; `stringForm` is `String(v)` and `jsonForm`
      is `JSON.stringify(v, null, 2)`, both produced by the host. */
  datatype JsValue = JsValue(isObject: bool, stringForm: string, jsonForm: string)

  /** One call of the injected `console` object. */
  datatype ConsoleCall =
    | Log(args: seq<JsValue>)
    | Error(args: seq<JsValue>)
    | Warn(args: seq<JsValue>)

  /** What running the script did: its console calls, in order, and the
      message of the fault that ended it, if one did. */
  datatype Execution = Execution(calls: seq<ConsoleCall>, fault: Option<string>)

  const ErrorPrefix: string := "❌ Error: "
  const WarningPrefix: string := "⚠️ Warning: "
  const FaultPrefix: string := "❌ Erreur: "

  /** The kinds of transcript line, each with its own marker. */
  datatype LineKind = LogLine | ErrorLine | WarningLine | FaultLine

  /** One transcript line before rendering. */
  datatype Line = Line(kind: LineKind, text: string)

  function Prefix(kind: LineKind): string {
    match kind
    case LogLine => ""
    case ErrorLine => ErrorPrefix
    case WarningLine => WarningPrefix
    case FaultLine => FaultPrefix
  }

  /** How `log` renders an argument: objects pretty-printed as JSON, the
      rest by `String`. */
  function LogForm(v: JsValue): string {
    if v.isObject then v.jsonForm else v.stringForm
  }

  /** How `error` and `warn` render an argument: by `String`. */
  function StringForm(v: JsValue): string {
    v.stringForm
  }

  /** `args.map(format).join(' ')`. */
  function Message(args: seq<JsValue>, format: JsValue -> string): string {
    Join(seq(|args|, i requires 0 <= i < |args| => format(args[i])), " ")
  }

  /** The transcript line a console call contributes. `error` and `warn`
      render every argument by `String`. */
  function LineOf(call: ConsoleCall): Line {
    match call
    case Log(args) => Line(LogLine, Message(args, LogForm))
    case Error(args) => Line(ErrorLine, Message(args, StringForm))
    case Warn(args) => Line(WarningLine, Message(args, StringForm))
  }

  /** The transcript of an execution: one line per console call, in call
      order, then one fault line if the script faulted. */
  function Lines(exec: Execution): (lines: seq<Line>)
    ensures |lines| == |exec.calls| + (if exec.fault.Some? then 1 else 0)
    ensures forall i :: 0 <= i < |exec.calls| ==> lines[i] == LineOf(exec.calls[i])
    ensures exec.fault.Some? ==> lines[|lines| - 1] == Line(FaultLine, exec.fault.value)
    ensures forall i :: 0 <= i < |lines| ==> (lines[i].kind == FaultLine <==> exec.fault.Some? && i == |lines| - 1)
  {
    var callLines := seq(|exec.calls|, i requires 0 <= i < |exec.calls| => LineOf(exec.calls[i]));
    if exec.fault.Some? then callLines + [Line(FaultLine, exec.fault.value)] else callLines
  }

  /** A line as it appears in the output pane: marker, text, newline. */
  function Render(line: Line): string {
    Prefix(line.kind) + line.text + "\n"
  }

  /** The output pane's text for a sequence of lines. */
  function RenderAll(lines: seq<Line>): string {
    Concat(lines, Render)
  }

  /** The output pane's text after a run. */
  function RunOutput(exec: Execution): string {
    RenderAll(Lines(exec))
  }

  /** Rendering distributes over concatenation of lines. */
  lemma RenderAllAppend(a: seq<Line>, b: seq<Line>)
    ensures RenderAll(a + b) == RenderAll(a) + RenderAll(b)
  {
    ConcatAppend(a, b, Render);
  }

  /** A fault adds exactly one marked line after everything printed before
      it; earlier output is kept. */
  lemma FaultKeepsEarlierOutput(calls: seq<ConsoleCall>, message: string)
    ensures RunOutput(Execution(calls, Some(message)))
            == RunOutput(Execution(calls, None)) + FaultPrefix + message + "\n"
  {
    var before := Lines(Execution(calls, None));
    var after := Lines(Execution(calls, Some(message)));
    assert after == before + [Line(FaultLine, message)];
    RenderAllAppend(before, [Line(FaultLine, message)]);
    assert RenderAll([Line(FaultLine, message)]) == FaultPrefix + message + "\n" by {
      assert [Line(FaultLine, message)][..0] == [];
    }
  }

  /** Output follows call order: the calls of a script that runs `a` then
      `b` print `a`'s text followed by `b`'s. */
  lemma OutputFollowsCallOrder(a: seq<ConsoleCall>, b: seq<ConsoleCall>)
    ensures RunOutput(Execution(a + b, None)) == RunOutput(Execution(a, None)) + RunOutput(Execution(b, None))
  {
    assert Lines(Execution(a + b, None)) == Lines(Execution(a, None)) + Lines(Execution(b, None));
    RenderAllAppend(Lines(Execution(a, None)), Lines(Execution(b, None)));
  }

  /** The rendered line of one call: its arguments joined by single
      spaces behind its kind's marker, then a newline. */
  lemma RenderedCall(call: ConsoleCall)
    ensures Render(LineOf(call)) ==
            match call
            case Log(args) => Message(args, LogForm) + "\n"
            case Error(args) => ErrorPrefix + Message(args, StringForm) + "\n"
            case Warn(args) => WarningPrefix + Message(args, StringForm) + "\n"
  {
    if call.Log? {
      assert "" + Message(call.args, LogForm) == Message(call.args, LogForm);
    }
  }

  /** A single call prints its arguments joined by single spaces behind
      its kind's marker, on a line of its own. */
  lemma SingleCallOutput(call: ConsoleCall)
    ensures RunOutput(Execution([call], None)) ==
            match call
            case Log(args) => Message(args, LogForm) + "\n"
            case Error(args) => ErrorPrefix + Message(args, StringForm) + "\n"
            case Warn(args) => WarningPrefix + Message(args, StringForm) + "\n"
  {
    var ls := Lines(Execution([call], None));
    assert ls == [LineOf(call)];
    ConcatSnoc(ls, 0, Render);
    assert ls[..1] == ls && ls[..0] == [];
    assert RunOutput(Execution([call], None)) == "" + Render(LineOf(call));
    assert "" + Render(LineOf(call)) == Render(LineOf(call));
    RenderedCall(call);
  }

  /** A script that does not even parse prints exactly one fault line. */
  lemma ParseFaultOutput(message: string)
    ensures RunOutput(Execution([], Some(message))) == FaultPrefix + message + "\n"
  {
    FaultKeepsEarlierOutput([], message);
  }

  /** The state of one editor. */
  datatype Session = Session(
    code: string,
    initialCode: string,
    output: string,
    isRunning: bool,
    copied: bool,
    readOnly: bool)

  /** A freshly mounted editor (`initialCode` defaults to ''). */
  function Mount(initialCode: string, readOnly: bool): (s: Session)
    ensures s.code == s.initialCode == initialCode && s.output == ""
    ensures !s.isRunning && !s.copied && s.readOnly == readOnly
  {
    Session(initialCode, initialCode, "", false, false, readOnly)
  }

  /** The effect on `initialCode`: a changed prop replaces the code and
      clears the output; an unchanged one does not re-run the effect. */
  function ReceiveInitialCode(s: Session, initialCode: string): (s': Session)
    ensures initialCode != s.initialCode ==> s'.code == initialCode && s'.output == ""
    ensures s'.initialCode == initialCode
    ensures initialCode == s.initialCode ==> s' == s
    ensures s'.isRunning == s.isRunning && s'.copied == s.copied && s'.readOnly == s.readOnly
  {
    if initialCode == s.initialCode then s
    else s.(initialCode := initialCode, code := initialCode, output := "")
  }

  /** Typing in the text area; a read-only area accepts no edit, and
      typing touches nothing but the code. */
  function Edit(s: Session, text: string): (s': Session)
    ensures s.readOnly ==> s' == s
    ensures !s.readOnly ==> s'.code == text
    ensures s' == s.(code := s'.code)
  {
    if s.readOnly then s else s.(code := text)
  }

  /** `resetCode`. */
  function Reset(s: Session): (s': Session)
    ensures s'.code == s.initialCode && s'.output == ""
    ensures s'.initialCode == s.initialCode && s'.isRunning == s.isRunning
    ensures s'.copied == s.copied && s'.readOnly == s.readOnly
  {
    s.(code := s.initialCode, output := "")
  }

  /** `copyCode`. With a clipboard API on the page the code goes to the
      clipboard (returned) and the copied flag is raised at once, whether
      or not the write later fails; code and output are untouched. Without
      one (`navigator.clipboard` is undefined outside a secure context) the
      write call throws before the flag is raised, and nothing changes. */
  function Copy(s: Session, clipboard: bool): (result: (Session, Option<string>))
    ensures clipboard ==> result.1 == Some(s.code) && result.0 == s.(copied := true)
    ensures !clipboard ==> result.1 == None && result.0 == s
    ensures result.0.copied <==> clipboard || s.copied
    ensures result.0.code == s.code && result.0.output == s.output
    ensures result.0.initialCode == s.initialCode && result.0.isRunning == s.isRunning
  {
    if clipboard then (s.(copied := true), Some(s.code)) else (s, None)
  }

  /** The timers that lower the two flags again. */
  function CopyTimerElapsed(s: Session): Session { s.(copied := false) }

  function RunTimerElapsed(s: Session): Session { s.(isRunning := false) }

  /** The Run button is enabled unless a run is in progress or the editor
      is read-only. */
  predicate RunEnabled(s: Session) {
    !(s.isRunning || s.readOnly)
  }

  /** `runCode`: output starts empty, each console call appends its line
      as it happens, and a fault appends one marked line and stops there. */
  method RunCode(s: Session, exec: Execution) returns (s': Session)
    ensures s'.output == RunOutput(exec)
    ensures s'.isRunning
    ensures s'.code == s.code && s'.initialCode == s.initialCode
    ensures s'.copied == s.copied && s'.readOnly == s.readOnly
  {
    var output := "";
    var lines := Lines(exec);
    var i := 0;
    while i < |exec.calls|
      invariant 0 <= i <= |exec.calls|
      invariant output == RenderAll(lines[..i])
      decreases |exec.calls| - i
    {
      var line: string;
      RenderedCall(exec.calls[i]);
      match exec.calls[i] {
        case Log(args) =>
          line := Message(args, LogForm) + "\n";
        case Error(args) =>
          line := ErrorPrefix + Message(args, StringForm) + "\n";
        case Warn(args) =>
          line := WarningPrefix + Message(args, StringForm) + "\n";
      }
      ConcatSnoc(lines, i, Render);
      output := output + line;
      i := i + 1;
    }
    if exec.fault.Some? {
      var line := FaultPrefix + exec.fault.value + "\n";
      ConcatSnoc(lines, i, Render);
      assert lines[..i + 1] == lines;
      output := output + line;
    } else {
      assert lines[..i] == lines;
    }
    s' := s.(isRunning := true, output := output);
  }

  /** What can happen to an open editor: the user types, runs, copies
      (on a page with or without a clipboard API) or resets; the 500 ms timer of a run or the 2000 ms timer of a copy
      elapses, each on its own; or a callback that an earlier run's script
      registered (an event listener, a timer) calls the captured console
      after that run has returned. */
  datatype Action =
    | Type(text: string)
    | Run(exec: Execution)
    | CopyCode(clipboard: bool)
    | ResetCode
    | RunTimerElapses
    | CopyTimerElapses
    | LateCall(call: ConsoleCall)

  /** The session after one action. A late console call appends its line
      to whatever the pane holds, as `setOutput(prev => ...)` does, in
      every state of the editor. */
  function Step(s: Session, a: Action): (s': Session)
    ensures s'.initialCode == s.initialCode && s'.readOnly == s.readOnly
    ensures s.readOnly && s.code == s.initialCode ==> s'.code == s.code
    ensures a.LateCall? ==> s'.output == s.output + Render(LineOf(a.call)) && s'.code == s.code
  {
    match a
    case Type(text) => Edit(s, text)
    case Run(exec) => if RunEnabled(s) then s.(isRunning := true, output := RunOutput(exec)) else s
    case CopyCode(clipboard) => Copy(s, clipboard).0
    case ResetCode => Reset(s)
    case RunTimerElapses => RunTimerElapsed(s)
    case CopyTimerElapses => CopyTimerElapsed(s)
    case LateCall(call) => s.(output := s.output + Render(LineOf(call)))
  }

  /** The two timers are independent: the run timer lowers only the
      running flag and the copy timer only the copied flag. */
  lemma TimersIndependent(s: Session)
    ensures Step(s, RunTimerElapses) == s.(isRunning := false)
    ensures Step(s, CopyTimerElapses) == s.(copied := false)
    ensures Step(s, RunTimerElapses).copied == s.copied
    ensures Step(s, CopyTimerElapses).isRunning == s.isRunning
  {
  }

  /** Reset does not silence a script's late callbacks: a console call
      after a reset leaves its line alone in the cleared pane, and one
      after a new run lands behind that run's transcript. */
  lemma LateCallOutlivesRun(s: Session, exec: Execution, call: ConsoleCall)
    ensures Steps(s, [ResetCode, LateCall(call)]).output == Render(LineOf(call))
    ensures RunEnabled(s) ==>
              Steps(s, [Run(exec), LateCall(call)]).output == RunOutput(exec) + Render(LineOf(call))
  {
    var late := [LateCall(call)];
    assert late[1..] == [];
    assert [ResetCode, LateCall(call)][1..] == late;
    assert Steps(s, [ResetCode, LateCall(call)]) == Steps(Reset(s), late) == Step(Reset(s), LateCall(call));
    assert "" + Render(LineOf(call)) == Render(LineOf(call));
    if RunEnabled(s) {
      var ran := s.(isRunning := true, output := RunOutput(exec));
      assert [Run(exec), LateCall(call)][1..] == late;
      assert Steps(s, [Run(exec), LateCall(call)]) == Steps(ran, late) == Step(ran, LateCall(call));
    }
  }

  /** A click on Run while a run is in progress or in a read-only editor
      does nothing; otherwise it shows the run's transcript. */
  lemma RunOnlyWhenEnabled(s: Session, exec: Execution)
    ensures !RunEnabled(s) ==> Step(s, Run(exec)) == s
    ensures RunEnabled(s) ==> Step(s, Run(exec)).output == RunOutput(exec) && !RunEnabled(Step(s, Run(exec)))
  {
  }

  /** The session after a sequence of actions. */
  function Steps(s: Session, actions: seq<Action>): Session
    decreases |actions|
  {
    if |actions| == 0 then s else Steps(Step(s, actions[0]), actions[1..])
  }

  /** No action changes the initial code or the read-only flag. */
  lemma {:induction false} StepsKeepInitialCode(s: Session, actions: seq<Action>)
    ensures Steps(s, actions).initialCode == s.initialCode
    ensures Steps(s, actions).readOnly == s.readOnly
    decreases |actions|
  {
    if |actions| > 0 {
      StepsKeepInitialCode(Step(s, actions[0]), actions[1..]);
    }
  }

  /** Whatever was typed, run or copied since the editor opened, reset
      brings back the code it opened with and an empty output. */
  lemma ResetRestoresInitialCode(initialCode: string, readOnly: bool, actions: seq<Action>)
    ensures var s := Reset(Steps(Mount(initialCode, readOnly), actions));
            s.code == initialCode && s.output == ""
  {
    StepsKeepInitialCode(Mount(initialCode, readOnly), actions);
  }

  /** A read-only editor's code never changes. */
  lemma {:induction false} ReadOnlyCodeFixed(s: Session, actions: seq<Action>)
    requires s.readOnly && s.code == s.initialCode
    ensures Steps(s, actions).code == s.code
    decreases |actions|
  {
    if |actions| > 0 {
      ReadOnlyCodeFixed(Step(s, actions[0]), actions[1..]);
    }
  }
}
