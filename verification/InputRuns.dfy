/** What whole runs of the interpreter keep while an RPC or action input is prepared and executed. */
module InputRuns {
  import opened Wrappers
  import opened AstPath
  import opened InputMode

  // ---- a run splits into what the input and what the main datastore get ----

  /** The commands that can end an active input. */
  predicate MayEnd(c: Command) {
    c.Cancel? || (c.Exec? && c.maybePath.None?)
  }

  predicate NoneEnds(steps: seq<Step>) {
    forall i :: 0 <= i < |steps| ==> !MayEnd(steps[i].command)
  }

  /** The entry an edit command leaves, if it gets as far as calling a datastore. */
  ghost function EntryOf(s: State, step: Step): Option<(string, Entry)> {
    if !IsEdit(step.command) then None
    else
      match CallOf(s, step.command)
      case None => None
      case Some(call) => Some((call.path, Entry(call, step.answers.call)))
  }

  /** The entries of the run that the input store gets, or those that the main store gets. */
  ghost function EntriesFor(s: State, steps: seq<Step>, input: bool): History
    requires Consistent(s)
    decreases |steps|
  {
    if steps == [] then []
    else
      var e := EntryOf(s, steps[0]);
      (if e.Some? && GoesToInput(s, e.value.0) == input then [e.value.1] else [])
      + EntriesFor(Next(s, steps[0]).state, steps[1..], input)
  }

  lemma StepWhileActive(s: State, step: Step)
    requires Consistent(s) && s.inputPath.Some? && !MayEnd(step.command)
    ensures var e, n := EntryOf(s, step), Next(s, step).state;
            && n.inputPath == s.inputPath && n.target == s.target
            && (e.None? ==> n.inputStore == s.inputStore && n.main == s.main)
            && (e.Some? ==> n == Routed(s, e.value.0, e.value.1))
  {
  }

  /** While an input is active, a run only appends to the two datastores: each edit that passes its
      guard lands, in order, in the store its path string picks, and everything else changes neither. */
  lemma {:induction false} RunWhileActive(s: State, steps: seq<Step>)
    requires Consistent(s) && s.inputPath.Some? && NoneEnds(steps)
    ensures var n := Run(s, steps);
            && n.inputPath == s.inputPath && n.target == s.target
            && n.inputStore == Some(s.inputStore.value + EntriesFor(s, steps, true))
            && n.main == s.main + EntriesFor(s, steps, false)
    decreases |steps|
  {
    hide Next, EntryOf;
    var toInput, toMain := EntriesFor(s, steps, true), EntriesFor(s, steps, false);
    if steps == [] {
      assert s.inputStore.value + [] == s.inputStore.value;
    } else {
      StepWhileActive(s, steps[0]);
      var next := Next(s, steps[0]).state;
      RunWhileActive(next, steps[1..]);
      assert next.inputStore.value + EntriesFor(next, steps[1..], true) == s.inputStore.value + toInput;
      assert next.main + EntriesFor(next, steps[1..], false) == s.main + toMain;
    }
  }

  // ---- isolation of the main datastore ----

  /** The command as the user can see it before it runs: a relative or ".."-free path for set,
      create and delete, an absolute source for move. */
  predicate IsDirected(c: Command) {
    match c
    case Move(source, _) => source.scope.Absolute?
    case Set(_, _) | Create(_) | Delete(_) => c.path.scope.Relative? || !HasNodeUp(c.path.nodes)
    case _ => true
  }

  /** The command reaches the main datastore although an input is active. */
  ghost predicate Escapes(s: State, step: Step) {
    EntryOf(s, step).Some? && !GoesToInput(s, EntryOf(s, step).value.0)
  }

  lemma DirectedStaysInside(s: State, step: Step)
    requires Consistent(s) && s.inputPath.Some? && IsDirected(step.command)
    ensures !Escapes(s, step)
  {
    var c := step.command;
    if IsEdit(c) && !c.Move? && CallOf(s, c).Some? {
      RealPathVersusCanonical(s.cwd, c.path);
    }
  }

  /** Until the input ends, no sequence of directed commands changes the main datastore, and every
      edit that passes its guard reaches the input. */
  lemma {:induction false} InputIsIsolated(s: State, steps: seq<Step>)
    requires Consistent(s) && s.inputPath.Some? && NoneEnds(steps)
    requires forall i :: 0 <= i < |steps| ==> IsDirected(steps[i].command)
    ensures Run(s, steps).main == s.main && Run(s, steps).inputPath == s.inputPath
    ensures EntriesFor(s, steps, false) == []
    decreases |steps|
  {
    hide Next, EntryOf, CallOf;
    RunWhileActive(s, steps);
    if steps != [] {
      DirectedStaysInside(s, steps[0]);
      StepWhileActive(s, steps[0]);
      InputIsIsolated(Next(s, steps[0]).state, steps[1..]);
    }
  }

  ghost predicate SomeStepEscapes(s: State, steps: seq<Step>) {
    exists i :: 0 <= i < |steps| && Consistent(s) && Escapes(Run(s, steps[..i]), steps[i])
  }

  /** The main datastore gets an entry exactly when some step escapes. */
  lemma {:induction false} EscapesAreMainEntries(s: State, steps: seq<Step>)
    requires Consistent(s)
    ensures EntriesFor(s, steps, false) != [] <==> SomeStepEscapes(s, steps)
    decreases |steps|
  {
    hide Next, EntryOf, GoesToInput;
    if steps != [] {
      var next, rest := Next(s, steps[0]).state, steps[1..];
      EscapesAreMainEntries(next, rest);
      assert steps[..0] == [];
      forall i | 0 <= i < |rest|
        ensures Run(s, steps[..i + 1]) == Run(next, rest[..i])
      {
        assert steps[..i + 1][1..] == rest[..i];
      }
      if SomeStepEscapes(next, rest) {
        var i :| 0 <= i < |rest| && Escapes(Run(next, rest[..i]), rest[i]);
        assert Escapes(Run(s, steps[..i + 1]), steps[i + 1]);
      }
      if SomeStepEscapes(s, steps) {
        var i :| 0 <= i < |steps| && Escapes(Run(s, steps[..i]), steps[i]);
        if i > 0 {
          assert Escapes(Run(next, rest[..i - 1]), rest[i - 1]);
        }
      }
    }
  }

  // ---- the working directory stays inside the input ----

  ghost predicate IsInside(s: State) {
    s.inputPath.Some? ==> s.inputPath.value <= Printed(s.cwd)
  }

  /** A discipline that keeps the cwd inside: createItem succeeds whenever an input is started, prepare paths
      are relative or ".."-free, and exec carries no path while an input is active. */
  ghost predicate IsDisciplined(s: State, step: Step) {
    match step.command
    case Prepare(path) => step.answers.initial && (path.scope.Relative? || !HasNodeUp(path.nodes))
    case Exec(Some(_)) => s.inputPath.None? && step.answers.initial
    case _ => true
  }

  lemma DisciplinedStepStaysInside(s: State, step: Step)
    requires Consistent(s) && IsInside(s) && IsDisciplined(s, step)
    ensures IsInside(Next(s, step).state)
  {
    hide Printed;
    match step.command
    case Prepare(path) =>
      if CanonicalPath(s.cwd, path).Some? {
        RealPathVersusCanonical(s.cwd, path);
      }
    case _ =>
  }

  ghost predicate RunIsDisciplined(s: State, steps: seq<Step>)
    requires Consistent(s)
    decreases |steps|
  {
    steps != [] ==> IsDisciplined(s, steps[0]) && RunIsDisciplined(Next(s, steps[0]).state, steps[1..])
  }

  /** Over every disciplined run the cwd stays inside an active input. */
  lemma {:induction false} RunStaysInside(s: State, steps: seq<Step>)
    requires Consistent(s) && IsInside(s) && RunIsDisciplined(s, steps)
    ensures IsInside(Run(s, steps))
    decreases |steps|
  {
    if steps != [] {
      DisciplinedStepStaysInside(s, steps[0]);
      RunStaysInside(Next(s, steps[0]).state, steps[1..]);
    }
  }

  /** The prompt of the command line: substr of the current node after the length of the input
      path. None is std::out_of_range. */
  ghost function Prompt(s: State): Option<string> {
    if s.inputPath.None? then Some(Printed(s.cwd) + "> ")
    else if |s.inputPath.value| > |Printed(s.cwd)| then None
    else Some("(prepare: " + s.inputPath.value + ") " + Printed(s.cwd)[|s.inputPath.value|..] + "> ")
  }

  /** Inside the input the prompt is in range, and its two parts make up the current node. */
  lemma PromptShowsTheCwd(s: State)
    requires IsInside(s) && s.inputPath.Some?
    ensures s.inputPath.value + Printed(s.cwd)[|s.inputPath.value|..] == Printed(s.cwd)
    ensures var rest := Printed(s.cwd)[|s.inputPath.value|..];
            Prompt(s) == Some("(prepare: " + s.inputPath.value + ") " + rest + "> ")
  {
  }

  /** Without an input the prompt is the current node, and it can always be shown. */
  lemma IdlePromptIsTheCwd(s: State)
    requires s.inputPath.None?
    ensures Prompt(s) == Some(Printed(s.cwd) + "> ")
  {
  }

  // ---- what exec delivers ----

  /** From a prepare that succeeds to the exec that ends it, the main datastore gets the recorded
      path with the createItem of the prepare followed by the edits routed to the input, in order;
      nothing of an earlier input is in it, and afterwards no input is active. */
  lemma ExecDeliversThePreparedInput(s: State, first: Step, steps: seq<Step>, last: Step)
    requires Consistent(s) && first.command.Prepare? && Next(s, first).ok
    requires NoneEnds(steps) && last.command == Exec(None) && last.answers.items
    ensures CanonicalPath(s.cwd, first.command.path).Some?
    ensures var path := Printed(CanonicalPath(s.cwd, first.command.path).value);
            var started := Next(s, first).state;
            var input := [Entry(CreateItem(path), true)] + EntriesFor(started, steps, true);
            var delivery := Entry(Execute(path, input), last.answers.call);
            var end := Next(Run(started, steps), last).state;
            && end.main == s.main + EntriesFor(started, steps, false) + [delivery]
            && end.inputPath == None && end.inputStore == None && end.cwd == ROOT
  {
    RunWhileActive(Next(s, first).state, steps);
  }

  /** From the root, exec with a path does the same as a prepare of that path and then exec, if and
      only if the new input store does not refuse its first item: a prepare leaves that input active,
      and the exec after it executes it, while exec with a path gives up. */
  lemma ExecIsPrepareThenExecIff(s: State, path: DataPath, a: Answers)
    requires Consistent(s) && s.inputPath.None? && s.cwd == ROOT
    ensures Next(s, Step(Exec(Some(path)), a)).state == Run(s, [Step(Prepare(path), a), Step(Exec(None), a)])
       <==> a.initial || !a.factory || CanonicalPath(ROOT, path).None?
  {
    var first, last := Step(Prepare(path), a), Step(Exec(None), a);
    assert [first, last][1..] == [last] && [last][1..] == [];
    assert Run(s, [first, last]) == Run(Next(s, first).state, [last]) == Next(Next(s, first).state, last).state;
    hide Printed;
  }

  /** execute leaves no input active, however it ends. An exec with a path leaves one active exactly
      when it refuses to start over one, or the new input store refuses its first item. */
  lemma ExecLeavesAnInputIff(s: State, step: Step)
    requires Consistent(s) && step.command.Exec?
    ensures Next(s, step).state.cwd == ROOT
    ensures Next(s, step).state.inputPath.Some?
       <==> && step.command.maybePath.Some?
            && (|| s.inputPath.Some?
                || (&& CanonicalPath(ROOT, step.command.maybePath.value).Some?
                    && step.answers.factory && !step.answers.initial))
  {
    hide Printed, CanonicalPath;
    var home := s.(cwd := ROOT);
    assert step.command.maybePath.None? ==> ExecuteInput(home, step.answers).state.inputPath.None?;
  }

  predicate StaysUnder(path: string, e: Entry) {
    (e.call.SetLeaf? || e.call.CreateItem? || e.call.DeleteItem? || e.call.MoveItem?) && path <= e.call.path
  }

  /** An input begins with the item of its own path and holds only edits under that path. */
  predicate IsInputOf(path: string, input: History) {
    && input != [] && input[0].call == CreateItem(path)
    && forall i :: 0 <= i < |input| ==> StaysUnder(path, input[i])
  }

  predicate ExecutesOnlyItsInput(e: Entry) {
    e.call.Execute? ==> IsInputOf(e.call.path, e.call.input)
  }

  predicate IsClean(s: State) {
    && Consistent(s)
    && (s.inputPath.Some? ==> IsInputOf(s.inputPath.value, s.inputStore.value))
    && forall i :: 0 <= i < |s.main| ==> ExecutesOnlyItsInput(s.main[i])
  }

  lemma StepKeepsClean(s: State, step: Step)
    requires IsClean(s)
    ensures IsClean(Next(s, step).state)
  {
    hide Printed, CanonicalPath, RealPath, IsOutOfContext;
  }

  /** In every run of any commands, throwing or not, the input path and the input store stay set or
      unset together, and whatever the main datastore executes is an input of that very path. */
  lemma {:induction false} EveryExecutionIsOfItsOwnInput(s: State, steps: seq<Step>)
    requires IsClean(s)
    ensures IsClean(Run(s, steps))
    decreases |steps|
  {
    hide Next;
    if steps != [] {
      StepKeepsClean(s, steps[0]);
      EveryExecutionIsOfItsOwnInput(Next(s, steps[0]).state, steps[1..]);
    }
  }

  /** Working directories and input paths stay absolute. */
  lemma {:induction false} RunStaysRooted(s: State, steps: seq<Step>)
    requires Consistent(s) && IsRooted(s)
    ensures IsRooted(Run(s, steps))
    decreases |steps|
  {
    hide Next;
    if steps != [] {
      StepStaysRooted(s, steps[0]);
      RunStaysRooted(Next(s, steps[0]).state, steps[1..]);
    }
  }

  lemma StepStaysRooted(s: State, step: Step)
    requires Consistent(s) && IsRooted(s)
    ensures IsRooted(Next(s, step).state)
  {
    hide Printed, CallOf;
    match step.command
    case Prepare(path) =>
      if CanonicalPath(s.cwd, path).Some? {
        AbsolutePrintHasSlash(CanonicalPath(s.cwd, path).value.nodes);
      }
    case Exec(Some(path)) =>
      if CanonicalPath(ROOT, path).Some? {
        AbsolutePrintHasSlash(CanonicalPath(ROOT, path).value.nodes);
      }
    case _ =>
  }
}
