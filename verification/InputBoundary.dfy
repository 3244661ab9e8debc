/** Where the boundary of an input runs, in terms of path nodes: the guards and the routing compare
    printed strings (src/interpreter.cpp:67-80, src/proxy_datastore.cpp:102-109), and these are the
    paths for which the comparisons come out one way or the other. */
module InputBoundary {
  import opened Wrappers
  import opened AstPath
  import opened PathPrinter
  import opened UniqueReadability
  import opened InputMode
  import opened InputRuns

  /** What the grammar of prepare and exec asks of a path. */
  predicate EndsInRpc(nodes: seq<DataNode>) {
    nodes != [] && (nodes[|nodes| - 1].suffix.Rpc? || nodes[|nodes| - 1].suffix.Action?)
  }

  predicate ArePrintable(nodes: seq<DataNode>) {
    forall n :: n in nodes ==> IsPrintable(n)
  }

  predicate HasPrintableCwd(s: State) {
    s.cwd.scope.Absolute? && ArePrintable(s.cwd.nodes)
  }

  /** The active input was started for these nodes. */
  ghost predicate HasInput(s: State, input: seq<DataNode>) {
    && s.inputPath == Some(Printed(DataPath(Absolute, input)))
    && EndsInRpc(input) && ArePrintable(input)
    && HasPrintableCwd(s)
  }

  /** A prepare that starts an input starts it for the nodes that its path resolves to. */
  lemma StartedInputHasNodes(s: State, path: DataPath, a: Answers)
    requires Consistent(s) && s.inputPath.None? && HasPrintableCwd(s)
    requires ArePrintable(path.nodes) && EndsInRpc(path.nodes)
    requires CanonicalPath(s.cwd, path).Some? && a.factory
    ensures HasInput(Next(s, Step(Prepare(path), a)).state, CanonicalPath(s.cwd, path).value.nodes)
  {
    hide Printed, IsPrintable, EndsInRpc, Resolve;
    var start := if path.scope.Absolute? then [] else s.cwd.nodes;
    ResolvedArePrintable(start, path.nodes);
    ResolvedEndsInRpc(start, path.nodes);
    StepKeepsPrintableCwd(s, Step(Prepare(path), a));
  }

  lemma PrintedUnder(p: seq<DataNode>, q: seq<DataNode>)
    requires ArePrintable(p) && ArePrintable(q)
    ensures Printed(DataPath(Absolute, p)) <= Printed(DataPath(Absolute, q)) <==> IsUnder(p, q)
  {
    PrintedBeginsIff(p, q);
  }

  // ---- resolution on nodes ----

  lemma {:induction false} ResolvedArePrintable(start: seq<DataNode>, fragments: seq<DataNode>)
    requires ArePrintable(start) && ArePrintable(fragments) && Resolve(start, fragments).Some?
    ensures ArePrintable(Resolve(start, fragments).value)
    decreases |fragments|
  {
    hide IsPrintable;
    if fragments != [] {
      assert fragments[0] in fragments;
      ResolvedArePrintable(Push(start, fragments[0]), fragments[1..]);
    }
  }

  /** From the root, climbing has nowhere to go, and only what is appended remains. */
  lemma ResolvedFromRoot(nodes: seq<DataNode>)
    requires Resolve([], nodes).Some?
    ensures Resolve([], nodes).value == Climb(nodes).1
  {
    ResolveIsSaturatingAction([], nodes);
    assert [] + Climb(nodes).1 == Climb(nodes).1;
  }

  /** A path to an RPC resolves to a node, not to the root. */
  lemma ResolvedEndsInRpc(start: seq<DataNode>, nodes: seq<DataNode>)
    requires EndsInRpc(nodes) && Resolve(start, nodes).Some?
    ensures EndsInRpc(Resolve(start, nodes).value)
  {
    var front, last := nodes[..|nodes| - 1], nodes[|nodes| - 1];
    assert nodes == front + [last];
    ResolveConcat(start, front, [last]);
    var mid := Resolve(start, front).value;
    assert Resolve(mid, [last]) == Resolve(Push(mid, last), [last][1..]);
    assert [last][1..] == [];
  }

  // ---- the guard and the routing ----

  /** The guard, on nodes: an absolute path as it is written, a relative one as it resolves. */
  ghost predicate PassesGuard(input: seq<DataNode>, cwd: seq<DataNode>, path: DataPath) {
    if path.scope.Absolute? then IsUnder(input, path.nodes)
    else Resolve(cwd, path.nodes).Some? && IsUnder(input, Resolve(cwd, path.nodes).value)
  }

  lemma GuardIff(s: State, input: seq<DataNode>, path: DataPath)
    requires HasInput(s, input) && ArePrintable(path.nodes)
    ensures !IsOutOfContext(s, path) <==> PassesGuard(input, s.cwd.nodes, path)
  {
    hide Printed, IsUnder;
    if path.scope.Absolute? {
      PrintedUnder(input, path.nodes);
    } else if Resolve(s.cwd.nodes, path.nodes).Some? {
      ResolvedArePrintable(s.cwd.nodes, path.nodes);
      PrintedUnder(input, Resolve(s.cwd.nodes, path.nodes).value);
    }
  }

  /** A set, create or delete that passes its guard goes to the input exactly when its path is
      relative or what remains of it after all its ".." is under the input. */
  lemma EditGoesToInputIff(s: State, input: seq<DataNode>, c: Command)
    requires Consistent(s) && HasInput(s, input)
    requires c.Set? || c.Create? || c.Delete?
    requires ArePrintable(c.path.nodes) && CallOf(s, c).Some?
    ensures GoesToInput(s, CallOf(s, c).value.path)
       <==> c.path.scope.Relative? || IsUnder(input, Climb(c.path.nodes).1)
  {
    hide Printed, IsUnder, IsPrintable;
    if c.path.scope.Relative? {
      RealPathVersusCanonical(s.cwd, c.path);
    } else {
      ResolvedArePrintable([], c.path.nodes);
      ResolvedFromRoot(c.path.nodes);
      PrintedUnder(input, Climb(c.path.nodes).1);
    }
  }

  /** The edits that reach the main datastore although an input is active, told from the command, the
      nodes of the input and the working directory. */
  ghost predicate Leaves(input: seq<DataNode>, cwd: seq<DataNode>, c: Command) {
    && IsEdit(c) && PassesGuard(input, cwd, c.path)
    && if c.Move? then c.path.scope.Relative?
       else
         && c.path.scope.Absolute? && Resolve([], c.path.nodes).Some?
         && (c.Set? ==> Qualify(c.path, c.value).Some?)
         && !IsUnder(input, Climb(c.path.nodes).1)
  }

  lemma EscapesIffLeaves(s: State, input: seq<DataNode>, step: Step)
    requires Consistent(s) && HasInput(s, input)
    requires IsEdit(step.command) ==> ArePrintable(step.command.path.nodes)
    ensures Escapes(s, step) <==> Leaves(input, s.cwd.nodes, step.command)
  {
    var c := step.command;
    if IsEdit(c) {
      GuardIff(s, input, c.path);
      CallIsMadeIff(s, c);
      if CallOf(s, c).Some? {
        RoutingIff(s, input, c);
      }
      hide CallOf, IsUnder, PassesGuard, IsOutOfContext, CanonicalPath, GoesToInput, HasInput;
    }
  }

  lemma RoutingIff(s: State, input: seq<DataNode>, c: Command)
    requires Consistent(s) && HasInput(s, input)
    requires IsEdit(c) && ArePrintable(c.path.nodes) && CallOf(s, c).Some?
    ensures GoesToInput(s, CallOf(s, c).value.path)
       <==> if c.Move? then c.path.scope.Absolute?
            else c.path.scope.Relative? || IsUnder(input, Climb(c.path.nodes).1)
  {
    hide CallOf, IsUnder, Printed, IsPrintable;
    if c.Move? {
      PrintableIsNamed(c.path.nodes);
      AbsolutePrintHasSlash(input);
      MoveGoesToInputIff(s, c);
    } else {
      EditGoesToInputIff(s, input, c);
    }
  }

  lemma PrintableIsNamed(nodes: seq<DataNode>)
    requires ArePrintable(nodes)
    ensures nodes != [] ==> IsNamed(nodes[0])
  {
    assert nodes != [] ==> IsPrintable(nodes[0]);
  }

  lemma CallIsMadeIff(s: State, c: Command)
    requires IsEdit(c)
    ensures CallOf(s, c).Some?
       <==> && !IsOutOfContext(s, c.path)
            && (c.Move? || CanonicalPath(s.cwd, c.path).Some?)
            && (c.Set? ==> Qualify(c.path, c.value).Some?)
  {
    hide Printed, IsOutOfContext;
  }

  // ---- whole runs ----

  predicate HasPrintablePath(c: Command) {
    match c
    case Set(_, _) | Create(_) | Delete(_) | Move(_, _) | Cd(_) | Prepare(_) => ArePrintable(c.path.nodes)
    case Exec(Some(path)) => ArePrintable(path.nodes)
    case _ => true
  }

  lemma StepKeepsPrintableCwd(s: State, step: Step)
    requires Consistent(s) && HasPrintableCwd(s) && HasPrintablePath(step.command)
    ensures HasPrintableCwd(Next(s, step).state)
  {
    hide Printed, IsPrintable, CallOf;
    var c := step.command;
    if (c.Cd? || c.Prepare?) && c.path.scope.Relative? && Resolve(s.cwd.nodes, c.path.nodes).Some? {
      ResolvedArePrintable(s.cwd.nodes, c.path.nodes);
    }
  }

  lemma {:induction false} RunKeepsInput(s: State, input: seq<DataNode>, steps: seq<Step>)
    requires Consistent(s) && HasInput(s, input) && NoneEnds(steps)
    requires forall i :: 0 <= i < |steps| ==> HasPrintablePath(steps[i].command)
    ensures HasInput(Run(s, steps), input)
    decreases |steps|
  {
    hide Next, HasPrintablePath, HasPrintableCwd, EndsInRpc, ArePrintable, Printed;
    if steps != [] {
      StepWhileActive(s, steps[0]);
      StepKeepsPrintableCwd(s, steps[0]);
      RunKeepsInput(Next(s, steps[0]).state, input, steps[1..]);
    }
  }

  /** A run before the input ends changes the main datastore if and only if, at the working directory
      of some step, the command of that step leaves the input. */
  lemma MainChangesIffSomeStepLeaves(s: State, input: seq<DataNode>, steps: seq<Step>)
    requires Consistent(s) && HasInput(s, input) && NoneEnds(steps)
    requires forall i :: 0 <= i < |steps| ==> HasPrintablePath(steps[i].command)
    ensures Run(s, steps).main != s.main
       <==> exists i :: 0 <= i < |steps| && LeavesAt(s, input, steps, i)
  {
    hide Next, Leaves, Escapes;
    RunWhileActive(s, steps);
    EscapesAreMainEntries(s, steps);
    forall i | 0 <= i < |steps|
      ensures Escapes(Run(s, steps[..i]), steps[i]) <==> LeavesAt(s, input, steps, i)
    {
      assert NoneEnds(steps[..i]);
      RunKeepsInput(s, input, steps[..i]);
      EscapesIffLeaves(Run(s, steps[..i]), input, steps[i]);
    }
  }

  ghost predicate LeavesAt(s: State, input: seq<DataNode>, steps: seq<Step>, i: int)
    requires Consistent(s) && 0 <= i < |steps|
  {
    Leaves(input, Run(s, steps[..i]).cwd.nodes, steps[i].command)
  }

  // ---- the working directory ----

  /** Whether a step keeps the cwd inside an input. A prepare whose path leaves by ".." puts the cwd
      where the path as written leads, and one whose first createItem throws leaves it where it was;
      an exec with a path never keeps it inside an input, neither one that was active nor one of its
      own whose first createItem throws. */
  ghost predicate KeepsInside(s: State, step: Step) {
    var a := step.answers;
    match step.command
    case Prepare(path) =>
      var start := if path.scope.Absolute? then [] else s.cwd.nodes;
      s.inputPath.None? && Resolve(start, path.nodes).Some? && a.factory ==>
        var input := Resolve(start, path.nodes).value;
        if !a.initial then IsUnder(input, s.cwd.nodes)
        else path.scope.Absolute? && HasNodeUp(path.nodes) ==> IsUnder(input, path.nodes)
    case Exec(Some(path)) =>
      s.inputPath.None? && (a.initial || !a.factory || Resolve([], path.nodes).None?)
    case _ => true
  }

  predicate HasRpcPath(c: Command) {
    match c
    case Prepare(path) => EndsInRpc(path.nodes)
    case Exec(Some(path)) => EndsInRpc(path.nodes)
    case _ => true
  }

  /** One step keeps the cwd inside the input if and only if that condition on nodes holds. */
  lemma StepKeepsInsideIff(s: State, input: seq<DataNode>, step: Step)
    requires Consistent(s) && IsInside(s) && HasPrintableCwd(s)
    requires s.inputPath.Some? ==> HasInput(s, input)
    requires HasPrintablePath(step.command) && HasRpcPath(step.command)
    ensures IsInside(Next(s, step).state) <==> KeepsInside(s, step)
  {
    match step.command
    case Prepare(path) => PrepareKeepsInsideIff(s, path, step.answers);
    case Exec(Some(path)) => ExecKeepsInsideIff(s, input, path, step.answers);
    case _ =>
      hide Printed, IsPrintable, CallOf;
  }

  lemma PrepareKeepsInsideIff(s: State, path: DataPath, a: Answers)
    requires Consistent(s) && IsInside(s) && HasPrintableCwd(s)
    requires ArePrintable(path.nodes) && EndsInRpc(path.nodes)
    ensures IsInside(Next(s, Step(Prepare(path), a)).state) <==> KeepsInside(s, Step(Prepare(path), a))
  {
    hide Printed, IsPrintable, IsUnder, EndsInRpc;
    var start := if path.scope.Absolute? then [] else s.cwd.nodes;
    if Resolve(start, path.nodes).Some? {
      var resolved := Resolve(start, path.nodes).value;
      RealPathVersusCanonical(s.cwd, path);
      ResolvedArePrintable(start, path.nodes);
      ResolvedEndsInRpc(start, path.nodes);
      PrintedUnder(resolved, s.cwd.nodes);
      PrintedUnder(resolved, path.nodes);
    }
  }

  lemma ExecKeepsInsideIff(s: State, input: seq<DataNode>, path: DataPath, a: Answers)
    requires Consistent(s) && (s.inputPath.Some? ==> HasInput(s, input))
    requires ArePrintable(path.nodes) && EndsInRpc(path.nodes)
    ensures IsInside(Next(s, Step(Exec(Some(path)), a)).state) <==> KeepsInside(s, Step(Exec(Some(path)), a))
  {
    hide Printed, IsPrintable;
    if s.inputPath.Some? {
      PrintedUnder(input, []);
    } else if CanonicalPath(ROOT, path).Some? {
      var resolved := CanonicalPath(ROOT, path).value.nodes;
      ResolvedArePrintable([], path.nodes);
      ResolvedEndsInRpc([], path.nodes);
      PrintedUnder(resolved, []);
    }
  }
}
