/** The state machine of the interpreter: the working directory of Parser, the two datastores of
    ProxyDatastore, and one step per command (src/interpreter.cpp:60-293,
    src/proxy_datastore.cpp:18-119). */
module InputMode {
  import opened Wrappers
  import opened AstPath
  import opened PathPrinter
  import Text

  datatype Target = Operational | StartupTarget | RunningTarget
  datatype Config = RunningConfig | StartupConfig
  datatype Destination = Begin | End | Before(keys: ListInstance) | After(keys: ListInstance)

  /** The calls that can change a datastore. The input of Execute is the history of the input
      datastore whose items it gets. */
  datatype Call =
    | SetLeaf(path: string, value: LeafData)
    | CreateItem(path: string)
    | DeleteItem(path: string)
    | MoveItem(path: string, destination: Destination)
    | CommitChanges
    | DiscardChanges
    | CopyConfig(source: Config, dest: Config)
    | Execute(path: string, input: seq<Entry>)

  /** A call, and whether the datastore took it or threw. */
  datatype Entry = Entry(call: Call, accepted: bool)

  type History = seq<Entry>

  /** m_curDir; m_inputPath, m_inputDatastore, m_datastore and its target. */
  datatype State = State(cwd: DataPath, inputPath: Option<string>, inputStore: Option<History>,
                         main: History, target: Target)

  datatype GetPath = OfData(path: DataPath) | OfModule(name: string)

  /** Inspect stands for ls, describe, dump, help and quit. */
  datatype Command =
    | Set(path: DataPath, value: LeafData)
    | Create(path: DataPath)
    | Delete(path: DataPath)
    | Move(path: DataPath, destination: Destination)
    | Cd(path: DataPath)
    | Commit
    | Discard
    | Copy(source: Config, dest: Config)
    | Switch(target: Target)
    | Prepare(path: DataPath)
    | Exec(maybePath: Option<DataPath>)
    | Cancel
    | Get(from: Option<GetPath>, dsTarget: Option<Target>)
    | Inspect

  /** What code outside this model answers during one step: whether the factory returns a store,
      whether that store takes its first createItem, whether a datastore takes the command's own
      call, whether its items can be read and whether they can be printed. */
  datatype Answers = Answers(factory: bool, initial: bool, call: bool, items: bool, shown: bool)

  datatype Step = Step(command: Command, answers: Answers)

  /** The new state, and whether the command ended without an exception. */
  datatype Result = Result(state: State, ok: bool)

  // ---- routing and guards ----

  ghost function Printed(path: DataPath): string {
    DataString(path, WhenNeeded)
  }

  const ROOT := DataPath(Absolute, [])

  /** The input path and the input store are both set or both unset. */
  predicate Consistent(s: State) {
    s.inputPath.Some? <==> s.inputStore.Some?
  }

  /** pickDatastore */
  predicate GoesToInput(s: State, path: string) {
    s.inputPath.Some? && s.inputPath.value <= path
  }

  function Routed(s: State, path: string, entry: Entry): State
    requires Consistent(s)
  {
    if GoesToInput(s, path) then s.(inputStore := Some(s.inputStore.value + [entry]))
    else s.(main := s.main + [entry])
  }

  /** The guard on set, create, delete, move and cd: while an input is active, the printed real
      path must start with the input path. */
  ghost predicate IsOutOfContext(s: State, path: DataPath) {
    && s.inputPath.Some?
    && (RealPath(s.cwd, path).Some? ==> !(s.inputPath.value <= Printed(RealPath(s.cwd, path).value)))
  }

  /** An identity without a module gets that of the first path node; None is the exception when
      that node has none. */
  function Qualify(path: DataPath, value: LeafData): Option<LeafData> {
    if value.Identity? && value.mod.None? then
      if FirstPrefix(path.nodes).Some? then Some(Identity(FirstPrefix(path.nodes), value.name)) else None
    else Some(value)
  }

  predicate IsEdit(c: Command) {
    c.Set? || c.Create? || c.Delete? || c.Move?
  }

  /** The call an edit command makes, or None when it throws before making one. */
  ghost function CallOf(s: State, c: Command): Option<Call>
    requires IsEdit(c)
  {
    if IsOutOfContext(s, c.path) then None
    else if c.Move? then Some(MoveItem(Printed(c.path), c.destination))
    else
      match CanonicalPath(s.cwd, c.path)
      case None => None
      case Some(canonical) =>
        match c
        case Create(_) => Some(CreateItem(Printed(canonical)))
        case Delete(_) => Some(DeleteItem(Printed(canonical)))
        case Set(_, value) =>
          match Qualify(c.path, value)
          case None => None
          case Some(v) => Some(SetLeaf(Printed(canonical), v))
  }

  // ---- the steps ----

  function Initiate(s: State, path: string, a: Answers): Result {
    if s.inputStore.Some? || !a.factory then Result(s, false)
    else
      Result(s.(inputPath := Some(path), inputStore := Some([Entry(CreateItem(path), a.initial)])), a.initial)
  }

  function CancelInput(s: State): State {
    s.(inputPath := None, inputStore := None)
  }

  function ExecuteInput(s: State, a: Answers): Result
    requires Consistent(s)
  {
    if s.inputStore.None? then Result(s, false)
    else if !a.items then Result(CancelInput(s), false)
    else
      var entry := Entry(Execute(s.inputPath.value, s.inputStore.value), a.call);
      Result(CancelInput(s).(main := s.main + [entry]), a.call)
  }

  /** Commands that are refused while an input is active. */
  function UnlessActive(s: State, r: Result): Result {
    if s.inputPath.Some? then Result(s, false) else r
  }

  ghost function PrepareInput(s: State, path: DataPath, a: Answers): Result {
    match CanonicalPath(s.cwd, path)
    case None => Result(s, false)
    case Some(canonical) =>
      var r := Initiate(s, Printed(canonical), a);
      if !r.ok then r
      else
        match RealPath(s.cwd, path)
        case None => Result(r.state, false)
        case Some(entered) => Result(r.state.(cwd := entered), true)
  }

  /** The cwd is reset before anything that can throw. */
  ghost function ExecCommand(s: State, path: Option<DataPath>, a: Answers): Result
    requires Consistent(s)
  {
    var home := s.(cwd := ROOT);
    var r := if path.None? then ExecuteInput(home, a)
      else
        match CanonicalPath(ROOT, path.value)
        case None => Result(home, false)
        case Some(canonical) =>
          var started := Initiate(home, Printed(canonical), a);
          if started.ok then ExecuteInput(started.state, a) else started;
    Result(r.state, r.ok && a.shown)
  }

  /** The path string that get reads, or None when resolving it throws. */
  ghost function GetString(s: State, from: Option<GetPath>): Option<string> {
    match from
    case None => Some(Printed(s.cwd))
    case Some(OfModule(name)) => Some("/" + name + ":*")
    case Some(OfData(path)) =>
      match CanonicalPath(s.cwd, path)
      case None => None
      case Some(canonical) => Some(Printed(canonical))
  }

  ghost function Next(s: State, step: Step): (r: Result)
    requires Consistent(s)
    ensures Consistent(r.state)
  {
    var a := step.answers;
    match step.command
    case Cd(path) =>
      if IsOutOfContext(s, path) || RealPath(s.cwd, path).None? then Result(s, false)
      else Result(s.(cwd := RealPath(s.cwd, path).value), true)
    case Commit => UnlessActive(s, Result(s.(main := s.main + [Entry(CommitChanges, a.call)]), a.call))
    case Discard => UnlessActive(s, Result(s.(main := s.main + [Entry(DiscardChanges, a.call)]), a.call))
    case Copy(from, to) => UnlessActive(s, Result(s.(main := s.main + [Entry(CopyConfig(from, to), a.call)]), a.call))
    case Switch(target) => UnlessActive(s, Result(s.(target := target), true))
    case Prepare(path) => UnlessActive(s, PrepareInput(s, path, a))
    case Exec(path) => ExecCommand(s, path, a)
    case Cancel => Result(CancelInput(s).(cwd := ROOT), true)
    case Get(from, _) => Result(s, GetString(s, from).Some? && a.items && a.shown)
    case Inspect => Result(s, a.call)
    case _ =>
      match CallOf(s, step.command)
      case None => Result(s, false)
      case Some(call) => Result(Routed(s, call.path, Entry(call, a.call)), a.call)
  }

  /** The steps of edits, exec and get, which their methods are proved against. */
  lemma StepOf(s: State, c: Command, a: Answers)
    requires Consistent(s)
    ensures IsEdit(c) && CallOf(s, c).None? ==> Next(s, Step(c, a)) == Result(s, false)
    ensures IsEdit(c) && CallOf(s, c).Some? ==>
              var call := CallOf(s, c).value;
              Next(s, Step(c, a)) == Result(Routed(s, call.path, Entry(call, a.call)), a.call)
    ensures c.Exec? ==> Next(s, Step(c, a)) == ExecCommand(s, c.maybePath, a)
    ensures c.Get? ==> Next(s, Step(c, a)) == Result(s, GetString(s, c.from).Some? && a.items && a.shown)
  {
    hide CallOf, ExecCommand, GetString, IsOutOfContext, Printed;
  }

  // ---- what each command does ----

  /** A create, delete or move that passes the guard asks for exactly that, at the path it resolves
      to, a move at the path as it was entered; one store grows by the call, and nothing else changes. */
  lemma EditIsSent(s: State, c: Command, a: Answers)
    requires Consistent(s) && (c.Create? || c.Delete? || c.Move?)
    requires !IsOutOfContext(s, c.path) && (!c.Move? ==> CanonicalPath(s.cwd, c.path).Some?)
    ensures var path := if c.Move? then Printed(c.path) else Printed(CanonicalPath(s.cwd, c.path).value);
            var call := match c
                        case Create(_) => CreateItem(path)
                        case Delete(_) => DeleteItem(path)
                        case _ => MoveItem(path, c.destination);
            var entry := Entry(call, a.call);
            Next(s, Step(c, a))
              == Result(if s.inputPath.Some? && s.inputPath.value <= path
                        then s.(inputStore := Some(s.inputStore.value + [entry]))
                        else s.(main := s.main + [entry]), a.call)
  {
    hide Printed, CanonicalPath, IsOutOfContext;
  }

  /** A set sends the value with its module, if the value is an identity without one. */
  lemma SetIsSent(s: State, path: DataPath, value: LeafData, a: Answers)
    requires Consistent(s) && !IsOutOfContext(s, path) && CanonicalPath(s.cwd, path).Some?
    requires value.Identity? && value.mod.None? ==> path.nodes != [] && path.nodes[0].prefix.Some?
    ensures var text := Printed(CanonicalPath(s.cwd, path).value);
            var sent := if value.Identity? && value.mod.None? then Identity(path.nodes[0].prefix, value.name)
                        else value;
            var entry := Entry(SetLeaf(text, sent), a.call);
            Next(s, Step(Set(path, value), a))
              == Result(if s.inputPath.Some? && s.inputPath.value <= text
                        then s.(inputStore := Some(s.inputStore.value + [entry]))
                        else s.(main := s.main + [entry]), a.call)
  {
    hide Printed, CanonicalPath, IsOutOfContext;
  }

  /** A command that is refused or that throws before its call changes nothing; so do get and the
      commands that only show something. */
  lemma RefusedChangesNothing(s: State, c: Command, a: Answers)
    requires Consistent(s)
    requires || ((c.Commit? || c.Discard? || c.Copy? || c.Switch? || c.Prepare?) && s.inputPath.Some?)
             || ((IsEdit(c) || c.Cd?) && IsOutOfContext(s, c.path))
             || ((c.Set? || c.Create? || c.Delete? || c.Prepare?) && CanonicalPath(s.cwd, c.path).None?)
             || (c.Cd? && RealPath(s.cwd, c.path).None?)
             || (&& c.Set? && c.value.Identity? && c.value.mod.None?
                 && (c.path.nodes == [] || c.path.nodes[0].prefix.None?))
    ensures Next(s, Step(c, a)) == Result(s, false)
  {
    hide Printed, CanonicalPath, RealPath, IsOutOfContext;
  }

  lemma ReadingChangesNothing(s: State, c: Command, a: Answers)
    requires Consistent(s) && (c.Get? || c.Inspect?)
    ensures Next(s, Step(c, a)).state == s
  {
  }

  /** get reads the current node, everything of a module, or the path it resolves to, and fails when
      that does not resolve or the items cannot be read or shown. */
  lemma GetReadsThere(s: State, from: Option<GetPath>, dsTarget: Option<Target>, a: Answers)
    requires Consistent(s)
    ensures GetString(s, None) == Some(Printed(s.cwd))
    ensures forall name :: GetString(s, Some(OfModule(name))) == Some("/" + name + ":*")
    ensures forall path :: GetString(s, Some(OfData(path)))
              == if CanonicalPath(s.cwd, path).None? then None else Some(Printed(CanonicalPath(s.cwd, path).value))
    ensures Next(s, Step(Get(from, dsTarget), a)).ok <==> GetString(s, from).Some? && a.items && a.shown
  {
    hide Printed, CanonicalPath;
  }

  /** cd goes to a relative path from the working directory, and to an absolute one as it is written;
      nothing else changes. */
  lemma CdGoesThere(s: State, path: DataPath, a: Answers)
    requires Consistent(s) && !IsOutOfContext(s, path)
    requires path.scope.Relative? ==> Resolve(s.cwd.nodes, path.nodes).Some?
    ensures Next(s, Step(Cd(path), a))
         == Result(s.(cwd := if path.scope.Absolute? then path
                             else DataPath(s.cwd.scope, Resolve(s.cwd.nodes, path.nodes).value)), true)
  {
    hide Printed, IsOutOfContext;
  }

  /** Without an active input, commit, discard, copy and switch reach the main datastore and change
      nothing else. */
  lemma MainIsReached(s: State, c: Command, a: Answers)
    requires Consistent(s) && s.inputPath.None? && (c.Commit? || c.Discard? || c.Copy? || c.Switch?)
    ensures c.Commit? ==>
              Next(s, Step(c, a)) == Result(s.(main := s.main + [Entry(CommitChanges, a.call)]), a.call)
    ensures c.Discard? ==>
              Next(s, Step(c, a)) == Result(s.(main := s.main + [Entry(DiscardChanges, a.call)]), a.call)
    ensures c.Copy? ==>
              Next(s, Step(c, a)) == Result(s.(main := s.main + [Entry(CopyConfig(c.source, c.dest), a.call)]), a.call)
    ensures c.Switch? ==> Next(s, Step(c, a)) == Result(s.(target := c.target), true)
  {
  }

  /** cancel forgets the input and goes to the root; the main datastore never hears of the input. */
  lemma CancelForgets(s: State, a: Answers)
    requires Consistent(s)
    ensures Next(s, Step(Cancel, a)) == Result(State(DataPath(Absolute, []), None, None, s.main, s.target), true)
  {
  }

  /** A prepare starts an input with the createItem of the path it resolves to, and goes there when
      the new store takes it. */
  lemma PrepareStarts(s: State, path: DataPath, a: Answers)
    requires Consistent(s) && s.inputPath.None? && CanonicalPath(s.cwd, path).Some?
    ensures var text := Printed(CanonicalPath(s.cwd, path).value);
            var started := s.(inputPath := Some(text), inputStore := Some([Entry(CreateItem(text), a.initial)]));
            && (!a.factory ==> Next(s, Step(Prepare(path), a)) == Result(s, false))
            && (a.factory && !a.initial ==> Next(s, Step(Prepare(path), a)) == Result(started, false))
            && (a.factory && a.initial ==>
                  RealPath(s.cwd, path).Some?
                  && Next(s, Step(Prepare(path), a)) == Result(started.(cwd := RealPath(s.cwd, path).value), true))
  {
    hide Printed;
  }

  /** exec with a path, while no input is active, hands the main datastore an input of that path that
      holds the createItem alone; what goes wrong before leaves the main datastore as it was. */
  lemma ExecWithPathExecutes(s: State, path: DataPath, a: Answers)
    requires Consistent(s) && s.inputPath.None?
    ensures var r := Next(s, Step(Exec(Some(path)), a));
            && r.state.cwd == DataPath(Absolute, []) && r.state.target == s.target
            && (CanonicalPath(ROOT, path).Some? && a.factory && a.initial && a.items ==>
                  var text := Printed(CanonicalPath(ROOT, path).value);
                  var input := [Entry(CreateItem(text), true)];
                  && r.state.main == s.main + [Entry(Execute(text, input), a.call)]
                  && r.state.inputPath == None && r.state.inputStore == None && r.ok == (a.call && a.shown))
            && (!(CanonicalPath(ROOT, path).Some? && a.factory && a.initial && a.items) ==>
                  r.state.main == s.main && !r.ok)
  {
    hide Printed, CanonicalPath;
  }

  /** exec without a path hands over the active input, and ends it however that turns out. */
  lemma ExecHandsOver(s: State, a: Answers)
    requires Consistent(s)
    ensures var r := Next(s, Step(Exec(None), a));
            && r.state.cwd == DataPath(Absolute, []) && r.state.target == s.target
            && r.state.inputPath == None && r.state.inputStore == None
            && (s.inputPath.Some? && a.items ==>
                  && r.state.main == s.main + [Entry(Execute(s.inputPath.value, s.inputStore.value), a.call)]
                  && r.ok == (a.call && a.shown))
            && (!(s.inputPath.Some? && a.items) ==> r.state.main == s.main && !r.ok)
  {
  }

  /** Only cd, prepare, exec and cancel move the working directory, only switch the target, and only
      prepare, exec and cancel start or end an input; the main datastore's history only grows. */
  lemma WhatAStepChanges(s: State, step: Step)
    requires Consistent(s)
    ensures var (c, n) := (step.command, Next(s, step).state);
            && (n.cwd != s.cwd ==> c.Cd? || c.Prepare? || c.Exec? || c.Cancel?)
            && (n.target != s.target ==> c.Switch?)
            && (n.inputPath != s.inputPath ==> c.Prepare? || c.Exec? || c.Cancel?)
            && s.main <= n.main && |n.main| <= |s.main| + 1
            && (n.main != s.main ==> IsEdit(c) || c.Commit? || c.Discard? || c.Copy? || c.Exec?)
  {
    hide Printed, CanonicalPath, RealPath, IsOutOfContext, Qualify;
  }

  ghost function Run(s: State, steps: seq<Step>): (r: State)
    requires Consistent(s)
    ensures Consistent(r)
    decreases |steps|
  {
    if steps == [] then s else Run(Next(s, steps[0]).state, steps[1..])
  }

  /** Whatever set sends to a datastore is the value entered, except that an identity always has a
      module: its own, or that of the first node of the path. */
  lemma SetNeverSendsABareIdentity(s: State, path: DataPath, value: LeafData)
    requires CallOf(s, Set(path, value)).Some?
    ensures CanonicalPath(s.cwd, path).Some?
    ensures var call := CallOf(s, Set(path, value)).value;
            && call.SetLeaf? && call.path == Printed(CanonicalPath(s.cwd, path).value)
            && (call.value.Identity? ==> call.value.mod.Some?)
            && (!(value.Identity? && value.mod.None?) ==> call.value == value)
            && (value.Identity? && value.mod.None? ==>
                  path.nodes != [] && call.value == Identity(path.nodes[0].prefix, value.name))
  {
    hide Printed, CanonicalPath, RealPath;
  }

  // ---- where edits go ----

  ghost predicate IsRooted(s: State) {
    s.cwd.scope.Absolute? && (s.inputPath.Some? ==> s.inputPath.value != "" && s.inputPath.value[0] == '/')
  }

  /** Names are identifiers, as those of every parsed node are. */
  predicate IsNamed(n: DataNode) {
    && (n.prefix.Some? ==> Text.IsIdentifier(n.prefix.value))
    && (!n.suffix.NodeUp? ==> Text.IsIdentifier(n.suffix.name))
  }

  /** A move that the guard lets through goes to the input exactly when its source is absolute: the
      relative source is printed as it is, without the leading slash of every input path. */
  lemma MoveGoesToInputIff(s: State, c: Command)
    requires Consistent(s) && s.inputPath.Some? && IsRooted(s)
    requires c.Move? && CallOf(s, c).Some?
    requires c.path.nodes != [] ==> IsNamed(c.path.nodes[0])
    ensures GoesToInput(s, CallOf(s, c).value.path) <==> c.path.scope.Absolute?
  {
    if c.path.scope.Relative? {
      RelativePrintHasNoSlash(c.path.nodes);
    }
  }

  lemma RelativePrintHasNoSlash(nodes: seq<DataNode>)
    requires nodes != [] ==> IsNamed(nodes[0])
    ensures var text := Printed(DataPath(Relative, nodes)); text != "" ==> text[0] != '/'
  {
    if nodes != [] {
      var pieces := DataPieces(FirstPrefix(nodes), nodes, WhenNeeded);
      assert pieces[0] != "" && pieces[0][0] != '/';
      JoinAllKeepsFirst(pieces[0], pieces[1..]);
    }
  }

  /** Every absolute path prints with a leading slash, whatever its names. */
  lemma AbsolutePrintHasSlash(nodes: seq<DataNode>)
    ensures var text := Printed(DataPath(Absolute, nodes)); text != "" && text[0] == '/'
  {
    JoinAllKeepsFirst("/", DataPieces(FirstPrefix(nodes), nodes, WhenNeeded));
  }

  lemma {:induction false} JoinAllKeepsFirst(acc: string, pieces: seq<string>)
    requires acc != ""
    ensures var text := JoinAll(acc, pieces); text != "" && text[0] == acc[0]
    decreases |pieces|
  {
    if pieces != [] {
      JoinAllKeepsFirst(Text.JoinPaths(acc, pieces[0]), pieces[1..]);
    }
  }
}
