/** Parser's working directory, ProxyDatastore and Interpreter as the objects they are
    (src/parser.cpp:86-99, src/proxy_datastore.cpp, src/interpreter.cpp), proved against the steps
    of InputMode. Methods return false where the source throws. */
module Interpreter {
  import opened Wrappers
  import opened AstPath
  import opened PathPrinter
  import opened InputMode

  /** A DatastoreAccess, as the history of the calls that it has taken or refused. */
  class Datastore {
    var history: History
    var target: Target

    constructor (target: Target)
      ensures history == [] && this.target == target
    {
      history, this.target := [], target;
    }

    method Take(call: Call, accepted: bool) returns (ok: bool)
      modifies `history
      ensures history == old(history) + [Entry(call, accepted)] && ok == accepted
    {
      history := history + [Entry(call, accepted)];
      ok := accepted;
    }
  }

  class Parser {
    var curDir: DataPath

    constructor ()
      ensures curDir == ROOT
    {
      curDir := ROOT;
    }

    method ChangeNode(path: DataPath) returns (ok: bool)
      modifies this
      ensures ok == RealPath(old(curDir), path).Some?
      ensures curDir == if ok then RealPath(old(curDir), path).value else old(curDir)
    {
      var next := ComputeRealPath(curDir, path);
      ok := next.Some?;
      if ok {
        curDir := next.value;
      }
    }

    method CurrentNode() returns (text: string)
      ensures text == Printed(curDir)
    {
      text := PathToDataString(curDir, WhenNeeded);
    }
  }

  class ProxyDatastore {
    const main: Datastore
    var inputDatastore: Datastore?
    var inputPath: Option<string>

    ghost predicate Valid()
      reads this
    {
      inputDatastore != main && (inputPath.Some? <==> inputDatastore != null)
    }

    ghost function Repr(): set<object>
      reads this
    {
      {this, main} + if inputDatastore == null then {} else {inputDatastore}
    }

    /** The state of the two datastores; the working directory is the parser's. */
    ghost function Abs(): (s: State)
      requires Valid()
      reads this, Repr()
      ensures Consistent(s) && s.cwd == ROOT
    {
      State(ROOT, inputPath, if inputDatastore == null then None else Some(inputDatastore.history),
            main.history, main.target)
    }

    constructor (datastore: Datastore)
      ensures Valid() && main == datastore && inputDatastore == null && inputPath == None
    {
      main, inputDatastore, inputPath := datastore, null, None;
    }

    method PickDatastore(path: string) returns (picked: Datastore)
      requires Valid()
      ensures GoesToInput(Abs(), path) ==> picked == inputDatastore
      ensures !GoesToInput(Abs(), path) ==> picked == main
    {
      if inputDatastore == null || !(inputPath.value <= path) {
        return main;
      }
      return inputDatastore;
    }

    /** setLeaf, createItem, deleteItem and moveItem. */
    method Edit(call: Call, accepted: bool) returns (ok: bool)
      requires Valid()
      requires call.SetLeaf? || call.CreateItem? || call.DeleteItem? || call.MoveItem?
      modifies Repr()
      ensures Valid() && Repr() == old(Repr())
      ensures Abs() == Routed(old(Abs()), call.path, Entry(call, accepted)) && ok == accepted
    {
      var picked := PickDatastore(call.path);
      ok := picked.Take(call, accepted);
    }

    /** commitChanges, discardChanges and copyConfig go to the main datastore. */
    method CallMain(call: Call, accepted: bool) returns (ok: bool)
      requires Valid()
      modifies main
      ensures Valid() && ok == accepted
      ensures Abs() == old(Abs()).(main := old(Abs()).main + [Entry(call, accepted)])
    {
      ok := main.Take(call, accepted);
    }

    method SetTarget(target: Target)
      requires Valid()
      modifies main
      ensures Valid() && Abs() == old(Abs()).(target := target)
    {
      main.target := target;
    }

    method Initiate(path: string, a: Answers) returns (ok: bool)
      requires Valid()
      modifies Repr()
      ensures Valid() && fresh(Repr() - old(Repr()))
      ensures Result(Abs(), ok) == InputMode.Initiate(old(Abs()), path, a)
    {
      if inputDatastore != null || !a.factory {
        return false;
      }
      var store := new Datastore(main.target);
      inputDatastore := store;
      inputPath := Some(path);
      ok := store.Take(CreateItem(path), a.initial);
      assert store.history == [Entry(CreateItem(path), a.initial)];
    }

    /** cancel runs on every way out once an input is found to be in progress. */
    method Execute(a: Answers) returns (ok: bool)
      requires Valid()
      modifies Repr()
      ensures Valid() && Repr() <= old(Repr())
      ensures Result(Abs(), ok) == ExecuteInput(old(Abs()), a)
    {
      if inputDatastore == null {
        return false;
      }
      if !a.items {
        Cancel();
        return false;
      }
      ok := main.Take(InputMode.Execute(inputPath.value, inputDatastore.history), a.call);
      Cancel();
    }

    method Cancel()
      requires Valid()
      modifies this
      ensures Valid() && Repr() <= old(Repr())
      ensures Abs() == CancelInput(old(Abs()))
    {
      inputDatastore := null;
      inputPath := None;
    }
  }

  class Interpreter {
    const parser: Parser
    const datastore: ProxyDatastore

    constructor (parser: Parser, datastore: ProxyDatastore)
      ensures this.parser == parser && this.datastore == datastore
    {
      this.parser, this.datastore := parser, datastore;
    }

    ghost predicate Valid()
      reads datastore
    {
      datastore.Valid()
    }

    ghost function Repr(): set<object>
      reads datastore
    {
      {parser} + datastore.Repr()
    }

    ghost function Abs(): (s: State)
      requires Valid()
      reads datastore, Repr()
      ensures Consistent(s)
    {
      datastore.Abs().(cwd := parser.curDir)
    }

    // ---- guards and paths ----

    /** enforceRpcRestrictions for the commands refused while an input is active. */
    method EnforceNoInput() returns (ok: bool)
      requires Valid()
      ensures ok <==> Abs().inputPath.None?
    {
      ok := datastore.inputPath.None?;
    }

    /** enforceRpcRestrictions for the commands that take a path. */
    method EnforceInContext(path: DataPath) returns (ok: bool)
      requires Valid()
      ensures ok <==> !IsOutOfContext(Abs(), path)
    {
      if datastore.inputPath.None? {
        return true;
      }
      var newPath := ComputeRealPath(parser.curDir, path);
      if newPath.None? {
        return false;
      }
      var text := PathToDataString(newPath.value, WhenNeeded);
      return datastore.inputPath.value <= text;
    }

    method CanonicalString(path: DataPath) returns (r: Option<string>)
      requires Valid()
      ensures r.None? == CanonicalPath(Abs().cwd, path).None?
      ensures r.Some? ==> r.value == Printed(CanonicalPath(Abs().cwd, path).value)
    {
      var canonical := ComputeCanonicalPath(parser.curDir, path);
      if canonical.None? {
        return None;
      }
      var text := PathToDataString(canonical.value, WhenNeeded);
      return Some(text);
    }

    // ---- commands ----

    method ExecuteSet(path: DataPath, value: LeafData, a: Answers) returns (ok: bool)
      requires Valid()
      modifies Repr()
      ensures Valid() && Repr() == old(Repr())
      ensures Result(Abs(), ok) == Next(old(Abs()), Step(Set(path, value), a))
    {
      StepOf(Abs(), Set(path, value), a);
      ok := EnforceInContext(path);
      if !ok {
        return;
      }
      var data := Qualify(path, value);
      if data.None? {
        return false;
      }
      var text := CanonicalString(path);
      if text.None? {
        return false;
      }
      ok := datastore.Edit(SetLeaf(text.value, data.value), a.call);
    }

    method ExecuteCreate(path: DataPath, a: Answers) returns (ok: bool)
      requires Valid()
      modifies Repr()
      ensures Valid() && Repr() == old(Repr())
      ensures Result(Abs(), ok) == Next(old(Abs()), Step(Create(path), a))
    {
      StepOf(Abs(), Create(path), a);
      ok := EnforceInContext(path);
      if !ok {
        return;
      }
      var text := CanonicalString(path);
      if text.None? {
        return false;
      }
      ok := datastore.Edit(CreateItem(text.value), a.call);
    }

    method ExecuteDelete(path: DataPath, a: Answers) returns (ok: bool)
      requires Valid()
      modifies Repr()
      ensures Valid() && Repr() == old(Repr())
      ensures Result(Abs(), ok) == Next(old(Abs()), Step(Delete(path), a))
    {
      StepOf(Abs(), Delete(path), a);
      ok := EnforceInContext(path);
      if !ok {
        return;
      }
      var text := CanonicalString(path);
      if text.None? {
        return false;
      }
      ok := datastore.Edit(DeleteItem(text.value), a.call);
    }

    /** The source is printed as it was entered. */
    method ExecuteMove(source: DataPath, destination: Destination, a: Answers) returns (ok: bool)
      requires Valid()
      modifies Repr()
      ensures Valid() && Repr() == old(Repr())
      ensures Result(Abs(), ok) == Next(old(Abs()), Step(Move(source, destination), a))
    {
      StepOf(Abs(), Move(source, destination), a);
      hide Next, DataString, RealPath, CanonicalPath;
      ok := EnforceInContext(source);
      if !ok {
        return;
      }
      var text := PathToDataString(source, WhenNeeded);
      ok := datastore.Edit(MoveItem(text, destination), a.call);
    }

    method ExecuteCd(path: DataPath, a: Answers) returns (ok: bool)
      requires Valid()
      modifies parser
      ensures Valid() && Result(Abs(), ok) == Next(old(Abs()), Step(Cd(path), a))
    {
      ok := EnforceInContext(path);
      if ok {
        ok := parser.ChangeNode(path);
      }
    }

    /** commit, discard and copy. */
    method ExecuteOnMain(command: Command, a: Answers) returns (ok: bool)
      requires Valid() && (command.Commit? || command.Discard? || command.Copy?)
      modifies datastore.main
      ensures Valid() && Result(Abs(), ok) == Next(old(Abs()), Step(command, a))
    {
      ok := EnforceNoInput();
      if ok {
        match command {
          case Commit => ok := datastore.CallMain(CommitChanges, a.call);
          case Discard => ok := datastore.CallMain(DiscardChanges, a.call);
          case Copy(from, to) => ok := datastore.CallMain(CopyConfig(from, to), a.call);
        }
      }
    }

    method ExecuteSwitch(target: Target, a: Answers) returns (ok: bool)
      requires Valid()
      modifies datastore.main
      ensures Valid() && Result(Abs(), ok) == Next(old(Abs()), Step(Switch(target), a))
    {
      ok := EnforceNoInput();
      if ok {
        datastore.SetTarget(target);
      }
    }

    method ExecutePrepare(path: DataPath, a: Answers) returns (ok: bool)
      requires Valid()
      modifies Repr()
      ensures Valid() && fresh(Repr() - old(Repr()))
      ensures Result(Abs(), ok) == Next(old(Abs()), Step(Prepare(path), a))
    {
      ok := EnforceNoInput();
      if !ok {
        return;
      }
      var text := CanonicalString(path);
      if text.None? {
        return false;
      }
      ok := datastore.Initiate(text.value, a);
      if ok {
        ok := parser.ChangeNode(path);
      }
    }

    method ExecuteExec(path: Option<DataPath>, a: Answers) returns (ok: bool)
      requires Valid()
      modifies Repr()
      ensures Valid() && fresh(Repr() - old(Repr()))
      ensures Result(Abs(), ok) == Next(old(Abs()), Step(Exec(path), a))
    {
      StepOf(Abs(), Exec(path), a);
      ok := parser.ChangeNode(ROOT);
      if path.Some? {
        var text := CanonicalString(path.value);
        if text.None? {
          return false;
        }
        ok := datastore.Initiate(text.value, a);
        if !ok {
          return;
        }
      }
      ok := datastore.Execute(a);
      ok := ok && a.shown;
    }

    method ExecuteCancel(a: Answers) returns (ok: bool)
      requires Valid()
      modifies Repr()
      ensures Valid() && Repr() <= old(Repr())
      ensures Result(Abs(), ok) == Next(old(Abs()), Step(Cancel, a))
    {
      ok := parser.ChangeNode(ROOT);
      datastore.Cancel();
    }

    /** The items read are those of the datastore that the path string picks, under the target asked
        for; the old target is back however the command ends. */
    method ExecuteGet(from: Option<GetPath>, dsTarget: Option<Target>, a: Answers)
      returns (ok: bool, seen: Option<(Target, History)>)
      requires Valid()
      modifies datastore.main
      ensures Valid() && Result(Abs(), ok) == Next(old(Abs()), Step(Get(from, dsTarget), a))
      ensures ok ==> seen == Some(GetSees(old(Abs()), GetString(old(Abs()), from).value, dsTarget))
    {
      StepOf(Abs(), Get(from, dsTarget), a);
      hide Next, Printed, RealPath, CanonicalPath, IsOutOfContext, GetString;
      var oldTarget := datastore.main.target;
      seen := None;
      if dsTarget.Some? {
        datastore.SetTarget(dsTarget.value);
      }
      var text := GetPathString(from);
      ok := text.Some? && a.items;
      if ok {
        var picked := datastore.PickDatastore(text.value);
        seen := Some((datastore.main.target, picked.history));
        ok := a.shown;
      }
      datastore.SetTarget(oldTarget);
    }

    method GetPathString(from: Option<GetPath>) returns (r: Option<string>)
      requires Valid()
      ensures r == GetString(Abs(), from)
    {
      match from {
        case None =>
          var text := PathToDataString(parser.curDir, WhenNeeded);
          return Some(text);
        case Some(OfModule(name)) =>
          return Some("/" + name + ":*");
        case Some(OfData(path)) =>
          r := CanonicalString(path);
      }
    }
  }

  ghost function GetSees(s: State, path: string, dsTarget: Option<Target>): (Target, History)
    requires Consistent(s)
  {
    (if dsTarget.Some? then dsTarget.value else s.target,
     if GoesToInput(s, path) then s.inputStore.value else s.main)
  }

  /** get reads the input when its path is inside one, under the wanted target or the one in force. */
  lemma GetSeesThePickedStore(s: State, path: string, dsTarget: Option<Target>)
    requires Consistent(s)
    ensures GetSees(s, path, dsTarget)
         == (match dsTarget case Some(t) => t case None => s.target,
             if s.inputPath.Some? && s.inputPath.value <= path then s.inputStore.value else s.main)
  {
  }
}
