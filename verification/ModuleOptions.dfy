/** The loader's settings in memory: the linked list of module options and the
    globals that assignments of a configuration file change. */
module ModuleOptions {
  import opened Optional
  import opened Settings
  import opened Buffers
  import A = AssignmentMeaning

  class Module {
    var flag: bool
    var name: string
    var loadname: string
    var kind: string
    var args: string
    var beforeload: string
    var afterload: string
    var loaderror: string
    var next: Module?

    constructor (name: string)
      ensures Value() == Fresh(name) && next == null
    {
      flag, this.name := false, name;
      loadname, kind, args, beforeload, afterload, loaderror := "", "", "", "", "", "";
      next := null;
    }

    method SetField(field: Field, value: string)
      modifies `flag, `loadname, `kind, `args, `beforeload, `afterload, `loaderror
      ensures Value() == old(Value()).With(field, value)
    {
      match field
      case Load => flag := YesValue(value);
      case LoadName => loadname := Unquote(value);
      case Type => kind := Unquote(value);
      case Args => args := Unquote(value);
      case BeforeLoad => beforeload := Unquote(value);
      case AfterLoad => afterload := Unquote(value);
      case LoadError => loaderror := Unquote(value);
    }

    function Value(): ModuleOption
      reads this
    {
      ModuleOption(name, flag, loadname, kind, args, beforeload, afterload, loaderror)
    }
  }

  /** Value of a command that sets an environment variable, built piece by piece in a
      buffer of exactly the size allocated for it. */
  method BuildSetCommand(name: string, value: string) returns (command: string)
    ensures command == SetCommand(name, value)
  {
    var buffer := new char[|name| + |value| + 5];
    var len := Strcat(buffer, 0, "set ");
    len := Strcat(buffer, len, name);
    len := Strcat(buffer, len, "=");
    len := Strcat(buffer, len, value);
    command := buffer[..len];
  }

  ghost function Next(nodes: seq<Module>, i: nat): Module? {
    if i + 1 < |nodes| then nodes[i + 1] else null
  }

  /** Each node leads to the one after it, and they hold the options in order. */
  ghost predicate Chained(nodes: seq<Module>, options: seq<ModuleOption>)
    requires |nodes| == |options|
    reads nodes
  {
    && (forall i, j :: 0 <= i < j < |nodes| ==> nodes[i] != nodes[j])
    && (forall i {:trigger Next(nodes, i)} :: 0 <= i < |nodes| ==> nodes[i].next == Next(nodes, i))
    && (forall i :: 0 <= i < |nodes| ==> nodes[i].Value() == options[i])
  }

  lemma ChainedOne(node: Module)
    requires node.next == null
    ensures Chained([node], [node.Value()])
  {}

  method LinkAfter(last: Module, node: Module, ghost nodes: seq<Module>, ghost options: seq<ModuleOption>)
    requires |nodes| == |options| && Chained(nodes, options) && nodes != [] && nodes[|nodes| - 1] == last
    requires node !in nodes && node.next == null
    modifies last`next
    ensures Chained(nodes + [node], options + [node.Value()]) && node.Value() == old(node.Value())
  {
    last.next := node;
    assert forall i {:trigger Next(nodes + [node], i)} ::
      0 <= i < |nodes| - 1 ==> Next(nodes + [node], i) == Next(nodes, i);
  }

  method SetFieldAt(node: Module, field: Field, value: string,
                    ghost nodes: seq<Module>, ghost options: seq<ModuleOption>, ghost i: nat)
    requires i < |nodes| == |options| && node == nodes[i] && Chained(nodes, options)
    modifies node
    ensures Chained(nodes, options[i := options[i].With(field, value)])
  {
    node.SetField(field, value);
  }

  class LoaderSettings {
    var moduleOptions: Module?
    var lastModuleOption: Module?
    var verbose: bool
    var nextboot: bool
    var nextbootConfFile: string
    var confFiles: string
    var commands: seq<string>
    /** The assignments handed over so far. */
    ghost var handed: seq<Pair>
    ghost var nodes: seq<Module>
    ghost var options: seq<ModuleOption>
    ghost var Repr: set<object>

    /** `nodes` is the chain from `moduleOptions` on, `options` what its entries hold. */
    ghost predicate Valid()
      reads this, Repr
      ensures Valid() ==> this in Repr
    {
      && this in Repr && (forall i :: 0 <= i < |nodes| ==> nodes[i] in Repr)
      && moduleOptions == (if nodes == [] then null else nodes[0])
      && lastModuleOption == (if nodes == [] then null else nodes[|nodes| - 1])
      && |nodes| == |options| && Chained(nodes, options)
    }

    ghost function Snapshot(): State
      reads this
    {
      State(options, verbose, nextboot, nextbootConfFile, confFiles, commands)
    }

    constructor ()
      ensures Valid() && fresh(Repr) && nodes == [] && handed == []
      ensures Snapshot() == State([], false, false, "", "", [])
    {
      moduleOptions, lastModuleOption := null, null;
      verbose, nextboot := false, false;
      nextbootConfFile, confFiles, commands := "", "", [];
      nodes, options, handed := [], [], [];
      Repr := {this};
    }

    method AppendToModuleOptionsList(node: Module)
      requires Valid() && node !in nodes && node.next == null
      modifies `moduleOptions, `lastModuleOption, `nodes, `options, `Repr,
        if nodes == [] then {} else {lastModuleOption}
      ensures Valid() && nodes == old(nodes) + [node] && Repr == old(Repr) + {node}
      ensures options == old(options) + [node.Value()]
    {
      hide Chained;
      if moduleOptions == null {
        moduleOptions := node;
        lastModuleOption := node;
        ChainedOne(node);
        assert [node] == nodes + [node] && [node.Value()] == options + [node.Value()];
      } else {
        LinkAfter(lastModuleOption, node, nodes, options);
        lastModuleOption := node;
      }
      nodes, options, Repr := nodes + [node], options + [node.Value()], Repr + {node};
    }

    method FindModuleOption(name: string) returns (node: Module?)
      requires Valid()
      ensures node == null <==> IndexOf(options, name) == |nodes|
      ensures node != null ==> node == nodes[IndexOf(options, name)]
    {
      node := moduleOptions;
      ghost var i := 0;
      while node != null
        invariant 0 <= i <= |nodes|
        invariant node == if i < |nodes| then nodes[i] else null
        invariant forall j :: 0 <= j < i ==> options[j].name != name
        decreases |nodes| - i
      {
        if node.name == name {
          IndexIs(options, name, i);
          return;
        }
        assert node.next == Next(nodes, i);
        node := node.next;
        i := i + 1;
      }
    }

    /** The entry called `name`, put at the end of the list if there was none. */
    method GetModuleOption(name: string) returns (node: Module)
      requires Valid()
      modifies `moduleOptions, `lastModuleOption, `nodes, `options, `Repr,
        if nodes == [] then {} else {lastModuleOption}
      ensures Valid() && fresh(Repr - old(Repr))
      ensures nodes == old(nodes) || (nodes == old(nodes) + [node] && fresh(node))
      ensures options == Mention(old(options), name)
      ensures IndexOf(old(options), name) < |nodes| && node == nodes[IndexOf(old(options), name)]
    {
      var found := FindModuleOption(name);
      if found != null {
        node := found;
      } else {
        node := new Module(name);
        AppendToModuleOptionsList(node);
      }
    }

    method StoreField(node: Module, field: Field, value: string, ghost i: nat)
      requires Valid() && i < |nodes| && node == nodes[i]
      modifies `options, node
      ensures Valid() && options == old(options)[i := old(options)[i].With(field, value)]
    {
      hide Chained;
      SetFieldAt(node, field, value, nodes, options, i);
      options := options[i := options[i].With(field, value)];
    }

    method SetModuleField(name: string, field: Field, value: string)
      requires Valid()
      modifies `moduleOptions, `lastModuleOption, `nodes, `options, `Repr, nodes
      ensures Valid() && fresh(Repr - old(Repr))
      ensures options == Put(old(options), name, field, value)
    {
      var node := GetModuleOption(name);
      StoreField(node, field, value, IndexOf(old(options), name));
    }

    method Evaluate(command: string, sys: Interpreter) returns (ok: bool)
      modifies `commands
      ensures commands == old(commands) + [command]
      ensures ok == sys.succeeds(old(commands), command)
    {
      ok := sys.succeeds(commands, command);
      commands := commands + [command];
    }

    method SetEnvironmentVariable(name: string, value: string, sys: Interpreter) returns (error: Exception)
      modifies `commands
      ensures commands == old(commands) + [SetCommand(name, value)]
      ensures error == if sys.succeeds(old(commands), SetCommand(name, value)) then NoError else SetError
    {
      var command := BuildSetCommand(name, value);
      var ok := Evaluate(command, sys);
      error := if ok then NoError else SetError;
    }

    method SetConfFiles(name: string, value: string, sys: Interpreter) returns (error: Exception)
      requires ConfFiles.Matches(name)
      modifies `commands, `confFiles
      ensures ApplyTest(old(Snapshot()), Some(ConfFiles), name, value, sys) == Step(Snapshot(), error)
    {
      error := SetEnvironmentVariable(name, value, sys);
      if error == NoError {
        confFiles := sys.confFiles(commands);
      }
    }

    method ExecuteCommand(value: string, sys: Interpreter) returns (error: Exception)
      modifies `commands
      ensures commands == old(commands) + [Unquote(value)]
      ensures error == if sys.succeeds(old(commands), Unquote(value)) then NoError else ExecError
    {
      var ok := Evaluate(Unquote(value), sys);
      error := if ok then NoError else ExecError;
    }

    method NameConfFiles(list: string)
      requires Valid()
      modifies `confFiles
      ensures Valid() && Snapshot() == old(Snapshot()).(confFiles := list)
    {
      confFiles := list;
    }

    /** Takes the list of files to load and leaves none. */
    method GetConfFiles() returns (list: string)
      requires Valid()
      modifies `confFiles
      ensures Valid() && list == old(confFiles) && Snapshot() == old(Snapshot()).(confFiles := "")
    {
      list := confFiles;
      confFiles := "";
    }

    method SetNextbootFlag(value: string)
      modifies `nextboot
      ensures nextboot == YesValue(value)
    {
      nextboot := YesValue(value);
    }

    method SetNextbootConf(value: string)
      modifies `nextbootConfFile
      ensures nextbootConfFile == Unquote(value)
    {
      nextbootConfFile := Unquote(value);
    }

    method SetVerbose(value: string)
      modifies `verbose
      ensures verbose == YesValue(value)
    {
      verbose := YesValue(value);
    }

    /** The tests that set a global or run a command. */
    method SetGlobal(test: Test, name: string, value: string, sys: Interpreter) returns (error: Exception)
      requires test.Matches(name) && !test.OfModule?
      modifies `nextboot, `nextbootConfFile, `verbose, `commands, `confFiles
      ensures ApplyTest(old(Snapshot()), Some(test), name, value, sys) == Step(Snapshot(), error)
      ensures error != ReadError
    {
      hide Unquote, YesValue, SetCommand;
      error := NoError;
      match test
      case ConfFiles => error := SetConfFiles(name, value, sys);
      case NextbootFlag => SetNextbootFlag(value);
      case NextbootConf => SetNextbootConf(value);
      case VerboseFlag => SetVerbose(value);
      case Exec => error := ExecuteCommand(value, sys);
    }

    /** The same, seen to leave the list alone. */
    method SetGlobalValid(test: Test, name: string, value: string, sys: Interpreter) returns (error: Exception)
      requires Valid() && test.Matches(name) && !test.OfModule?
      modifies `nextboot, `nextbootConfFile, `verbose, `commands, `confFiles
      ensures Valid()
      ensures ApplyTest(old(Snapshot()), Some(test), name, value, sys) == Step(Snapshot(), error)
      ensures error != ReadError
    {
      hide ApplyTest;
      error := SetGlobal(test, name, value, sys);
    }

    method Dispatch(test: Option<Test>, name: string, value: string, sys: Interpreter) returns (error: Exception)
      requires Valid() && (test.Some? ==> test.value.Matches(name))
      modifies Repr
      ensures Valid() && fresh(Repr - old(Repr)) && handed == old(handed)
      ensures ApplyTest(old(Snapshot()), test, name, value, sys) == Step(Snapshot(), error)
      ensures error != ReadError
    {
      hide Put, SetCommand, HasSuffix;
      error := NoError;
      match test
      case Some(OfModule(field)) => SetModuleField(WithoutSuffix(name, field), field, value);
      case Some(_) => error := SetGlobalValid(test.value, name, value, sys);
      case None => error := SetEnvironmentVariable(name, value, sys);
    }

    method ProcessAssignment(name: string, value: string, sys: Interpreter) returns (error: Exception)
      requires Valid()
      modifies Repr
      ensures Valid() && fresh(Repr - old(Repr))
      ensures handed == old(handed) + if name == [] then [] else [(name, value)]
      ensures Apply(old(Snapshot()), name, value, sys) == Step(Snapshot(), error)
      ensures A.Means(old(Snapshot()), name, value, sys, Step(Snapshot(), error))
      ensures error != ReadError
    {
      hide Apply, ApplyTest, TestOf, A.Means, Chained;
      A.ApplyMeans(Snapshot(), name, value, sys);
      ApplyStep(Snapshot(), name, value, sys);
      if name == [] {
        return NoError;
      }
      handed := handed + [(name, value)];
      error := Dispatch(TestOf(name), name, value, sys);
    }
  }
}
