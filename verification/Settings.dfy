/** What an assignment of a configuration file does: which test its name meets, and
    how the loader's settings change. */
module Settings {
  import opened Optional

  datatype Exception = NoError | SyntaxError | ReadError | OpenError | SetError | ExecError

  datatype Field = Load | LoadName | Type | Args | BeforeLoad | AfterLoad | LoadError
  {
    function Suffix(): string {
      match this
      case Load => "_load"
      case LoadName => "_name"
      case Type => "_type"
      case Args => "_flags"
      case BeforeLoad => "_before"
      case AfterLoad => "_after"
      case LoadError => "_error"
    }
  }

  predicate HasSuffix(name: string, suffix: string) {
    |suffix| < |name| && name[|name| - |suffix|..] == suffix
  }

  /** The tests on an assignment's name. */
  datatype Test = ConfFiles | NextbootFlag | NextbootConf | VerboseFlag | Exec | OfModule(field: Field)
  {
    predicate Matches(name: string) {
      match this
      case ConfFiles => name == "loader_conf_files"
      case NextbootFlag => name == "nextboot_enable"
      case NextbootConf => name == "nextboot_conf"
      case VerboseFlag => name == "verbose_loading"
      case Exec => name == "exec"
      case OfModule(field) => HasSuffix(name, field.Suffix())
    }
  }

  function WithoutSuffix(name: string, field: Field): string
    requires HasSuffix(name, field.Suffix())
  {
    name[..|name| - |field.Suffix()|]
  }

  /** The last three letters of every name that meets the test. */
  function Ending(t: Test): string {
    match t
    case ConfFiles => "les"
    case NextbootFlag => "ble"
    case NextbootConf => "onf"
    case VerboseFlag => "ing"
    case Exec => "xec"
    case OfModule(Load) => "oad"
    case OfModule(LoadName) => "ame"
    case OfModule(Type) => "ype"
    case OfModule(Args) => "ags"
    case OfModule(BeforeLoad) => "ore"
    case OfModule(AfterLoad) => "ter"
    case OfModule(LoadError) => "ror"
  }

  lemma SuffixFixesEnding(name: string, suffix: string)
    requires HasSuffix(name, suffix) && 3 <= |suffix|
    ensures name[|name| - 3..] == suffix[|suffix| - 3..]
  {
    assert suffix == name[|name| - |suffix|..];
  }

  lemma FieldEnding(field: Field)
    ensures var suffix := field.Suffix();
      3 <= |suffix| && suffix[|suffix| - 3..] == Ending(OfModule(field))
  {}

  lemma ExactEnding(name: string, t: Test)
    requires t.Matches(name) && !t.OfModule?
    ensures 3 <= |name| && name[|name| - 3..] == Ending(t)
  {}

  lemma MatchFixesEnding(name: string, t: Test)
    requires t.Matches(name)
    ensures 3 <= |name| && name[|name| - 3..] == Ending(t)
  {
    match t
    case OfModule(field) =>
      FieldEnding(field);
      SuffixFixesEnding(name, field.Suffix());
    case _ =>
      ExactEnding(name, t);
  }

  lemma EndingsDiffer(s: Test, t: Test)
    requires Ending(s) == Ending(t)
    ensures s == t
  {
    assert Ending(s)[0] == Ending(t)[0] && Ending(s)[1] == Ending(t)[1];
  }

  /** The tests are exclusive, so the order in which they are tried does not matter. */
  lemma AtMostOneTest(name: string, s: Test, t: Test)
    requires s.Matches(name) && t.Matches(name)
    ensures s == t
  {
    MatchFixesEnding(name, s);
    MatchFixesEnding(name, t);
    EndingsDiffer(s, t);
  }

  /** The loader drops the first and the last character of a value that starts with a quote. */
  function Unquote(value: string): string {
    if value == [] || value[0] != '"' then value
    else if |value| == 1 then []
    else value[1..|value| - 1]
  }

  predicate YesValue(value: string) { value in ["\"YES\"", "\"yes\"", "YES", "yes"] }

  datatype Content = Flag(on: bool) | Text(text: string)

  /** One entry of the list of module options. */
  datatype ModuleOption = ModuleOption(
    name: string, flag: bool, loadname: string, kind: string, args: string,
    beforeload: string, afterload: string, loaderror: string)
  {
    function With(field: Field, value: string): (r: ModuleOption)
      ensures r.name == name
    {
      match field
      case Load => this.(flag := YesValue(value))
      case LoadName => this.(loadname := Unquote(value))
      case Type => this.(kind := Unquote(value))
      case Args => this.(args := Unquote(value))
      case BeforeLoad => this.(beforeload := Unquote(value))
      case AfterLoad => this.(afterload := Unquote(value))
      case LoadError => this.(loaderror := Unquote(value))
    }

    /** The raw content of a field. */
    function Get(field: Field): Content {
      match field
      case Load => Flag(flag)
      case LoadName => Text(loadname)
      case Type => Text(kind)
      case Args => Text(args)
      case BeforeLoad => Text(beforeload)
      case AfterLoad => Text(afterload)
      case LoadError => Text(loaderror)
    }
  }

  function Fresh(name: string): ModuleOption {
    ModuleOption(name, false, "", "", "", "", "", "")
  }

  /** Position of the entry called `name`, or the length of the list. */
  function IndexOf(options: seq<ModuleOption>, name: string): (i: nat)
    ensures i <= |options|
    ensures forall j :: 0 <= j < i ==> options[j].name != name
    ensures i < |options| ==> options[i].name == name
  {
    if options == [] || options[0].name == name then 0 else 1 + IndexOf(options[1..], name)
  }

  function Mention(options: seq<ModuleOption>, name: string): seq<ModuleOption> {
    if IndexOf(options, name) < |options| then options else options + [Fresh(name)]
  }

  lemma IndexIs(options: seq<ModuleOption>, name: string, i: nat)
    requires i < |options| && options[i].name == name
    requires forall j :: 0 <= j < i ==> options[j].name != name
    ensures IndexOf(options, name) == i
  {}

  lemma MentionFinds(options: seq<ModuleOption>, name: string)
    ensures IndexOf(Mention(options, name), name) == IndexOf(options, name) < |Mention(options, name)|
  {
    IndexIs(Mention(options, name), name, IndexOf(options, name));
  }

  function Put(options: seq<ModuleOption>, name: string, field: Field, value: string): seq<ModuleOption> {
    var listed := Mention(options, name);
    MentionFinds(options, name);
    var i := IndexOf(options, name);
    listed[i := listed[i].With(field, value)]
  }

  datatype State = State(
    options: seq<ModuleOption>, verbose: bool, nextboot: bool,
    nextbootConf: string, confFiles: string, commands: seq<string>)

  /** The command interpreter: whether a command succeeds after those already run, and the
      value it leaves in `loader_conf_files`. */
  datatype Interpreter = Interpreter(succeeds: (seq<string>, string) -> bool, confFiles: seq<string> -> string)

  function Evaluate(st: State, command: string): State { st.(commands := st.commands + [command]) }

  function SetCommand(name: string, value: string): string { "set " + name + "=" + value }

  datatype Step = Step(st: State, error: Exception)

  function FieldOf(name: string): Option<Field> {
    if HasSuffix(name, Load.Suffix()) then Some(Load)
    else if HasSuffix(name, LoadName.Suffix()) then Some(LoadName)
    else if HasSuffix(name, Type.Suffix()) then Some(Type)
    else if HasSuffix(name, Args.Suffix()) then Some(Args)
    else if HasSuffix(name, BeforeLoad.Suffix()) then Some(BeforeLoad)
    else if HasSuffix(name, AfterLoad.Suffix()) then Some(AfterLoad)
    else if HasSuffix(name, LoadError.Suffix()) then Some(LoadError)
    else None
  }

  /** The test that a name meets, tried in the loader's order. */
  function TestOf(name: string): (test: Option<Test>)
    ensures test.Some? ==> test.value.Matches(name)
  {
    if ConfFiles.Matches(name) then Some(ConfFiles)
    else if NextbootFlag.Matches(name) then Some(NextbootFlag)
    else if NextbootConf.Matches(name) then Some(NextbootConf)
    else if VerboseFlag.Matches(name) then Some(VerboseFlag)
    else if Exec.Matches(name) then Some(Exec)
    else
      match FieldOf(name)
      case Some(field) => Some(OfModule(field))
      case None => None
  }

  lemma FieldOfNone(name: string, field: Field)
    requires HasSuffix(name, field.Suffix())
    ensures FieldOf(name).Some?
  {
    hide HasSuffix;
  }

  lemma TestOfIff(name: string, t: Test)
    ensures TestOf(name) == Some(t) <==> t.Matches(name)
  {
    hide HasSuffix, FieldOf;
    if t.Matches(name) {
      if t.OfModule? {
        FieldOfNone(name, t.field);
      }
      AtMostOneTest(name, t, TestOf(name).value);
    }
  }

  function ApplyTest(st: State, test: Option<Test>, name: string, value: string, sys: Interpreter): (step: Step)
    requires test.Some? ==> test.value.Matches(name)
    ensures step.error in {NoError, SetError, ExecError}
  {
    match test
    case Some(ConfFiles) =>
      var command := SetCommand(name, value);
      var ran := Evaluate(st, command);
      if !sys.succeeds(st.commands, command) then Step(ran, SetError)
      else Step(ran.(confFiles := sys.confFiles(ran.commands)), NoError)
    case Some(NextbootFlag) => Step(st.(nextboot := YesValue(value)), NoError)
    case Some(NextbootConf) => Step(st.(nextbootConf := Unquote(value)), NoError)
    case Some(VerboseFlag) => Step(st.(verbose := YesValue(value)), NoError)
    case Some(Exec) =>
      var command := Unquote(value);
      Step(Evaluate(st, command), if sys.succeeds(st.commands, command) then NoError else ExecError)
    case Some(OfModule(field)) =>
      Step(st.(options := Put(st.options, WithoutSuffix(name, field), field, value)), NoError)
    case None =>
      var command := SetCommand(name, value);
      Step(Evaluate(st, command), if sys.succeeds(st.commands, command) then NoError else SetError)
  }

  /** `process_assignment` on values. */
  function Apply(st: State, name: string, value: string, sys: Interpreter): (step: Step)
    ensures step.error in {NoError, SetError, ExecError}
  {
    if name == [] then Step(st, NoError) else ApplyTest(st, TestOf(name), name, value, sys)
  }

  lemma ApplyStep(st: State, name: string, value: string, sys: Interpreter)
    ensures Apply(st, name, value, sys)
         == if name == [] then Step(st, NoError) else ApplyTest(st, TestOf(name), name, value, sys)
  {}

  type Pair = (string, string)

  /** Assignments in turn, up to the first exception. */
  function ApplyAll(st: State, pairs: seq<Pair>, sys: Interpreter): Step
    decreases |pairs|
  {
    if pairs == [] then Step(st, NoError)
    else
      var step := Apply(st, pairs[0].0, pairs[0].1, sys);
      if step.error != NoError then step else ApplyAll(step.st, pairs[1..], sys)
  }

  lemma {:induction false} ApplyAllAppend(st: State, a: seq<Pair>, b: seq<Pair>, sys: Interpreter)
    ensures var first := ApplyAll(st, a, sys);
      ApplyAll(st, a + b, sys) == if first.error != NoError then first else ApplyAll(first.st, b, sys)
    decreases |a|
  {
    hide Apply;
    if a == [] {
      assert a + b == b;
    } else {
      assert (a + b)[1..] == a[1..] + b;
      ApplyAllAppend(Apply(st, a[0].0, a[0].1, sys).st, a[1..], b, sys);
    }
  }
}
