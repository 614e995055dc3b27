/** What an assignment does, said name by name with the names and values spelled out. */
module AssignmentMeaning {
  import opened Optional
  import opened Settings
  import O = OptionMap

  /** The entry of a module; a module not in the list has a new entry. */
  function EntryOf(options: seq<ModuleOption>, name: string): ModuleOption {
    var i := IndexOf(options, name);
    if i < |options| then options[i] else ModuleOption(name, false, "", "", "", "", "", "")
  }

  /** The entry of one module is now this one, and is put at the end if there was none; the entries
      of all other modules are as before. */
  ghost predicate EntryBecomes(
    before: seq<ModuleOption>, after: seq<ModuleOption>, name: string, entry: ModuleOption)
  {
    && O.Names(after) == (if name in O.Names(before) then O.Names(before) else O.Names(before) + [name])
    && EntryOf(after, name) == entry
    && forall other :: other != name ==> EntryOf(after, other) == EntryOf(before, other)
  }

  ghost predicate IsYes(value: string) {
    value == "YES" || value == "yes" || value == "\"YES\"" || value == "\"yes\""
  }

  /** The text that a value stands for: a value between quotes without them, any other as it is. */
  ghost predicate IsText(text: string, value: string) {
    || (value == [] && text == [])
    || (value != [] && value[0] != '"' && text == value)
    || (value == "\"" && text == [])
    || exists last: char :: value == "\"" + text + [last]
  }

  lemma UnquoteIsText(value: string)
    ensures IsText(Unquote(value), value)
  {
    if |value| > 1 && value[0] == '"' {
      var n := |value| - 1;
      assert value == "\"" + Unquote(value) + [value[n]];
    }
  }

  /** A value has one text only. */
  lemma OnlyText(text: string, value: string)
    requires IsText(text, value)
    ensures text == Unquote(value)
  {
    if last: char :| value == "\"" + text + [last] {
      assert value[1..|value| - 1] == text;
    }
  }

  /** The setting of a module: the name before the suffix is the module's. */
  ghost predicate ModuleMeans(before: State, m: string, name: string, value: string, after: State) {
    var entry, options := EntryOf(before.options, m), before.options;
    && (name == m + "_load" ==> EntryBecomes(options, after.options, m, entry.(flag := IsYes(value))))
    && (name == m + "_name" ==>
          exists t :: IsText(t, value) && EntryBecomes(options, after.options, m, entry.(loadname := t)))
    && (name == m + "_type" ==>
          exists t :: IsText(t, value) && EntryBecomes(options, after.options, m, entry.(kind := t)))
    && (name == m + "_flags" ==>
          exists t :: IsText(t, value) && EntryBecomes(options, after.options, m, entry.(args := t)))
    && (name == m + "_before" ==>
          exists t :: IsText(t, value) && EntryBecomes(options, after.options, m, entry.(beforeload := t)))
    && (name == m + "_after" ==>
          exists t :: IsText(t, value) && EntryBecomes(options, after.options, m, entry.(afterload := t)))
    && (name == m + "_error" ==>
          exists t :: IsText(t, value) && EntryBecomes(options, after.options, m, entry.(loaderror := t)))
  }

  ghost predicate NamesField(name: string) {
    exists m: string, suffix: string ::
      m != [] && suffix in {"_load", "_name", "_type", "_flags", "_before", "_after", "_error"} && name == m + suffix
  }

  /** The commands run: one more, and it fails with this exception or not at all. */
  ghost predicate Runs(before: State, command: string, failure: Exception, sys: Interpreter, end: Step) {
    && end.st == before.(commands := before.commands + [command])
    && end.error == if sys.succeeds(before.commands, command) then NoError else failure
  }

  ghost predicate GlobalMeans(before: State, name: string, value: string, sys: Interpreter, end: Step) {
    && (name == "verbose_loading" ==> end == Step(before.(verbose := IsYes(value)), NoError))
    && (name == "nextboot_enable" ==> end == Step(before.(nextboot := IsYes(value)), NoError))
    && (name == "nextboot_conf" ==> exists t :: IsText(t, value) && end == Step(before.(nextbootConf := t), NoError))
    && (name == "exec" ==> exists t :: IsText(t, value) && Runs(before, t, ExecError, sys, end))
    && (name == "loader_conf_files" ==>
          var command := "set loader_conf_files=" + value;
          var ran := before.(commands := before.commands + [command]);
          if sys.succeeds(before.commands, command) then
            end == Step(ran.(confFiles := sys.confFiles(ran.commands)), NoError)
          else
            end == Step(ran, SetError))
    && (name == "" ==> end == Step(before, NoError))
    && (name != "" && !NamesField(name)
        && name !in {"verbose_loading", "nextboot_enable", "nextboot_conf", "exec", "loader_conf_files"} ==>
          Runs(before, "set " + name + "=" + value, SetError, sys, end))
  }

  /** Everything that an assignment does. */
  ghost predicate Means(before: State, name: string, value: string, sys: Interpreter, end: Step) {
    && (forall m :: m != [] ==> ModuleMeans(before, m, name, value, end.st))
    && GlobalMeans(before, name, value, sys, end)
    && (NamesField(name) ==> end == Step(before.(options := end.st.options), NoError))
  }

  lemma PutElsewhere(options: seq<ModuleOption>, name: string, field: Field, value: string, other: string)
    requires name != other
    ensures EntryOf(Put(options, name, field, value), other) == EntryOf(options, other)
  {
    var j := IndexOf(options, other);
    var after := Put(options, name, field, value);
    assert forall k :: 0 <= k < |options| ==> after[k].name == options[k].name;
    if j < |options| {
      IndexIs(after, other, j);
    } else {
      O.IndexPast(after, other);
    }
  }

  /** `Put` changes one field of one entry. */
  lemma PutBecomes(options: seq<ModuleOption>, name: string, field: Field, value: string)
    ensures EntryBecomes(options, Put(options, name, field, value), name, EntryOf(options, name).With(field, value))
  {
    var after := Put(options, name, field, value);
    O.PutNames(options, name, field, value);
    var i := IndexOf(options, name);
    assert forall k :: 0 <= k < i ==> after[k].name == options[k].name;
    IndexIs(after, name, i);
    forall other | other != name ensures EntryOf(after, other) == EntryOf(options, other) {
      PutElsewhere(options, name, field, value, other);
    }
  }

  lemma TestApplies(before: State, name: string, test: Option<Test>, value: string, sys: Interpreter)
    requires name != [] && TestOf(name) == test
    ensures Apply(before, name, value, sys) == ApplyTest(before, test, name, value, sys)
  {}

  lemma SuffixedName(m: string, field: Field)
    requires m != []
    ensures var name := m + field.Suffix(); HasSuffix(name, field.Suffix()) && WithoutSuffix(name, field) == m
  {
    var suffix := field.Suffix();
    assert (m + suffix)[|m|..] == suffix && (m + suffix)[..|m|] == m;
  }

  /** A name with a suffix is that of the module before it. */
  lemma FieldApplies(before: State, m: string, field: Field, value: string, sys: Interpreter)
    requires m != []
    ensures var name := m + field.Suffix();
      Apply(before, name, value, sys) == Step(before.(options := Put(before.options, m, field, value)), NoError)
  {
    hide Apply, TestOf, HasSuffix, WithoutSuffix, Put;
    var name := m + field.Suffix();
    SuffixedName(m, field);
    TestOfIff(name, OfModule(field));
    TestApplies(before, name, Some(OfModule(field)), value, sys);
  }

  lemma ModuleApplies(before: State, m: string, name: string, value: string, sys: Interpreter)
    requires m != []
    ensures ModuleMeans(before, m, name, value, Apply(before, name, value, sys).st)
  {
    hide Apply, Put, EntryBecomes, EntryOf, Unquote, IsText;
    UnquoteIsText(value);
    forall field: Field | name == m + field.Suffix()
      ensures Apply(before, name, value, sys).st.options == Put(before.options, m, field, value)
      ensures EntryBecomes(before.options, Put(before.options, m, field, value), m,
                           EntryOf(before.options, m).With(field, value))
    {
      FieldApplies(before, m, field, value, sys);
      PutBecomes(before.options, m, field, value);
    }
    assert Load.Suffix() == "_load" && LoadName.Suffix() == "_name" && Type.Suffix() == "_type";
    assert Args.Suffix() == "_flags" && BeforeLoad.Suffix() == "_before" && AfterLoad.Suffix() == "_after";
    assert LoadError.Suffix() == "_error";
  }

  lemma FieldNamed(before: State, name: string, value: string, sys: Interpreter)
    requires NamesField(name)
    ensures var end := Apply(before, name, value, sys);
      end == Step(before.(options := end.st.options), NoError)
  {
    hide Apply, Put;
    var m: string, suffix: string :|
      m != [] && suffix in {"_load", "_name", "_type", "_flags", "_before", "_after", "_error"} && name == m + suffix;
    var field :=
      if suffix == "_load" then Load
      else if suffix == "_name" then LoadName
      else if suffix == "_type" then Type
      else if suffix == "_flags" then Args
      else if suffix == "_before" then BeforeLoad
      else if suffix == "_after" then AfterLoad
      else LoadError;
    FieldApplies(before, m, field, value, sys);
  }

  lemma SuffixNames(name: string, field: Field)
    requires HasSuffix(name, field.Suffix())
    ensures NamesField(name)
  {
    var suffix := field.Suffix();
    assert name == name[..|name| - |suffix|] + suffix;
    assert suffix in {"_load", "_name", "_type", "_flags", "_before", "_after", "_error"};
  }

  lemma NoTest(name: string)
    requires !NamesField(name)
    requires name !in {"verbose_loading", "nextboot_enable", "nextboot_conf", "exec", "loader_conf_files"}
    ensures TestOf(name) == None
  {
    match TestOf(name)
    case Some(OfModule(field)) => SuffixNames(name, field);
    case _ =>
  }

  lemma FlagApplies(before: State, value: string, sys: Interpreter)
    ensures Apply(before, "verbose_loading", value, sys) == Step(before.(verbose := IsYes(value)), NoError)
    ensures Apply(before, "nextboot_enable", value, sys) == Step(before.(nextboot := IsYes(value)), NoError)
    ensures Apply(before, "nextboot_conf", value, sys) == Step(before.(nextbootConf := Unquote(value)), NoError)
  {
    hide Apply, TestOf, Unquote;
    TestOfIff("verbose_loading", VerboseFlag);
    TestApplies(before, "verbose_loading", Some(VerboseFlag), value, sys);
    TestOfIff("nextboot_enable", NextbootFlag);
    TestApplies(before, "nextboot_enable", Some(NextbootFlag), value, sys);
    TestOfIff("nextboot_conf", NextbootConf);
    TestApplies(before, "nextboot_conf", Some(NextbootConf), value, sys);
  }

  lemma CommandApplies(before: State, name: string, value: string, sys: Interpreter)
    ensures Runs(before, Unquote(value), ExecError, sys, Apply(before, "exec", value, sys))
    ensures Apply(before, "", value, sys) == Step(before, NoError)
    ensures name != "" && TestOf(name) == None ==>
      Runs(before, "set " + name + "=" + value, SetError, sys, Apply(before, name, value, sys))
  {
    hide TestOf, Unquote;
    TestOfIff("exec", Exec);
  }

  lemma ConfFilesApplies(before: State, value: string, sys: Interpreter)
    ensures var command := "set loader_conf_files=" + value;
      var ran := before.(commands := before.commands + [command]);
      Apply(before, "loader_conf_files", value, sys)
        == if sys.succeeds(before.commands, command) then
             Step(ran.(confFiles := sys.confFiles(ran.commands)), NoError)
           else Step(ran, SetError)
  {
    hide Apply, TestOf;
    TestOfIff("loader_conf_files", ConfFiles);
    TestApplies(before, "loader_conf_files", Some(ConfFiles), value, sys);
    assert "set " + "loader_conf_files" + "=" == "set loader_conf_files=";
  }

  lemma GlobalApplies(before: State, name: string, value: string, sys: Interpreter)
    ensures GlobalMeans(before, name, value, sys, Apply(before, name, value, sys))
  {
    hide Apply, Unquote, IsText, NamesField, TestOf, Runs, IsYes;
    UnquoteIsText(value);
    FlagApplies(before, value, sys);
    ConfFilesApplies(before, value, sys);
    CommandApplies(before, name, value, sys);
    if !NamesField(name)
       && name !in {"verbose_loading", "nextboot_enable", "nextboot_conf", "exec", "loader_conf_files"} {
      NoTest(name);
    }
  }

  /** Every assignment does what its name and its value say. */
  lemma ApplyMeans(before: State, name: string, value: string, sys: Interpreter)
    ensures Means(before, name, value, sys, Apply(before, name, value, sys))
  {
    hide Apply, ModuleMeans, GlobalMeans, NamesField;
    forall m: string | m != [] ensures ModuleMeans(before, m, name, value, Apply(before, name, value, sys).st) {
      ModuleApplies(before, m, name, value, sys);
    }
    GlobalApplies(before, name, value, sys);
    if NamesField(name) {
      FieldNamed(before, name, value, sys);
    }
  }
}
