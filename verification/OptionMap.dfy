/** The list of module options behaves as an ordered map from module and field to content. */
module OptionMap {
  import opened Optional
  import opened Settings

  datatype Change = Change(name: string, field: Field, value: string)

  /** The list after some changes, oldest first. */
  function Fill(options: seq<ModuleOption>, changes: seq<Change>): seq<ModuleOption> {
    if changes == [] then options
    else
      var last := changes[|changes| - 1];
      Put(Fill(options, changes[..|changes| - 1]), last.name, last.field, last.value)
  }

  function Names(options: seq<ModuleOption>): seq<string> {
    seq(|options|, i requires 0 <= i < |options| => options[i].name)
  }

  ghost predicate Distinct(names: seq<string>) {
    forall i, j :: 0 <= i < j < |names| ==> names[i] != names[j]
  }

  /** Names in order of first mention. */
  function FirstMentions(names: seq<string>): (firsts: seq<string>)
    ensures Distinct(firsts)
    ensures forall name :: name in firsts <==> name in names
  {
    if names == [] then []
    else
      var last := names[|names| - 1];
      var firsts := FirstMentions(names[..|names| - 1]);
      assert names == names[..|names| - 1] + [last];
      if last in firsts then firsts else firsts + [last]
  }

  function ChangeNames(changes: seq<Change>): seq<string> {
    seq(|changes|, i requires 0 <= i < |changes| => changes[i].name)
  }

  /** What a field of a module holds; a module not in the list has the content of a new entry. */
  function Lookup(options: seq<ModuleOption>, name: string, field: Field): Content {
    var i := IndexOf(options, name);
    if i < |options| then options[i].Get(field) else Fresh(name).Get(field)
  }

  /** What an assignment of `value` puts into a field. */
  function Meaning(field: Field, value: string): Content {
    if field == Load then Flag(YesValue(value)) else Text(Unquote(value))
  }

  function LastAssigned(changes: seq<Change>, name: string, field: Field): Option<string> {
    if changes == [] then None
    else
      var last := changes[|changes| - 1];
      if last.name == name && last.field == field then Some(last.value)
      else LastAssigned(changes[..|changes| - 1], name, field)
  }

  lemma IndexPast(options: seq<ModuleOption>, name: string)
    requires forall i :: 0 <= i < |options| ==> options[i].name != name
    ensures IndexOf(options, name) == |options|
  {}

  lemma WithGet(option: ModuleOption, field: Field, value: string, field': Field)
    ensures option.With(field, value).Get(field')
         == if field == field' then Meaning(field, value) else option.Get(field')
  {}

  lemma PutLookupThere(options: seq<ModuleOption>, name: string, field: Field, value: string, field': Field)
    ensures Lookup(Put(options, name, field, value), name, field')
         == if field == field' then Meaning(field, value) else Lookup(options, name, field')
  {
    hide Meaning;
    var i := IndexOf(options, name);
    var after := Put(options, name, field, value);
    assert forall k :: 0 <= k < i ==> after[k].name == options[k].name;
    IndexIs(after, name, i);
    WithGet(if i < |options| then options[i] else Fresh(name), field, value, field');
  }

  lemma PutLookupElsewhere(
    options: seq<ModuleOption>, name: string, field: Field, value: string, name': string, field': Field)
    requires name != name'
    ensures Lookup(Put(options, name, field, value), name', field') == Lookup(options, name', field')
  {
    var j := IndexOf(options, name');
    var after := Put(options, name, field, value);
    assert forall k :: 0 <= k < |options| ==> after[k].name == options[k].name;
    if j < |options| {
      IndexIs(after, name', j);
    } else {
      IndexPast(after, name');
    }
  }

  /** One change sets one field of one module and leaves every other content alone. */
  lemma PutLookup(options: seq<ModuleOption>, name: string, field: Field, value: string, name': string, field': Field)
    ensures Lookup(Put(options, name, field, value), name', field')
         == if name == name' && field == field' then Meaning(field, value) else Lookup(options, name', field')
  {
    if name == name' {
      PutLookupThere(options, name, field, value, field');
    } else {
      PutLookupElsewhere(options, name, field, value, name', field');
    }
  }

  lemma PutNames(options: seq<ModuleOption>, name: string, field: Field, value: string)
    ensures Names(Put(options, name, field, value))
         == if name in Names(options) then Names(options) else Names(options) + [name]
  {
    var i := IndexOf(options, name);
    if i < |options| {
      assert Names(options)[i] == name;
    } else {
      IndexPast(options, name);
      assert forall k :: 0 <= k < |options| ==> Names(options)[k] != name;
    }
  }

  /** Order is order of first mention, with no name twice. */
  lemma {:induction false} FillNames(changes: seq<Change>)
    ensures Names(Fill([], changes)) == FirstMentions(ChangeNames(changes))
    ensures Distinct(Names(Fill([], changes)))
  {
    if changes != [] {
      var n := |changes| - 1;
      FillNames(changes[..n]);
      assert ChangeNames(changes)[..n] == ChangeNames(changes[..n]);
      PutNames(Fill([], changes[..n]), changes[n].name, changes[n].field, changes[n].value);
    }
  }

  /** Each field holds the last value assigned to it. */
  lemma {:induction false} FillLookup(changes: seq<Change>, name: string, field: Field)
    ensures Lookup(Fill([], changes), name, field)
         == match LastAssigned(changes, name, field)
            case None => Fresh(name).Get(field)
            case Some(value) => Meaning(field, value)
  {
    if changes != [] {
      var n := |changes| - 1;
      FillLookup(changes[..n], name, field);
      PutLookup(Fill([], changes[..n]), changes[n].name, changes[n].field, changes[n].value, name, field);
    }
  }

  /** The change that an assignment makes to the list, if it makes one. */
  function ChangeOf(pair: Pair): Option<Change> {
    match TestOf(pair.0)
    case Some(OfModule(field)) => Some(Change(WithoutSuffix(pair.0, field), field, pair.1))
    case _ => None
  }

  function Changes(pairs: seq<Pair>): seq<Change> {
    if pairs == [] then []
    else (if ChangeOf(pairs[0]).Some? then [ChangeOf(pairs[0]).value] else []) + Changes(pairs[1..])
  }

  function AfterChange(options: seq<ModuleOption>, change: Option<Change>): seq<ModuleOption> {
    if change.None? then options else Put(options, change.value.name, change.value.field, change.value.value)
  }

  lemma ApplyOptions(st: State, pair: Pair, sys: Interpreter)
    requires pair.0 != []
    ensures Apply(st, pair.0, pair.1, sys).st.options == AfterChange(st.options, ChangeOf(pair))
  {}

  lemma {:induction false} FillFrom(options: seq<ModuleOption>, first: Change, rest: seq<Change>)
    ensures Fill(options, [first] + rest) == Fill(Put(options, first.name, first.field, first.value), rest)
  {
    var all := [first] + rest;
    if rest == [] {
      assert all[..0] == [];
    } else {
      var n := |rest| - 1;
      assert all[..n + 1] == [first] + rest[..n];
      FillFrom(options, first, rest[..n]);
    }
  }

  lemma FillChanges(options: seq<ModuleOption>, pairs: seq<Pair>)
    requires pairs != []
    ensures Fill(options, Changes(pairs)) == Fill(AfterChange(options, ChangeOf(pairs[0])), Changes(pairs[1..]))
  {
    var change, rest := ChangeOf(pairs[0]), Changes(pairs[1..]);
    if change.None? {
      assert Changes(pairs) == rest;
    } else {
      assert Changes(pairs) == [change.value] + rest;
      FillFrom(options, change.value, rest);
    }
  }

  lemma {:induction false} FillAppend(options: seq<ModuleOption>, a: seq<Change>, b: seq<Change>)
    ensures Fill(Fill(options, a), b) == Fill(options, a + b)
  {
    if b == [] {
      assert a + b == a;
    } else {
      var n := |b| - 1;
      assert (a + b)[..|a + b| - 1] == a + b[..n];
      FillAppend(options, a, b[..n]);
    }
  }

  lemma {:induction false} ChangesAppend(a: seq<Pair>, b: seq<Pair>)
    ensures Changes(a + b) == Changes(a) + Changes(b)
  {
    hide ChangeOf;
    if a == [] {
      assert a + b == b;
    } else {
      ChangesAppend(a[1..], b);
      assert (a + b)[1..] == a[1..] + b && (a + b)[0] == a[0];
      var first := if ChangeOf(a[0]).Some? then [ChangeOf(a[0]).value] else [];
      assert first + (Changes(a[1..]) + Changes(b)) == (first + Changes(a[1..])) + Changes(b);
    }
  }

  lemma {:induction false} ChangesNamed(pairs: seq<Pair>)
    ensures forall change :: change in Changes(pairs) ==> change.name != []
  {
    if pairs != [] {
      ChangesNamed(pairs[1..]);
    }
  }

  /** The list is the ordered map that the changes make of an empty one: the modules they
      mention, in order of first mention, each field as last assigned. */
  ghost predicate IsMapOf(options: seq<ModuleOption>, changes: seq<Change>) {
    && Names(options) == FirstMentions(ChangeNames(changes))
    && Distinct(Names(options)) && [] !in Names(options)
    && forall name, field :: Lookup(options, name, field)
         == match LastAssigned(changes, name, field)
            case None => Fresh(name).Get(field)
            case Some(value) => Meaning(field, value)
  }

  lemma FillIsMap(changes: seq<Change>)
    requires forall change :: change in changes ==> change.name != []
    ensures IsMapOf(Fill([], changes), changes)
  {
    hide Fill, Lookup, Names, FirstMentions;
    FillNames(changes);
    assert [] !in ChangeNames(changes);
    forall name, field {
      FillLookup(changes, name, field);
    }
  }

  lemma EmptyIsMap()
    ensures IsMapOf([], [])
  {
    FillIsMap([]);
  }

  lemma SameGets(a: ModuleOption, b: ModuleOption)
    requires a.name == b.name && forall field :: a.Get(field) == b.Get(field)
    ensures a == b
  {
    assert a.Get(Load) == b.Get(Load) && a.Get(LoadName) == b.Get(LoadName) && a.Get(Type) == b.Get(Type);
    assert a.Get(Args) == b.Get(Args) && a.Get(BeforeLoad) == b.Get(BeforeLoad);
    assert a.Get(AfterLoad) == b.Get(AfterLoad) && a.Get(LoadError) == b.Get(LoadError);
  }

  lemma MapNamed(options: seq<ModuleOption>, changes: seq<Change>, change: Change)
    requires IsMapOf(options, changes) && change in changes
    ensures change.name != []
  {
    var i :| 0 <= i < |changes| && changes[i] == change;
    assert ChangeNames(changes)[i] == change.name;
    assert change.name in FirstMentions(ChangeNames(changes));
  }

  /** No other list is that map. */
  lemma OnlyMap(options: seq<ModuleOption>, changes: seq<Change>)
    requires IsMapOf(options, changes)
    ensures options == Fill([], changes)
    ensures forall change :: change in changes ==> change.name != []
  {
    hide Fill, Meaning, LastAssigned;
    forall change | change in changes ensures change.name != [] {
      MapNamed(options, changes, change);
    }
    FillIsMap(changes);
    var other := Fill([], changes);
    assert |Names(options)| == |options| && |Names(other)| == |other|;
    forall i | 0 <= i < |options| ensures options[i] == other[i] {
      var name := Names(options)[i];
      assert options[i].name == name && other[i].name == Names(other)[i] == name;
      assert forall j :: 0 <= j < i ==> options[j].name == Names(options)[j] != name;
      assert forall j :: 0 <= j < i ==> other[j].name == Names(other)[j] != name;
      IndexIs(options, name, i);
      IndexIs(other, name, i);
      forall field ensures options[i].Get(field) == other[i].Get(field) {
        assert Lookup(options, name, field) == Lookup(other, name, field);
      }
      SameGets(options[i], other[i]);
    }
  }

  lemma FillNothing(options: seq<ModuleOption>)
    ensures Fill(options, Changes([])) == options
  {}

  /** Of all that a file assigns, only the module settings reach the list: those of the first
      `n` assignments, which are all of them unless one raises an exception, and then the last
      of the `n` raises it. */
  lemma {:induction false} ApplyAllFills(st: State, pairs: seq<Pair>, sys: Interpreter) returns (n: nat)
    requires forall i :: 0 <= i < |pairs| ==> pairs[i].0 != []
    ensures n <= |pairs| && ApplyAll(st, pairs, sys).st.options == Fill(st.options, Changes(pairs[..n]))
    ensures ApplyAll(st, pairs[..n], sys) == ApplyAll(st, pairs, sys)
    ensures var error := ApplyAll(st, pairs, sys).error;
      if error == NoError then n == |pairs| else 0 < n && ApplyAll(st, pairs[..n - 1], sys).error == NoError
    decreases |pairs|
  {
    hide Apply, ChangeOf, Fill;
    if pairs == [] {
      n := 0;
      FillNothing(st.options);
    } else {
      ApplyOptions(st, pairs[0], sys);
      var step := Apply(st, pairs[0].0, pairs[0].1, sys);
      n := 0;
      if step.error == NoError {
        n := ApplyAllFills(step.st, pairs[1..], sys);
        if n > 0 {
          assert pairs[..n][0] == pairs[0] && pairs[..n][1..] == pairs[1..][..n - 1];
        }
      } else {
        FillNothing(step.st.options);
      }
      n := n + 1;
      assert pairs[..n][0] == pairs[0] && pairs[..n][1..] == pairs[1..][..n - 1];
      FillChanges(st.options, pairs[..n]);
    }
  }

  /** What earlier files have made of the list, any run of assignments, with or without an
      exception, keeps up: the list is the map of all changes made so far. */
  lemma RunKeepsMap(st: State, earlier: seq<Change>, pairs: seq<Pair>, sys: Interpreter) returns (n: nat)
    requires IsMapOf(st.options, earlier)
    requires forall i :: 0 <= i < |pairs| ==> pairs[i].0 != []
    ensures n <= |pairs| && IsMapOf(ApplyAll(st, pairs, sys).st.options, earlier + Changes(pairs[..n]))
    ensures ApplyAll(st, pairs[..n], sys) == ApplyAll(st, pairs, sys)
    ensures var error := ApplyAll(st, pairs, sys).error;
      if error == NoError then n == |pairs| else 0 < n && ApplyAll(st, pairs[..n - 1], sys).error == NoError
  {
    hide ApplyAll, IsMapOf, Fill, Changes;
    OnlyMap(st.options, earlier);
    n := ApplyAllFills(st, pairs, sys);
    FillAppend([], earlier, Changes(pairs[..n]));
    ChangesNamed(pairs[..n]);
    FillIsMap(earlier + Changes(pairs[..n]));
  }
}
