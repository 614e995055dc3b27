/** What a configuration file means: its lines read one after the other, and the
    round trip from a list of settings through a file and back. */
module ConfFile {
  import opened Lines
  import opened Splitting
  import opened Grammar
  import opened Settings
  import P = LineParser
  import O = OptionMap

  /** One line. `beyond` is the character in memory just after it. */
  function LineStep(line: string, beyond: char, st: State, sys: Interpreter): (step: Step)
    ensures step.error in {NoError, SyntaxError, SetError, ExecError}
  {
    match P.ParseLine(line, beyond)
    case SyntaxError => Step(st, SyntaxError)
    case Blank => Step(st, NoError)
    case Assignment(name, value) => Apply(st, name, value, sys)
  }

  /** Lines in turn up to the first exception. `heap(k)` is the character in memory just
      after the k-th line. */
  function Conf(lines: seq<string>, heap: nat -> char, k: nat, st: State, sys: Interpreter): (step: Step)
    ensures step.error in {NoError, SyntaxError, SetError, ExecError}
    decreases |lines|
  {
    if lines == [] then Step(st, NoError)
    else
      var step := LineStep(lines[0], heap(k), st, sys);
      if step.error != NoError then step else Conf(lines[1..], heap, k + 1, step.st, sys)
  }

  lemma {:induction false} ConfAppend(
    a: seq<string>, b: seq<string>, heap: nat -> char, k: nat, st: State, sys: Interpreter)
    ensures var first := Conf(a, heap, k, st, sys);
      Conf(a + b, heap, k, st, sys)
        == if first.error != NoError then first else Conf(b, heap, k + |a|, first.st, sys)
    decreases |a|
  {
    hide LineStep;
    if a == [] {
      assert a + b == b;
    } else {
      assert (a + b)[1..] == a[1..] + b;
      ConfAppend(a[1..], b, heap, k + 1, LineStep(a[0], heap(k), st, sys).st, sys);
    }
  }

  function Assigned(outcome: P.Outcome): (pairs: seq<Pair>)
    ensures |pairs| <= 1
  {
    match outcome
    case Assignment(name, value) => [(name, value)]
    case _ => []
  }

  lemma LineStepIs(line: string, beyond: char, st: State, sys: Interpreter, name: string, value: string)
    ensures P.Read(name, value) == P.ParseLine(line, beyond) ==>
      && LineStep(line, beyond, st, sys) == Apply(st, name, value, sys)
      && Assigned(P.ParseLine(line, beyond)) == if name == [] then [] else [(name, value)]
  {}

  /** The assignments that lines make. */
  function Assignments(lines: seq<string>, heap: nat -> char, k: nat): seq<Pair>
    decreases |lines|
  {
    if lines == [] then [] else Assigned(P.ParseLine(lines[0], heap(k))) + Assignments(lines[1..], heap, k + 1)
  }

  lemma {:induction false} AssignmentsAppend(lines: seq<string>, line: string, heap: nat -> char, k: nat)
    ensures Assignments(lines + [line], heap, k)
         == Assignments(lines, heap, k) + Assigned(P.ParseLine(line, heap(k + |lines|)))
    decreases |lines|
  {
    hide Assigned, P.ParseLine;
    if lines == [] {
      assert Assignments([], heap, k + 1) == [] && ([] + [line])[1..] == [];
    } else {
      assert (lines + [line])[1..] == lines[1..] + [line];
      AssignmentsAppend(lines[1..], line, heap, k + 1);
    }
  }

  lemma {:induction false} AssignmentsPrefix(lines: seq<string>, n: nat, heap: nat -> char, k: nat)
    requires n <= |lines|
    ensures Assignments(lines[..n], heap, k) <= Assignments(lines, heap, k)
    ensures n == |lines| ==> Assignments(lines[..n], heap, k) == Assignments(lines, heap, k)
    decreases |lines|
  {
    hide Assigned, P.ParseLine;
    if n == 0 {
      assert lines[..n] == [];
    } else {
      assert lines[..n][0] == lines[0] && lines[..n][1..] == lines[1..][..n - 1];
      AssignmentsPrefix(lines[1..], n - 1, heap, k + 1);
    }
  }

  predicate Parses(lines: seq<string>, heap: nat -> char, k: nat)
    decreases |lines|
  {
    lines != [] ==> P.ParseLine(lines[0], heap(k)) != P.SyntaxError && Parses(lines[1..], heap, k + 1)
  }

  lemma LineIsApplyAll(line: string, beyond: char, st: State, sys: Interpreter)
    ensures var outcome := P.ParseLine(line, beyond);
      && LineStep(line, beyond, st, sys)
           == (if outcome == P.SyntaxError then Step(st, SyntaxError) else ApplyAll(st, Assigned(outcome), sys))
      && forall i :: 0 <= i < |Assigned(outcome)| ==> Assigned(outcome)[i].0 != []
  {
    hide Apply, P.ParseLine;
    if P.ParseLine(line, beyond).Assignment? {
      P.AssignmentShape(line, beyond);
    }
  }

  /** Processing a file without syntax errors is applying its assignments in order, and each
      of them has a name. */
  lemma {:induction false} ConfIsApplyAll(
    lines: seq<string>, heap: nat -> char, k: nat, st: State, sys: Interpreter)
    ensures Parses(lines, heap, k) ==>
      Conf(lines, heap, k, st, sys) == ApplyAll(st, Assignments(lines, heap, k), sys)
    ensures Conf(lines, heap, k, st, sys).error == NoError ==> Parses(lines, heap, k)
    ensures forall i :: 0 <= i < |Assignments(lines, heap, k)| ==> Assignments(lines, heap, k)[i].0 != []
    decreases |lines|
  {
    hide Apply, LineStep, P.ParseLine, Assigned;
    if lines != [] {
      var beyond, rest := heap(k), lines[1..];
      LineIsApplyAll(lines[0], beyond, st, sys);
      ConfIsApplyAll(rest, heap, k + 1, LineStep(lines[0], beyond, st, sys).st, sys);
      ApplyAllAppend(st, Assigned(P.ParseLine(lines[0], beyond)), Assignments(rest, heap, k + 1), sys);
    }
  }

  lemma LineFills(line: string, beyond: char, st: State, sys: Interpreter)
    ensures LineStep(line, beyond, st, sys).st.options
         == O.Fill(st.options, O.Changes(Assigned(P.ParseLine(line, beyond))))
  {
    hide Apply, P.ParseLine, O.ChangeOf, O.Fill;
    O.FillNothing(st.options);
    match P.ParseLine(line, beyond)
    case Assignment(name, value) =>
      P.AssignmentShape(line, beyond);
      O.ApplyOptions(st, (name, value), sys);
      O.FillChanges(st.options, [(name, value)]);
      O.FillNothing(O.AfterChange(st.options, O.ChangeOf((name, value))));
    case _ =>
  }

  /** The module settings of the first `n` lines reach the list: of all lines, or of those up
      to the one that raises an exception. */
  lemma {:induction false} ConfFills(
    lines: seq<string>, heap: nat -> char, k: nat, st: State, sys: Interpreter) returns (n: nat)
    ensures n <= |lines| && Conf(lines[..n], heap, k, st, sys) == Conf(lines, heap, k, st, sys)
    ensures Conf(lines, heap, k, st, sys).st.options
         == O.Fill(st.options, O.Changes(Assignments(lines[..n], heap, k)))
    ensures if Conf(lines, heap, k, st, sys).error == NoError then n == |lines|
            else 0 < n && Conf(lines[..n - 1], heap, k, st, sys).error == NoError
    decreases |lines|
  {
    hide LineStep, P.ParseLine, Assigned, O.Changes, O.Fill;
    n := 0;
    if lines == [] {
      O.FillNothing(st.options);
    } else {
      var step := LineStep(lines[0], heap(k), st, sys);
      LineFills(lines[0], heap(k), st, sys);
      O.FillNothing(step.st.options);
      if step.error == NoError {
        n := ConfFills(lines[1..], heap, k + 1, step.st, sys);
        if n > 0 {
          assert lines[..n] == [lines[0]] + lines[1..][..n - 1];
        }
      }
      var first, rest := Assigned(P.ParseLine(lines[0], heap(k))), Assignments(lines[1..][..n], heap, k + 1);
      n := n + 1;
      assert lines[..n] == [lines[0]] + lines[1..][..n - 1];
      O.ChangesAppend(first, rest);
      O.FillAppend(st.options, O.Changes(first), O.Changes(rest));
    }
  }

  /** Any file, from whatever earlier files have left on, and with or without an exception,
      leaves the map of all changes made so far: those of its first `n` lines come last. */
  lemma ConfKeepsMap(lines: seq<string>, heap: nat -> char, st: State, earlier: seq<O.Change>, sys: Interpreter)
    returns (n: nat)
    requires O.IsMapOf(st.options, earlier)
    ensures n <= |lines| && Conf(lines[..n], heap, 0, st, sys) == Conf(lines, heap, 0, st, sys)
    ensures O.IsMapOf(Conf(lines, heap, 0, st, sys).st.options,
                      earlier + O.Changes(Assignments(lines[..n], heap, 0)))
    ensures if Conf(lines, heap, 0, st, sys).error == NoError then n == |lines|
            else 0 < n && Conf(lines[..n - 1], heap, 0, st, sys).error == NoError
  {
    hide Conf, O.IsMapOf, O.Fill, O.Changes, Assignments;
    O.OnlyMap(st.options, earlier);
    n := ConfFills(lines, heap, 0, st, sys);
    var changes := O.Changes(Assignments(lines[..n], heap, 0));
    O.FillAppend([], earlier, changes);
    O.ChangesNamed(Assignments(lines[..n], heap, 0));
    O.FillIsMap(earlier + changes);
  }

  /** A line of a file as its author means it. */
  datatype Item = Remark(lead: string, comment: string) | Setting(reading: Reading)
  {
    function Text(): string {
      match this
      case Remark(lead, comment) => lead + comment
      case Setting(reading) => reading.Text()
    }

    ghost predicate WellFormed() {
      && IsLine(Text())
      && match this
         case Remark(lead, comment) => All(Space, lead) && IsComment(comment)
         case Setting(reading) => reading.WellFormed()
    }

    function Pairs(): seq<Pair> {
      match this
      case Remark(_, _) => []
      case Setting(r) => [(r.name, P.Stored(r.value))]
    }
  }

  function Texts(items: seq<Item>): seq<string> {
    if items == [] then [] else [items[0].Text()] + Texts(items[1..])
  }

  function AllPairs(items: seq<Item>): seq<Pair> {
    if items == [] then [] else items[0].Pairs() + AllPairs(items[1..])
  }

  lemma ItemParses(item: Item, beyond: char)
    requires item.WellFormed() && !Letter(beyond)
    ensures P.ParseLine(item.Text(), beyond)
         == if item.Remark? then P.Blank else P.Assignment(item.reading.name, P.Stored(item.reading.value))
    ensures item.Setting? ==> item.Text() != []
  {
    match item
    case Remark(lead, comment) =>
      assert IsBlankLine(item.Text());
      P.BlankIff(item.Text(), beyond);
    case Setting(r) =>
      DecomposeText(r);
      assert r.Text()[|r.lead|..] == r.name + (r.before + ("=" + (r.after + (r.value + (r.trail + r.comment)))));
  }

  /** The lines of a well-formed file are handed over as exactly the settings it was
      written from, in order. */
  lemma {:induction false} ItemsAssigned(items: seq<Item>, heap: nat -> char, k: nat)
    requires forall i :: 0 <= i < |items| ==> items[i].WellFormed()
    requires forall j :: !Letter(heap(j))
    ensures Parses(DropEmpty(Texts(items)), heap, k)
    ensures Assignments(DropEmpty(Texts(items)), heap, k) == AllPairs(items)
    decreases |items|
  {
    hide P.ParseLine, P.Stored;
    if items != [] {
      var item, rest := items[0], items[1..];
      ItemParses(item, heap(k));
      assert Texts(items)[1..] == Texts(rest);
      if item.Text() == [] {
        assert DropEmpty(Texts(items)) == DropEmpty(Texts(rest));
        ItemsAssigned(rest, heap, k);
      } else {
        assert DropEmpty(Texts(items)) == [item.Text()] + DropEmpty(Texts(rest));
        ItemsAssigned(rest, heap, k + 1);
      }
    }
  }

  lemma {:induction false} TextsAre(items: seq<Item>, final: Item)
    requires forall i :: 0 <= i < |items| ==> items[i].WellFormed()
    ensures |Texts(items)| == |items| && forall i :: 0 <= i < |items| ==> IsLine(Texts(items)[i])
    ensures Texts(items + [final]) == Texts(items) + [final.Text()]
  {
    if items != [] {
      TextsAre(items[1..], final);
      assert (items + [final])[1..] == items[1..] + [final];
    } else {
      assert Texts([final]) == [final.Text()];
    }
  }

  /** The file round trip: no line is refused and the assignments are the settings written. The
      last item has no line feed after it; an empty remark there makes a file that ends with one. */
  lemma FileRoundTrip(items: seq<Item>, final: Item, heap: nat -> char, st: State, sys: Interpreter)
    requires final.WellFormed() && forall i :: 0 <= i < |items| ==> items[i].WellFormed()
    requires forall j :: !Letter(heap(j))
    ensures var lines := NonEmptyLines(Unlines(Texts(items)) + final.Text());
      && Parses(lines, heap, 0) && Assignments(lines, heap, 0) == AllPairs(items + [final])
      && Conf(lines, heap, 0, st, sys) == ApplyAll(st, AllPairs(items + [final]), sys)
  {
    TextsAre(items, final);
    LinesOfUnlines(Texts(items), final.Text());
    ItemsAssigned(items + [final], heap, 0);
    ConfIsApplyAll(DropEmpty(Texts(items + [final])), heap, 0, st, sys);
  }

  /** Writing a value between quotes: quotes and backslashes in it get a backslash. */
  function Escape(v: string): string {
    if v == [] then []
    else (if v[0] == '"' || v[0] == '\\' then ['\\', v[0]] else [v[0]]) + Escape(v[1..])
  }

  function Quote(v: string): string { "\"" + Escape(v) + "\"" }

  lemma {:induction false} EscapeIsBody(v: string)
    ensures IsBody(Escape(v))
    ensures P.WithoutBackslashes(Escape(v)) == P.WithoutBackslashes(v)
    ensures IsLine(v) ==> IsLine(Escape(v))
  {
    if v != [] {
      EscapeIsBody(v[1..]);
      var e := Escape(v);
      if v[0] == '"' || v[0] == '\\' {
        assert e[2..] == Escape(v[1..]) && e[1..][1..] == e[2..];
      } else {
        assert e[1..] == Escape(v[1..]);
      }
    }
  }

  lemma WithoutFirst(first: char, rest: string)
    ensures P.WithoutBackslashes([first] + rest)
         == (if first == '\\' then [] else [first]) + P.WithoutBackslashes(rest)
    ensures P.WithoutBackslashes([]) == []
  {
    assert ([first] + rest)[1..] == rest;
  }

  lemma {:induction false} WithoutAppend(a: string, b: string)
    ensures P.WithoutBackslashes(a + b) == P.WithoutBackslashes(a) + P.WithoutBackslashes(b)
  {
    hide P.WithoutBackslashes;
    if a == [] {
      assert a + b == b;
      WithoutFirst('x', []);
    } else {
      var first, rest := a[0], a[1..];
      assert a == [first] + rest && a + b == [first] + (rest + b);
      WithoutAppend(rest, b);
      WithoutFirst(first, rest);
      WithoutFirst(first, rest + b);
    }
  }

  lemma {:induction false} WithoutKeeps(v: string)
    ensures P.WithoutBackslashes(v) == v <==> '\\' !in v
    ensures |P.WithoutBackslashes(v)| <= |v|
  {
    if v != [] {
      WithoutKeeps(v[1..]);
      assert v == [v[0]] + v[1..];
      if v[0] == '\\' {
        assert |P.WithoutBackslashes(v)| < |v|;
      } else {
        assert P.WithoutBackslashes(v) == v <==> P.WithoutBackslashes(v[1..]) == v[1..] by {
          assert P.WithoutBackslashes(v)[1..] == P.WithoutBackslashes(v[1..]);
        }
      }
    }
  }

  lemma StoredQuote(v: string)
    ensures P.Stored(Quote(v)) == "\"" + P.WithoutBackslashes(v) + "\""
  {
    EscapeIsBody(v);
    var e := Escape(v);
    WithoutAppend("\"" + e, "\"");
    WithoutAppend("\"", e);
    assert P.WithoutBackslashes("\"") == "\"" + P.WithoutBackslashes("");
  }

  /** A quoted value comes back from the value buffer exactly when it holds no backslash:
      escaped or not, every backslash is dropped. */
  lemma QuotedValueReturns(v: string)
    ensures IsQuoted(Quote(v))
    ensures Unquote(P.Stored(Quote(v))) == P.WithoutBackslashes(v)
    ensures Unquote(P.Stored(Quote(v))) == v <==> '\\' !in v
  {
    hide Escape, IsBody, P.WithoutBackslashes, P.Stored;
    EscapeIsBody(v);
    var q := Quote(v);
    assert q[1..|q| - 1] == Escape(v);
    StoredQuote(v);
    var stored := P.Stored(q);
    assert stored[1..|stored| - 1] == P.WithoutBackslashes(v);
    WithoutKeeps(v);
  }

  /** The concrete loss: a value written as `\\` between quotes comes back empty. */
  lemma BackslashIsLost()
    ensures Quote("\\") == "\"\\\\\"" && Unquote(P.Stored(Quote("\\"))) == ""
  {}

  /** Characters of names and bare values, and blanks, spelled out. */
  ghost predicate WordOnly(s: string) {
    forall i :: 0 <= i < |s| ==>
      'A' <= s[i] <= 'Z' || 'a' <= s[i] <= 'z' || '0' <= s[i] <= '9' || s[i] == '-' || s[i] == '_' || s[i] == '.'
  }

  ghost predicate BlankOnly(s: string) {
    forall i :: 0 <= i < |s| ==> s[i] == ' ' || s[i] == '\t'
  }

  ghost predicate BareWord(s: string) {
    s != [] && WordOnly(s) && s[0] != '_' && s[0] != '.'
  }

  lemma ClassesMean(s: string)
    ensures All(Space, s) <==> BlankOnly(s)
    ensures All(NameChar, s) <==> WordOnly(s)
    ensures IsName(s) <==> s != [] && WordOnly(s) && ('A' <= s[0] <= 'Z' || 'a' <= s[0] <= 'z')
    ensures IsBare(s) <==> BareWord(s)
  {}

  /** What the grammar takes for an assignment, spelled out. */
  lemma WellFormedMeans(r: Reading)
    ensures r.WellFormed() <==>
      && BlankOnly(r.lead) && BlankOnly(r.before) && BlankOnly(r.after) && BlankOnly(r.trail)
      && r.name != [] && WordOnly(r.name) && ('A' <= r.name[0] <= 'Z' || 'a' <= r.name[0] <= 'z')
      && (BareWord(r.value) || IsQuoted(r.value))
      && (r.comment == [] || r.comment[0] == '#')
  {
    hide IsQuoted;
    ClassesMean(r.lead);
    ClassesMean(r.before);
    ClassesMean(r.after);
    ClassesMean(r.trail);
    ClassesMean(r.name);
    ClassesMean(r.value);
  }

  ghost predicate Plain(v: string) {
    forall i :: 0 <= i < |v| ==> v[i] != '"' && v[i] != '\\'
  }

  lemma {:induction false} PlainIsBody(v: string)
    requires Plain(v)
    ensures IsBody(v) && P.WithoutBackslashes(v) == v
  {
    if v != [] {
      PlainIsBody(v[1..]);
    }
  }

  lemma PlainQuoted(v: string)
    requires Plain(v)
    ensures IsQuoted("\"" + v + "\"") && P.Stored("\"" + v + "\"") == "\"" + v + "\""
  {
    PlainIsBody(v);
    var q := "\"" + v + "\"";
    assert q[1..|q| - 1] == v;
    WithoutAppend("\"" + v, "\"");
    WithoutAppend("\"", v);
    assert P.WithoutBackslashes("\"") == "\"" + P.WithoutBackslashes("");
  }

  lemma ReadingMeans(r: Reading, beyond: char)
    requires r.WellFormed()
    ensures P.ParseLine(r.Text(), beyond) == P.Assignment(r.name, P.Stored(r.value))
  {
    hide Decompose;
    DecomposeText(r);
  }

  /** An assignment as it is typed hands over the name, and the whole value as it stands: a bare
      word, or a text between quotes without quotes or backslashes in it. */
  lemma TypedAssignment(lead: string, name: string, before: string, after: string, value: string,
                        trail: string, comment: string, beyond: char)
    requires BlankOnly(lead) && BlankOnly(before) && BlankOnly(after) && BlankOnly(trail)
    requires name != [] && WordOnly(name) && ('A' <= name[0] <= 'Z' || 'a' <= name[0] <= 'z')
    requires BareWord(value) || exists v :: Plain(v) && value == "\"" + v + "\""
    requires comment == [] || comment[0] == '#'
    ensures P.ParseLine(lead + (name + (before + ("=" + (after + (value + (trail + comment)))))), beyond)
         == P.Assignment(name, value)
  {
    hide IsQuoted, P.ParseLine;
    if BareWord(value) {
      assert IsBare(value);
    } else {
      var v :| Plain(v) && value == "\"" + v + "\"";
      PlainQuoted(v);
    }
    ReadingMeans(Reading(lead, name, before, after, value, trail, comment), beyond);
  }

  /** A line of blanks, or of blanks and a comment, hands over nothing. */
  lemma TypedRemark(lead: string, comment: string, beyond: char)
    requires BlankOnly(lead) && (comment == [] || comment[0] == '#')
    requires comment != [] || !('A' <= beyond <= 'Z' || 'a' <= beyond <= 'z')
    ensures P.ParseLine(lead + comment, beyond) == P.Blank
  {
    assert IsBlankLine(lead + comment);
    P.BlankIff(lead + comment, beyond);
    if comment != [] {
      assert (lead + comment)[|lead|] == '#';
    }
  }

  /** A line of a file written with its value between quotes, or bare. */
  datatype Written =
    | Note(lead: string, comment: string)
    | Entry(lead: string, name: string, before: string, after: string,
            content: string, trail: string, comment: string)
    | Bare(lead: string, name: string, before: string, after: string,
           content: string, trail: string, comment: string)
  {
    function Item(): Item {
      match this
      case Note(lead, comment) => Remark(lead, comment)
      case Entry(lead, name, before, after, content, trail, comment) =>
        Setting(Reading(lead, name, before, after, Quote(content), trail, comment))
      case Bare(lead, name, before, after, content, trail, comment) =>
        Setting(Reading(lead, name, before, after, content, trail, comment))
    }

    /** It can be written so that its content comes back. */
    ghost predicate Writable() {
      && Item().WellFormed()
      && match this
         case Note(_, _) => true
         case Entry(_, _, _, _, content, _, _) => '\\' !in content
         case Bare(_, _, _, _, content, _, _) => content[0] != '"'
    }
  }

  lemma {:induction false} PlainIsEscaped(v: string)
    requires Plain(v)
    ensures Escape(v) == v
  {
    if v != [] {
      PlainIsEscaped(v[1..]);
    }
  }

  /** The line of an entry as it stands in the file. */
  lemma WrittenText(w: Written)
    ensures match w
      case Note(lead, comment) => w.Item().Text() == lead + comment
      case Bare(lead, name, before, after, content, trail, comment) =>
        w.Item().Text() == lead + (name + (before + ("=" + (after + (content + (trail + comment))))))
      case Entry(lead, name, before, after, content, trail, comment) =>
        var quoted := "\"" + content + "\"";
        Plain(content) ==>
          w.Item().Text() == lead + (name + (before + ("=" + (after + (quoted + (trail + comment))))))
  {
    if w.Entry? && Plain(w.content) {
      PlainIsEscaped(w.content);
    }
  }

  function Items(list: seq<Written>): seq<Item> {
    seq(|list|, i requires 0 <= i < |list| => list[i].Item())
  }

  /** The names and contents its author had in mind. */
  function Contents(list: seq<Written>): seq<Pair> {
    if list == [] then []
    else (if list[0].Note? then [] else [(list[0].name, list[0].content)]) + Contents(list[1..])
  }

  function Unquoted(pairs: seq<Pair>): seq<Pair> {
    seq(|pairs|, i requires 0 <= i < |pairs| => (pairs[i].0, Unquote(pairs[i].1)))
  }

  lemma WrittenReturns(written: Written)
    requires written.Writable() && !written.Note?
    ensures written.Item().Pairs() == [(written.name, P.Stored(written.Item().reading.value))]
    ensures Unquote(P.Stored(written.Item().reading.value)) == written.content
  {
    hide P.WithoutBackslashes, Quote;
    if written.Entry? {
      QuotedValueReturns(written.content);
    }
  }

  lemma UnquotedStep(pair: Pair, rest: seq<Pair>)
    ensures Unquoted([pair] + rest) == [(pair.0, Unquote(pair.1))] + Unquoted(rest)
    ensures Unquoted([]) == []
  {
    hide Unquote;
  }

  lemma ListStep(list: seq<Written>)
    requires list != []
    ensures AllPairs(Items(list)) == list[0].Item().Pairs() + AllPairs(Items(list[1..]))
    ensures AllPairs(Items([])) == []
  {
    assert Items(list)[0] == list[0].Item() && Items(list)[1..] == Items(list[1..]);
  }

  lemma {:induction false} ContentsReturn(list: seq<Written>)
    requires forall i :: 0 <= i < |list| ==> list[i].Writable()
    ensures Unquoted(AllPairs(Items(list))) == Contents(list)
  {
    if list != [] {
      hide Unquote, P.Stored, Quote, Unquoted, AllPairs, Items;
      ContentsReturn(list[1..]);
      ListStep(list);
      var rest := AllPairs(Items(list[1..]));
      if list[0].Note? {
        assert [] + rest == rest;
      } else {
        WrittenReturns(list[0]);
        UnquotedStep((list[0].name, P.Stored(list[0].Item().reading.value)), rest);
      }
    }
  }

  /** The whole round trip: from names and contents to a file, with any blanks, notes and blank
      lines, and back through the loader, whatever it does with them. */
  lemma WrittenFileReturns(list: seq<Written>, last: Written, heap: nat -> char, st: State, sys: Interpreter)
    requires last.Writable() && forall i :: 0 <= i < |list| ==> list[i].Writable()
    requires forall j :: !Letter(heap(j))
    ensures var lines := NonEmptyLines(Unlines(Texts(Items(list))) + last.Item().Text());
      && Parses(lines, heap, 0) && Unquoted(Assignments(lines, heap, 0)) == Contents(list + [last])
      && Assignments(lines, heap, 0) == AllPairs(Items(list + [last]))
      && Conf(lines, heap, 0, st, sys) == ApplyAll(st, Assignments(lines, heap, 0), sys)
  {
    hide Parses, Assignments, Conf, ApplyAll, NonEmptyLines, Unlines, Texts, AllPairs, Unquoted, Contents;
    FileRoundTrip(Items(list), last.Item(), heap, st, sys);
    assert Items(list + [last]) == Items(list) + [last.Item()];
    ContentsReturn(list + [last]);
  }
}
