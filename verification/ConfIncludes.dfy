/** Loading every file that `loader_conf_files` names, and the files that those name in turn. */
module ConfIncludes {
  import opened Optional
  import opened Splitting
  import opened Lines
  import opened Settings
  import opened ConfFile
  import opened ConfFileNames
  import G = Grammar
  import O = OptionMap
  import P = LineParser
  import R = LineReader
  import M = ModuleOptions
  import L = ConfLoader

  /** A file on the disk. Reading it fails only if it is not reliable. */
  datatype DiskFile = DiskFile(text: string, reliable: bool)

  /** What the loads depend on. `heaps(k)` is the memory behind the lines of the k-th load. */
  datatype Machine = Machine(
    disk: map<string, DiskFile>, heaps: nat -> nat -> char, sys: Interpreter)

  /** One load: the text in the read buffer before and after it, how many lines were processed,
      and the settings after it. */
  datatype Loading = Loading(name: string, stale: string, left: string, done: nat, st: State, error: Exception)

  /** Between two loads: the number of the next load, the settings, the text in the read buffer,
      the assignments handed over so far and the names still to be loaded, the next one first. */
  datatype Point = Point(k: nat, st: State, stale: string, handed: seq<Pair>, work: seq<string>)

  /** The exceptions that are reported, after which the loading goes on. */
  predicate Handled(error: Exception) {
    error in {NoError, SyntaxError, SetError, ReadError, OpenError}
  }

  predicate AllHandled(loads: seq<Loading>) {
    forall i :: 0 <= i < |loads| ==> Handled(loads[i].error)
  }

  function LinesOf(load: Loading, m: Machine): seq<string> {
    if load.name in m.disk then NonEmptyLines(load.stale + m.disk[load.name].text) else []
  }

  /** The assignments of the lines that were processed. */
  function HandedBy(load: Loading, m: Machine, k: nat): seq<Pair> {
    var lines := LinesOf(load, m);
    Assignments(if load.done <= |lines| then lines[..load.done] else lines, m.heaps(k), 0)
  }

  /** The names that a load leaves in `loader_conf_files` come before all others. */
  function Onward(p: Point, st: State, left: string, handed: seq<Pair>): Point {
    Point(p.k + 1, st.(confFiles := ""), left, p.handed + handed,
          Words(' ', st.confFiles) + if p.work == [] then [] else p.work[1..])
  }

  function Next(p: Point, load: Loading, m: Machine): Point {
    Onward(p, load.st, load.left, HandedBy(load, m, p.k))
  }

  function After(p: Point, loads: seq<Loading>, m: Machine): Point
    decreases |loads|
  {
    if loads == [] then p else After(Next(p, loads[0], m), loads[1..], m)
  }

  /** The load can be the next one. */
  ghost predicate LoadIs(load: Loading, m: Machine, p: Point) {
    && p.work != [] && load.name == p.work[0] && load.stale == p.stale
    && if load.name !in m.disk then
         load.error == OpenError && load.st == p.st && load.left == load.stale && load.done == 0
       else
         var DiskFile(text, reliable) := m.disk[load.name];
         && L.Processed(load.done, LinesOf(load, m), m.heaps(p.k), p.st, Step(load.st, load.error), m.sys)
         && (load.error == ReadError ==> !reliable)
         && (load.error != ReadError ==>
               Conf(LinesOf(load, m), m.heaps(p.k), 0, p.st, m.sys) == Step(load.st, load.error))
         && (load.error == NoError ==> load.left == "")
         && (load.error != ReadError ==> exists rest :: R.IsSuffix(load.left + rest, load.stale + text))
  }

  /** The loads can follow one another. Only the last one may end the loading. */
  ghost predicate Run(loads: seq<Loading>, m: Machine, p: Point)
    decreases |loads|
  {
    loads != [] ==>
      && LoadIs(loads[0], m, p) && (Handled(loads[0].error) || |loads| == 1)
      && Run(loads[1..], m, Next(p, loads[0], m))
  }

  lemma {:induction false} RunAppend(a: seq<Loading>, b: seq<Loading>, m: Machine, p: Point)
    requires Run(a, m, p) && AllHandled(a) && Run(b, m, After(p, a, m))
    ensures Run(a + b, m, p) && After(p, a + b, m) == After(After(p, a, m), b, m)
    ensures AllHandled(b) ==> AllHandled(a + b)
    decreases |a|
  {
    hide LoadIs, Next, Handled;
    if a == [] {
      assert a + b == b;
    } else {
      RunAppend(a[1..], b, m, Next(p, a[0], m));
      assert (a + b)[1..] == a[1..] + b;
    }
  }

  lemma RunNothing(m: Machine, p: Point)
    ensures Run([], m, p) && After(p, [], m) == p && AllHandled([])
  {}

  lemma RunOne(load: Loading, m: Machine, p: Point)
    requires LoadIs(load, m, p)
    ensures Run([load], m, p) && After(p, [load], m) == Next(p, load, m)
    ensures AllHandled([load]) <==> Handled(load.error)
  {
    assert [load][1..] == [];
  }

  lemma NextOfLast(p: Point, load: Loading, m: Machine)
    requires |p.work| == 1
    ensures Next(p, load, m)
         == Point(p.k + 1, load.st.(confFiles := ""), load.left, p.handed + HandedBy(load, m, p.k),
                  Words(' ', load.st.confFiles))
    ensures load.st.confFiles == "" ==>
      Next(p, load, m) == Point(p.k + 1, load.st, load.left, p.handed + HandedBy(load, m, p.k), [])
  {
    assert Words(' ', load.st.confFiles) + [] == Words(' ', load.st.confFiles);
    NoWords(' ', "");
  }

  function Below(p: Point, rest: seq<string>): Point { p.(work := p.work + rest) }

  lemma BelowStep(load: Loading, m: Machine, p: Point, rest: seq<string>)
    requires LoadIs(load, m, p)
    ensures LoadIs(load, m, Below(p, rest)) && Next(Below(p, rest), load, m) == Below(Next(p, load, m), rest)
  {
    hide Words, L.Processed, Conf, LinesOf, HandedBy, R.IsSuffix;
    assert (p.work + rest)[1..] == p.work[1..] + rest;
  }

  /** Names further down wait until all above them are done. */
  lemma {:induction false} RunBelow(loads: seq<Loading>, m: Machine, p: Point, rest: seq<string>)
    requires Run(loads, m, p)
    ensures Run(loads, m, Below(p, rest)) && After(Below(p, rest), loads, m) == Below(After(p, loads, m), rest)
    decreases |loads|
  {
    if loads != [] {
      hide LoadIs, Next, Below, Handled;
      BelowStep(loads[0], m, p, rest);
      RunBelow(loads[1..], m, Next(p, loads[0], m), rest);
    }
  }

  /** What the next load does if nothing is left in the read buffer and no read fails. */
  function Alone(m: Machine, p: Point): Step
    requires p.work != []
  {
    var name := p.work[0];
    if name in m.disk then Conf(NonEmptyLines(m.disk[name].text), m.heaps(p.k), 0, p.st, m.sys)
    else Step(p.st, OpenError)
  }

  /** All assignments of the next file. */
  function AllHanded(m: Machine, p: Point): seq<Pair>
    requires p.work != []
  {
    var name := p.work[0];
    if name in m.disk then Assignments(NonEmptyLines(m.disk[name].text), m.heaps(p.k), 0) else []
  }

  function NextAlone(m: Machine, p: Point): Point
    requires p.work != []
  {
    Onward(p, Alone(m, p).st, "", AllHanded(m, p))
  }

  /** `n` such loads in turn, depth first. */
  function InTurn(m: Machine, p: Point, n: nat): Point
    decreases n
  {
    if n == 0 || p.work == [] then p else InTurn(m, NextAlone(m, p), n - 1)
  }

  /** Of the first `n` files, those that are there can be read and raise no exception. */
  ghost predicate Clean(m: Machine, p: Point, n: nat)
    decreases n
  {
    n > 0 && p.work != [] ==>
      && (p.work[0] in m.disk ==> m.disk[p.work[0]].reliable && Alone(m, p).error == NoError)
      && Clean(m, NextAlone(m, p), n - 1)
  }

  /** Every file that could be opened was loaded to its end. */
  predicate NoneFails(loads: seq<Loading>) {
    forall i :: 0 <= i < |loads| ==> loads[i].error == NoError || loads[i].error == OpenError
  }

  lemma NothingHanded(heap: nat -> char)
    ensures Assignments([], heap, 0) == []
  {}

  lemma AloneIs(load: Loading, m: Machine, p: Point)
    requires LoadIs(load, m, p) && p.stale == ""
    ensures p.work != []
    ensures load.error == NoError || load.error == OpenError ==> Next(p, load, m) == NextAlone(m, p)
    ensures (p.work[0] in m.disk ==> m.disk[p.work[0]].reliable && Alone(m, p).error == NoError) ==>
      load.error == if p.work[0] in m.disk then NoError else OpenError
  {
    hide Words, NonEmptyLines, Conf, Assignments, R.IsSuffix, L.ReachedAfter;
    if load.name in m.disk {
      assert "" + m.disk[load.name].text == m.disk[load.name].text;
      var lines := LinesOf(load, m);
      assert lines[..|lines|] == lines;
    } else {
      NothingHanded(m.heaps(p.k));
    }
  }

  lemma AloneLeavesNothing(m: Machine, p: Point)
    requires p.work != []
    ensures NextAlone(m, p).stale == ""
  {}

  /** From an empty read buffer on, and while no load raises an exception of its own, the loads
      never mix: each of them processes the lines of its own file, after those before it. */
  lemma {:induction false} LoadsNeverMix(loads: seq<Loading>, m: Machine, p: Point)
    requires Run(loads, m, p) && p.stale == ""
    requires NoneFails(loads)
    ensures After(p, loads, m) == InTurn(m, p, |loads|)
    decreases |loads|
  {
    if loads != [] {
      hide LoadIs, Next, NextAlone, Handled;
      AloneIs(loads[0], m, p);
      AloneLeavesNothing(m, p);
      LoadsNeverMix(loads[1..], m, Next(p, loads[0], m));
    }
  }

  /** No load fails if the files raise no exception and can be read. */
  lemma {:induction false} CleanNeverFails(loads: seq<Loading>, m: Machine, p: Point, n: nat)
    requires Run(loads, m, p) && p.stale == "" && |loads| <= n && Clean(m, p, n)
    ensures NoneFails(loads)
    decreases |loads|
  {
    if loads != [] {
      hide LoadIs, Next, NextAlone, Alone, Handled;
      AloneIs(loads[0], m, p);
      AloneLeavesNothing(m, p);
      CleanNeverFails(loads[1..], m, NextAlone(m, p), n - 1);
      assert forall i :: 0 < i < |loads| ==> loads[i] == loads[1..][i - 1];
    }
  }

  /** With no name left, nothing more happens. */
  lemma {:induction false} InTurnStays(m: Machine, p: Point, a: nat, b: nat)
    requires a <= b && InTurn(m, p, a).work == []
    ensures InTurn(m, p, b) == InTurn(m, p, a)
    decreases a
  {
    hide NextAlone;
    if a > 0 && p.work != [] {
      InTurnStays(m, NextAlone(m, p), a - 1, b - 1);
    }
  }

  /** Where lines were processed up to an exception, no other number of lines leads there. */
  lemma OnlyCount(n: nat, done: nat, lines: seq<string>, heap: nat -> char, st: State, sys: Interpreter)
    requires n <= done <= |lines| && 0 < n
    requires Conf(lines[..n], heap, 0, st, sys).error != NoError
    requires Conf(lines[..done - 1], heap, 0, st, sys).error == NoError
    ensures n == done
  {
    if n < done {
      assert lines[..done - 1] == lines[..n] + lines[n..done - 1];
      ConfAppend(lines[..n], lines[n..done - 1], heap, 0, st, sys);
    }
  }

  lemma ProcessedKeepsMap(done: nat, lines: seq<string>, heap: nat -> char, st: State, end: Step, sys: Interpreter,
                          earlier: seq<O.Change>)
    requires L.Processed(done, lines, heap, st, end, sys) && O.IsMapOf(st.options, earlier)
    ensures done <= |lines|
    ensures O.IsMapOf(end.st.options, earlier + O.Changes(Assignments(lines[..done], heap, 0)))
  {
    hide O.IsMapOf, O.Changes, Assignments, Conf;
    var part := lines[..done];
    var n := ConfKeepsMap(part, heap, st, earlier, sys);
    assert part[..n] == lines[..n];
    if end.error == NoError || end.error == ReadError {
      assert n == done && part[..n] == part;
    } else {
      OnlyCount(n, done, lines, heap, st, sys);
      assert part[..n] == part;
    }
  }

  lemma LoadKeepsMap(load: Loading, m: Machine, p: Point)
    requires LoadIs(load, m, p) && O.IsMapOf(p.st.options, O.Changes(p.handed))
    ensures O.IsMapOf(Next(p, load, m).st.options, O.Changes(Next(p, load, m).handed))
  {
    hide O.IsMapOf, O.Changes, Assignments, Conf, NonEmptyLines, L.Processed, R.IsSuffix, Words;
    var lines, heap := LinesOf(load, m), m.heaps(p.k);
    O.ChangesAppend(p.handed, HandedBy(load, m, p.k));
    if load.name in m.disk {
      ProcessedKeepsMap(load.done, lines, heap, p.st, Step(load.st, load.error), m.sys, O.Changes(p.handed));
    } else {
      NothingHanded(heap);
      assert p.handed + [] == p.handed;
    }
  }

  /** Over all files of a run, whatever exceptions they raise, the list of modules stays the map
      of all assignments handed over so far. */
  lemma {:induction false} IncludesKeepMap(loads: seq<Loading>, m: Machine, p: Point)
    requires Run(loads, m, p) && O.IsMapOf(p.st.options, O.Changes(p.handed))
    ensures O.IsMapOf(After(p, loads, m).st.options, O.Changes(After(p, loads, m).handed))
    decreases |loads|
  {
    if loads != [] {
      hide O.IsMapOf, LoadIs, Next, Handled;
      LoadKeepsMap(loads[0], m, p);
      IncludesKeepMap(loads[1..], m, Next(p, loads[0], m));
    }
  }

  lemma {:induction false} RefusedLine(lines: seq<string>, heap: nat -> char, k: nat, i: nat)
    requires i < |lines| && forall beyond :: P.ParseLine(lines[i], beyond) == P.SyntaxError
    ensures !Parses(lines, heap, k)
    decreases |lines|
  {
    hide P.ParseLine;
    if i > 0 {
      RefusedLine(lines[1..], heap, k + 1, i - 1);
    }
  }

  /** Text left in the read buffer that holds a whole refused line keeps the loader from every
      file it loads next: that line raises the exception again before the file is reached. */
  lemma RefusedLineBlocks(a: string, b: string, i: nat, file: string, heap: nat -> char, st: State, sys: Interpreter)
    requires i < |NonEmptyLines(a)| && forall beyond :: P.ParseLine(NonEmptyLines(a)[i], beyond) == P.SyntaxError
    ensures Conf(NonEmptyLines((a + [LF] + b) + file), heap, 0, st, sys) == Conf(NonEmptyLines(a), heap, 0, st, sys)
    ensures Conf(NonEmptyLines(a), heap, 0, st, sys).error != NoError
  {
    hide Words, Conf, P.ParseLine;
    var lines := NonEmptyLines(a);
    RefusedLine(lines, heap, 0, i);
    ConfIsApplyAll(lines, heap, 0, st, sys);
    assert (a + [LF] + b) + file == a + [LF] + (b + file);
    WordsAppend(LF, a, b + file);
    ConfAppend(lines, NonEmptyLines(b + file), heap, 0, st, sys);
  }

  lemma SignIsNoLine(beyond: char)
    ensures P.ParseLine("=", beyond) == P.SyntaxError
  {
    assert G.Skip("=") == "=";
    P.BlankIff("=", beyond);
  }

  lemma SignRefused(lines: seq<string>, heap: nat -> char, st: State, sys: Interpreter)
    requires lines != [] && lines[0] == "="
    ensures L.Processed(1, lines, heap, st, Step(st, SyntaxError), sys)
    ensures Conf(lines, heap, 0, st, sys) == Step(st, SyntaxError) && Assignments(lines[..1], heap, 0) == []
  {
    hide P.ParseLine;
    SignIsNoLine(heap(0));
    assert lines[..1] == ["="] && lines[..0] == [];
  }

  lemma SignLine(more: string)
    ensures var lines := NonEmptyLines("=\n" + more); lines != [] && lines[0] == "="
  {
    assert "=\n" + more == [] + "=" + ("\n" + more);
    PeelWord(LF, [], "=", "\n" + more);
  }

  /** A load that starts with a line of one sign, in the buffer or in the file, is refused there. */
  lemma SignLoad(load: Loading, m: Machine, p: Point, more: string)
    requires p.work != [] && p.work[0] in m.disk && p.stale + m.disk[p.work[0]].text == "=\n" + more
    requires load == Loading(p.work[0], p.stale, "=\n", 1, p.st, SyntaxError) && p.st.confFiles == ""
    ensures LoadIs(load, m, p) && Next(p, load, m) == Point(p.k + 1, p.st, "=\n", p.handed, p.work[1..])
  {
    hide NonEmptyLines, Conf, L.Processed, Assignments;
    SignLine(more);
    SignRefused(LinesOf(load, m), m.heaps(p.k), p.st, m.sys);
    assert R.IsSuffix(load.left + more, load.stale + m.disk[load.name].text);
    assert p.handed + [] == p.handed;
    NoWords(' ', "");
    assert [] + p.work[1..] == p.work[1..];
  }

  function StuckLoads(names: seq<string>, st: State): seq<Loading> {
    if names == [] then []
    else [Loading(names[0], "=\n", "=\n", 1, st, SyntaxError)] + StuckLoads(names[1..], st)
  }

  lemma {:induction false} StuckOn(names: seq<string>, m: Machine, p: Point)
    requires p.stale == "=\n" && p.st.confFiles == "" && p.work == names
    requires forall i :: 0 <= i < |names| ==> names[i] in m.disk
    ensures Run(StuckLoads(names, p.st), m, p)
    ensures After(p, StuckLoads(names, p.st), m) == Point(p.k + |names|, p.st, "=\n", p.handed, [])
    decreases |names|
  {
    hide LoadIs, Next;
    if names != [] {
      var load := Loading(names[0], "=\n", "=\n", 1, p.st, SyntaxError);
      SignLoad(load, m, p, m.disk[names[0]].text);
      StuckOn(names[1..], m, Next(p, load, m));
    }
  }

  /** A run that leaves such text: a file of one sign and a line feed, read whole, is refused and stays
      in the buffer. Every file after it is refused at that line, and none of it is processed. */
  lemma StuckRun(first: string, names: seq<string>, m: Machine, p: Point)
    requires first in m.disk && m.disk[first].text == "=\n"
    requires p.stale == "" && p.st.confFiles == "" && p.work == [first] + names
    requires forall i :: 0 <= i < |names| ==> names[i] in m.disk
    ensures var loads := [Loading(first, "", "=\n", 1, p.st, SyntaxError)] + StuckLoads(names, p.st);
      && Run(loads, m, p)
      && After(p, loads, m) == Point(p.k + 1 + |names|, p.st, "=\n", p.handed, [])
  {
    hide LoadIs, Next;
    var load := Loading(first, "", "=\n", 1, p.st, SyntaxError);
    SignLoad(load, m, p, "");
    StuckOn(names, m, Next(p, load, m));
  }

  datatype Ending = Finished | Paused | Thrown(error: Exception)

  /** The loader as it stands between two loads. */
  ghost predicate At(loader: L.ConfLoader, p: Point)
    reads loader, loader.settings, loader.reader, loader.reader.readBuffer
  {
    && loader.reader.readLen <= loader.reader.readBuffer.Length
    && loader.settings.Snapshot() == p.st && loader.settings.handed == p.handed
    && loader.reader.readBuffer[..loader.reader.readLen] == p.stale
  }

  method Open(name: string, disk: map<string, DiskFile>) returns (file: R.File?)
    ensures file == null <==> name !in disk
    ensures file != null ==>
      fresh(file) && file.pos == 0 && file.data == disk[name].text && file.reliable == disk[name].reliable
  {
    if name in disk {
      file := new R.File(disk[name].text, disk[name].reliable);
    } else {
      file := null;
    }
  }

  method LoadNamed(loader: L.ConfLoader, m: Machine, ghost p: Point, name: string, k: nat)
    returns (error: Exception, ghost load: Loading)
    requires loader.Valid() && At(loader, p) && p.k == k && p.work != [] && name == p.work[0]
    modifies loader.Footprint()
    ensures loader.Valid() && fresh(loader.Footprint() - old(loader.Footprint()))
    ensures LoadIs(load, m, p) && load.error == error
    ensures At(loader, p.(st := load.st, stale := load.left, handed := p.handed + HandedBy(load, m, p.k)))
  {
    hide Conf, NonEmptyLines, L.Processed, Assignments, M.Chained;
    var reader := loader.reader;
    ghost var stale := reader.readBuffer[..reader.readLen];
    var file := Open(name, m.disk);
    ghost var n;
    error, n := loader.LoadConf(file, m.heaps(k), m.sys);
    if file == null {
      n := 0;
      NothingHanded(m.heaps(k));
    }
    load := Loading(name, stale, reader.readBuffer[..reader.readLen], n, loader.settings.Snapshot(), error);
    assert file != null && error != ReadError ==>
      R.IsSuffix(load.left + file.Rest(), load.stale + m.disk[load.name].text);
  }

  /** How the loading stands at its end. */
  ghost predicate Ended(
    loader: L.ConfLoader, p: Point, loads: seq<Loading>, budget: nat, ending: Ending, rest: seq<string>)
    reads loader, loader.settings, loader.reader, loader.reader.readBuffer
  {
    && |loads| <= budget
    && match ending
       case Finished => AllHandled(loads) && At(loader, p) && p.work == rest
       case Paused => AllHandled(loads) && At(loader, p) && p.work != [] && |loads| == budget
       case Thrown(error) =>
         && loads != [] && !Handled(error) && loads[|loads| - 1].error == error
         && loader.settings.Snapshot() == loads[|loads| - 1].st && loader.settings.handed == p.handed
  }

  lemma EndedStart(loader: L.ConfLoader, p: Point, budget: nat)
    requires At(loader, p)
    ensures Ended(loader, p, [], budget, Finished, p.work)
  {}

  lemma EndedOne(loader: L.ConfLoader, m: Machine, p: Point, load: Loading, budget: nat)
    requires LoadIs(load, m, p) && |p.work| == 1 && 0 < budget
    requires At(loader, p.(st := load.st, stale := load.left, handed := p.handed + HandedBy(load, m, p.k)))
    ensures Run([load], m, p)
    ensures !Handled(load.error) ==> Ended(loader, After(p, [load], m), [load], budget, Thrown(load.error), [])
    ensures Handled(load.error) ==> AllHandled([load])
    ensures Handled(load.error) && load.st.confFiles == "" ==>
      Ended(loader, After(p, [load], m), [load], budget, Finished, [])
    ensures After(p, [load], m)
         == Point(p.k + 1, load.st.(confFiles := ""), load.left, p.handed + HandedBy(load, m, p.k),
                  Words(' ', load.st.confFiles))
  {
    hide Words, LoadIs, HandedBy, Next, Run, After, Handled;
    RunOne(load, m, p);
    NextOfLast(p, load, m);
  }

  lemma EndedMore(loader: L.ConfLoader, q: Point, loads: seq<Loading>, more: seq<Loading>,
                  budget: nat, ending: Ending, rest: seq<string>)
    requires |loads| <= budget && AllHandled(loads) && Ended(loader, q, more, budget - |loads|, ending, rest)
    ensures Ended(loader, q, loads + more, budget, ending, rest)
  {
    hide Handled;
  }

  /** With names still to come the loading can pause, and once it has stopped they do not matter. */
  lemma EndedEarly(loader: L.ConfLoader, p: Point, loads: seq<Loading>, budget: nat, ending: Ending, rest: seq<string>)
    requires Ended(loader, p, loads, budget, ending, rest)
    ensures ending == Finished && rest != [] && |loads| == budget ==> Ended(loader, p, loads, budget, Paused, [])
    ensures ending != Finished ==> Ended(loader, p, loads, budget, ending, [])
  {}

  lemma {:induction false} AfterCounts(loads: seq<Loading>, m: Machine, p: Point)
    ensures After(p, loads, m).k == p.k + |loads|
    decreases |loads|
  {
    if loads != [] {
      AfterCounts(loads[1..], m, Next(p, loads[0], m));
    }
  }

  /** The loads made for one name come before those for the rest of the list. */
  lemma RunOnward(loads: seq<Loading>, more: seq<Loading>, m: Machine, p: Point, name: string, rest: seq<string>)
    requires Run(loads, m, p) && AllHandled(loads) && After(p, loads, m).work == [name] + rest
    requires Run(more, m, After(p, loads, m).(work := [name]))
    ensures Run(loads + more, m, p)
    ensures After(p, loads + more, m) == Below(After(After(p, loads, m).(work := [name]), more, m), rest)
  {
    hide Run, After;
    var q := After(p, loads, m).(work := [name]);
    RunBelow(more, m, q, rest);
    assert Below(q, rest) == After(p, loads, m);
    RunAppend(loads, more, m, p);
  }

  /** The name found and those after it. */
  ghost function WordsLeft(list: string, pos: nat, name: Option<string>): seq<string>
    requires pos <= |list|
  {
    if name.None? then [] else [name.value] + Words(' ', list[pos..])
  }

  method TakeConfFiles(loader: L.ConfLoader) returns (list: string)
    requires loader.Valid()
    modifies loader.Footprint()
    ensures loader.Valid() && loader.Footprint() == old(loader.Footprint()) && list == old(loader.settings.confFiles)
    ensures loader.settings.Snapshot() == old(loader.settings.Snapshot()).(confFiles := "")
    ensures unchanged(loader.reader, loader.reader.readBuffer) && loader.settings.handed == old(loader.settings.handed)
  {
    hide M.Chained;
    list := loader.settings.GetConfFiles();
  }

  /** The only exception that stops the loading is that of a command that failed. */
  ghost predicate OnlyExecStops(loads: seq<Loading>, ending: Ending) {
    && (forall i :: 0 <= i < |loads| - 1 ==> loads[i].error != ExecError)
    && (ending.Thrown? <==> loads != [] && loads[|loads| - 1].error == ExecError)
    && (ending.Thrown? ==> ending.error == ExecError)
  }

  lemma LoadStops(load: Loading, m: Machine, p: Point)
    requires LoadIs(load, m, p)
    ensures Handled(load.error) <==> load.error != ExecError
  {
    hide Words, NonEmptyLines, Conf, L.ReachedAfter, R.IsSuffix;
  }

  lemma {:induction false} RunStops(loads: seq<Loading>, m: Machine, p: Point)
    requires Run(loads, m, p)
    ensures forall i :: 0 <= i < |loads| ==> (Handled(loads[i].error) <==> loads[i].error != ExecError)
    ensures forall i :: 0 <= i < |loads| - 1 ==> Handled(loads[i].error)
    decreases |loads|
  {
    if loads != [] {
      hide LoadIs, Next, Handled;
      LoadStops(loads[0], m, p);
      RunStops(loads[1..], m, Next(p, loads[0], m));
      assert forall i :: 0 < i < |loads| ==> loads[i] == loads[1..][i - 1];
    }
  }

  lemma EndedStops(loader: L.ConfLoader, loads: seq<Loading>, m: Machine, p: Point, budget: nat, ending: Ending)
    requires Run(loads, m, p) && Ended(loader, After(p, loads, m), loads, budget, ending, [])
    ensures OnlyExecStops(loads, ending)
  {
    hide Run, After, Handled, At;
    RunStops(loads, m, p);
  }

  /** Loads the files that `loader_conf_files` names, each followed by the files it names in turn,
      as long as there are any, but no more than `budget` in all. */
  method IncludeConfFiles(loader: L.ConfLoader, m: Machine, k: nat, budget: nat)
    returns (count: nat, ending: Ending, ghost loads: seq<Loading>)
    requires loader.Valid()
    modifies loader.Footprint()
    ensures loader.Valid() && fresh(loader.Footprint() - old(loader.Footprint()))
    ensures var p := Point(k, old(loader.settings.Snapshot()).(confFiles := ""),
                           old(loader.reader.readBuffer[..loader.reader.readLen]),
                           old(loader.settings.handed), Words(' ', old(loader.settings.confFiles)));
      Run(loads, m, p) && count == |loads| && Ended(loader, After(p, loads, m), loads, budget, ending, [])
    ensures OnlyExecStops(loads, ending)
    decreases budget, 2
  {
    hide LoadIs, Words, Run, After, Next, Ended, OnlyExecStops, AllHandled, Handled, L.Apart, M.Chained;
    count, ending, loads := 0, Finished, [];
    ghost var stale := loader.reader.readBuffer[..loader.reader.readLen];
    var list := TakeConfFiles(loader);
    ghost var p := Point(k, loader.settings.Snapshot(), stale, loader.settings.handed, Words(' ', list));
    RunNothing(m, p);
    assert loader.reader.readBuffer[..loader.reader.readLen] == stale;
    EndedStart(loader, p, budget);
    var pos, name := GetNextFile(list, 0);
    assert list[0..] == list;
    while name.Some?
      invariant loader.Valid() && fresh(loader.Footprint() - old(loader.Footprint()))
      invariant pos <= |list| && count == |loads| <= budget && Run(loads, m, p)
      invariant ending == Finished
      invariant Ended(loader, After(p, loads, m), loads, budget, ending, WordsLeft(list, pos, name))
      decreases |list| - pos, if name.Some? then 1 else 0
    {
      ghost var rest := Words(' ', list[pos..]);
      if count == budget {
        EndedEarly(loader, After(p, loads, m), loads, budget, ending, [name.value] + rest);
        ending := Paused;
        EndedStops(loader, loads, m, p, budget, ending);
        return;
      }
      count, ending, loads := IncludeNext(loader, m, p, loads, name.value, rest, k, count, budget);
      if ending != Finished {
        EndedEarly(loader, After(p, loads, m), loads, budget, ending, rest);
        EndedStops(loader, loads, m, p, budget, ending);
        return;
      }
      pos, name := GetNextFile(list, pos);
    }
    EndedStops(loader, loads, m, p, budget, ending);
  }

  /** Loads one file and then those it names. */
  method LoadAndInclude(loader: L.ConfLoader, m: Machine, name: string, k: nat, budget: nat)
    returns (count: nat, ending: Ending, ghost loads: seq<Loading>)
    requires loader.Valid() && budget > 0
    modifies loader.Footprint()
    ensures loader.Valid() && fresh(loader.Footprint() - old(loader.Footprint()))
    ensures var p := Point(k, old(loader.settings.Snapshot()),
                           old(loader.reader.readBuffer[..loader.reader.readLen]),
                           old(loader.settings.handed), [name]);
      Run(loads, m, p) && count == |loads| && Ended(loader, After(p, loads, m), loads, budget, ending, [])
    decreases budget, 0
  {
    hide LoadIs, Words, Run, After, HandedBy, L.Apart, Handled, AllHandled, Ended;
    ghost var p := Point(k, loader.settings.Snapshot(),
                         loader.reader.readBuffer[..loader.reader.readLen], loader.settings.handed, [name]);
    var error;
    ghost var load;
    error, load := LoadNamed(loader, m, p, name, k);
    EndedOne(loader, m, p, load, budget);
    count, ending, loads := 1, Finished, [load];
    if !Handled(error) {
      ending := Thrown(error);
    } else if loader.settings.confFiles != "" {
      ghost var more;
      count, ending, more := IncludeConfFiles(loader, m, k + 1, budget - 1);
      RunAppend(loads, more, m, p);
      EndedMore(loader, After(p, loads + more, m), loads, more, budget, ending, []);
      count, loads := 1 + count, loads + more;
    }
  }

  /** After some loads, the next one of a list of names with those that it leads to. */
  method IncludeNext(loader: L.ConfLoader, m: Machine, ghost p: Point, ghost loads: seq<Loading>,
                     name: string, ghost rest: seq<string>, k: nat, count: nat, budget: nat)
    returns (count': nat, ending: Ending, ghost loads': seq<Loading>)
    requires loader.Valid() && count == |loads| < budget && p.k == k
    requires Run(loads, m, p) && Ended(loader, After(p, loads, m), loads, budget, Finished, [name] + rest)
    modifies loader.Footprint()
    ensures loader.Valid() && fresh(loader.Footprint() - old(loader.Footprint()))
    ensures Run(loads', m, p) && count' == |loads'| <= budget
    ensures Ended(loader, After(p, loads', m), loads', budget, ending, rest)
    decreases budget - count, 1
  {
    hide LoadIs, Words, Run, After, Next, Handled, L.Apart;
    AfterCounts(loads, m, p);
    var made;
    ghost var more;
    made, ending, more := LoadAndInclude(loader, m, name, k + count, budget - count);
    RunOnward(loads, more, m, p, name, rest);
    count', loads' := count + made, loads + more;
  }

  lemma {:induction false} LastState(loads: seq<Loading>, m: Machine, p: Point)
    requires loads != []
    ensures After(p, loads, m).st == loads[|loads| - 1].st.(confFiles := "")
    decreases |loads|
  {
    if |loads| > 1 {
      LastState(loads[1..], m, Next(p, loads[0], m));
    }
  }

  method NameConfFiles(loader: L.ConfLoader, names: string)
    requires loader.Valid()
    modifies loader.Footprint()
    ensures loader.Valid() && loader.Footprint() == old(loader.Footprint())
    ensures loader.settings.Snapshot() == old(loader.settings.Snapshot()).(confFiles := names)
    ensures unchanged(loader.reader, loader.reader.readBuffer) && loader.settings.handed == old(loader.settings.handed)
  {
    hide M.Chained;
    loader.settings.NameConfFiles(names);
  }

  /** The list of modules is the map of all assignments handed over. */
  ghost predicate Mapped(settings: M.LoaderSettings)
    reads settings
  {
    O.IsMapOf(settings.options, O.Changes(settings.handed))
  }

  lemma EndedMapped(loader: L.ConfLoader, loads: seq<Loading>, m: Machine, p: Point, budget: nat, ending: Ending)
    requires Run(loads, m, p) && O.IsMapOf(p.st.options, O.Changes(p.handed))
    requires Ended(loader, After(p, loads, m), loads, budget, ending, [])
    ensures Mapped(loader.settings)
  {
    hide O.IsMapOf, Run, After;
    IncludesKeepMap(loads, m, p);
    if ending.Thrown? {
      LastState(loads, m, p);
    }
  }

  /** Files that can be read and raise no exception are all loaded, if the budget allows. */
  lemma EndedClean(loader: L.ConfLoader, loads: seq<Loading>, m: Machine, p: Point, budget: nat, ending: Ending)
    requires Run(loads, m, p) && Ended(loader, After(p, loads, m), loads, budget, ending, [])
    requires p.stale == "" && Clean(m, p, budget) && InTurn(m, p, budget).work == []
    ensures ending == Finished && At(loader, InTurn(m, p, budget))
  {
    hide Run, After, InTurn, Clean;
    CleanNeverFails(loads, m, p, budget);
    LoadsNeverMix(loads, m, p);
    if ending == Finished {
      InTurnStays(m, p, |loads|, budget);
    }
  }

  /** Reads the files of a list and all they lead to. Whatever happens, the list of modules is the
      map of all assignments handed over. From an empty read buffer, files that can be read and raise
      no exception are all loaded if the budget allows, each with its own lines in its turn. */
  method ReadConf(loader: L.ConfLoader, m: Machine, names: string, budget: nat)
    returns (count: nat, ending: Ending, ghost loads: seq<Loading>)
    requires loader.Valid() && Mapped(loader.settings)
    modifies loader.Footprint()
    ensures loader.Valid() && fresh(loader.Footprint() - old(loader.Footprint())) && Mapped(loader.settings)
    ensures OnlyExecStops(loads, ending)
    ensures var p := Point(0, old(loader.settings.Snapshot()).(confFiles := ""),
                           old(loader.reader.readBuffer[..loader.reader.readLen]),
                           old(loader.settings.handed), Words(' ', names));
      && Run(loads, m, p) && count == |loads| && Ended(loader, After(p, loads, m), loads, budget, ending, [])
      && (p.stale == "" && Clean(m, p, budget) && InTurn(m, p, budget).work == [] ==>
            ending == Finished && At(loader, InTurn(m, p, budget)))
  {
    hide O.IsMapOf, Words, Run, After, InTurn, Clean, Ended, OnlyExecStops, L.Apart;
    ghost var p := Point(0, loader.settings.Snapshot().(confFiles := ""),
                         loader.reader.readBuffer[..loader.reader.readLen], loader.settings.handed, Words(' ', names));
    NameConfFiles(loader, names);
    assert loader.reader.readBuffer[..loader.reader.readLen] == p.stale;
    assert loader.settings.Snapshot().(confFiles := "") == p.st && loader.settings.confFiles == names;
    count, ending, loads := IncludeConfFiles(loader, m, 0, budget);
    EndedMapped(loader, loads, m, p, budget, ending);
    if p.stale == "" && Clean(m, p, budget) && InTurn(m, p, budget).work == [] {
      EndedClean(loader, loads, m, p, budget, ending);
    }
  }

  lemma UnquotedPrefix(lines: seq<string>, n: nat, heap: nat -> char)
    requires n <= |lines|
    ensures Unquoted(Assignments(lines[..n], heap, 0)) <= Unquoted(Assignments(lines, heap, 0))
    ensures n == |lines| ==> Assignments(lines[..n], heap, 0) == Assignments(lines, heap, 0)
  {
    AssignmentsPrefix(lines, n, heap, 0);
  }

  lemma ProcessedAll(n: nat, lines: seq<string>, heap: nat -> char, st: State, end: Step, sys: Interpreter)
    requires L.Processed(n, lines, heap, st, end, sys)
    ensures end.error == NoError ==> n == |lines|
  {}

  const NothingSet := State([], false, false, "", "", [])

  method NewLoader() returns (loader: L.ConfLoader)
    ensures loader.Valid() && fresh(loader.Footprint()) && loader.reader.readLen == 0
    ensures loader.settings.Snapshot() == NothingSet && loader.settings.handed == []
  {
    hide M.Chained;
    var file := new R.File("", true);
    var reader := new R.LineReader(file);
    var parser := new P.LineParser();
    var settings := new M.LoaderSettings();
    loader := new L.ConfLoader(reader, parser, settings);
  }

  /** What `start` does up to the kernel: a new loader reads the files of a list. */
  method Start(m: Machine, names: string, budget: nat)
    returns (loader: L.ConfLoader, ending: Ending, ghost loads: seq<Loading>)
    ensures loader.Valid() && fresh(loader.Footprint()) && Mapped(loader.settings)
    ensures OnlyExecStops(loads, ending)
    ensures var p := Point(0, NothingSet, "", [], Words(' ', names));
      && Run(loads, m, p) && Ended(loader, After(p, loads, m), loads, budget, ending, [])
      && (Clean(m, p, budget) && InTurn(m, p, budget).work == [] ==>
            ending == Finished && At(loader, InTurn(m, p, budget)))
  {
    hide O.IsMapOf, Words, Run, After, InTurn, Clean, Ended, OnlyExecStops, L.Apart;
    loader := NewLoader();
    O.EmptyIsMap();
    var count;
    count, ending, loads := ReadConf(loader, m, names, budget);
  }

  /** A new loader loads one file that can be read. */
  method LoadFirst(text: string, heap: nat -> char, sys: Interpreter)
    returns (loader: L.ConfLoader, error: Exception, ghost n: nat)
    ensures loader.Valid() && fresh(loader.Footprint())
    ensures var lines := NonEmptyLines(text);
      && Conf(lines, heap, 0, NothingSet, sys) == Step(loader.settings.Snapshot(), error)
      && n <= |lines| && loader.settings.handed == Assignments(lines[..n], heap, 0)
      && (error == NoError ==> n == |lines|)
  {
    hide Assignments, Conf, NonEmptyLines, L.Processed, R.IsSuffix, L.Apart;
    var file := new R.File(text, true);
    loader := NewLoader();
    assert loader.reader.readBuffer[..loader.reader.readLen] + text == text;
    error, n := loader.LoadConf(file, heap, sys);
    ProcessedAll(n, NonEmptyLines(text), heap, NothingSet, Step(loader.settings.Snapshot(), error), sys);
    assert [] + Assignments(NonEmptyLines(text)[..n], heap, 0) == Assignments(NonEmptyLines(text)[..n], heap, 0);
  }

  /** The round trip through the running loader: a new loader is given a file written from names and
      contents. What it hands over are those names and contents, in order and each once, up to the
      one that raises an exception if there is one, and its settings are what they make of none. */
  method LoadWritten(list: seq<Written>, last: Written, heap: nat -> char, sys: Interpreter)
    returns (loader: L.ConfLoader, error: Exception)
    requires last.Writable() && forall i :: 0 <= i < |list| ==> list[i].Writable()
    requires forall j :: !G.Letter(heap(j))
    ensures loader.Valid() && fresh(loader.Footprint())
    ensures Unquoted(loader.settings.handed) <= Contents(list + [last])
    ensures error == NoError ==> Unquoted(loader.settings.handed) == Contents(list + [last])
    ensures Step(loader.settings.Snapshot(), error)
         == ApplyAll(NothingSet, AllPairs(Items(list + [last])), sys)
  {
    hide Parses, Assignments, Conf, ApplyAll, NonEmptyLines, Unlines, Texts, AllPairs, Unquoted, Contents;
    hide L.Apart;
    var text := Unlines(Texts(Items(list))) + last.Item().Text();
    ghost var n;
    loader, error, n := LoadFirst(text, heap, sys);
    WrittenFileReturns(list, last, heap, NothingSet, sys);
    UnquotedPrefix(NonEmptyLines(text), n, heap);
  }
}
