/** Loading configuration files: the line reader, the line parser and the settings together. */
module ConfLoader {
  import opened Lines
  import opened Settings
  import opened ConfFile
  import R = LineReader
  import P = LineParser
  import M = ModuleOptions

  lemma TakeFirst(lines: seq<string>, k: nat, line: string, rest: seq<string>)
    requires k <= |lines| && lines[k..] == [line] + rest
    ensures k < |lines| && lines[k] == line && lines[k + 1..] == rest
  {
    assert lines[k..][0] == line && lines[k..][1..] == rest;
  }

  /** The first `n` lines lead from `st0` to `st` without an exception. */
  ghost predicate ReachedAfter(n: nat, lines: seq<string>, heap: nat -> char, st0: State, st: State, sys: Interpreter) {
    n <= |lines| && Conf(lines[..n], heap, 0, st0, sys) == Step(st, NoError)
  }

  /** The first `n` lines lead from `st0` to where the processing stopped: all lines if there is no
      exception, and the last of the `n` raises it unless it is a read error, which no line does. */
  ghost predicate Processed(n: nat, lines: seq<string>, heap: nat -> char, st0: State, end: Step, sys: Interpreter) {
    && n <= |lines|
    && if end.error == NoError || end.error == ReadError then
         (end.error == NoError ==> n == |lines|) && ReachedAfter(n, lines, heap, st0, end.st, sys)
       else
         0 < n && Conf(lines[..n], heap, 0, st0, sys) == end && Conf(lines[..n - 1], heap, 0, st0, sys).error == NoError
  }

  lemma ReachedStart(lines: seq<string>, heap: nat -> char, st: State, sys: Interpreter)
    ensures ReachedAfter(0, lines, heap, st, st, sys) && Assignments(lines[..0], heap, 0) == []
  {}

  lemma ReachedEnd(lines: seq<string>, k: nat, heap: nat -> char, st0: State, st: State, sys: Interpreter)
    requires ReachedAfter(k, lines, heap, st0, st, sys) && lines[k..] == []
    ensures Conf(lines, heap, 0, st0, sys) == Step(st, NoError)
    ensures Processed(k, lines, heap, st0, Step(st, NoError), sys)
  {
    assert lines[..k] == lines;
  }

  lemma NextLine(lines: seq<string>, k: nat, heap: nat -> char, st0: State, st: State, sys: Interpreter)
    requires k < |lines| && ReachedAfter(k, lines, heap, st0, st, sys)
    ensures var step := LineStep(lines[k], heap(k), st, sys);
      && (step.error == NoError ==> ReachedAfter(k + 1, lines, heap, st0, step.st, sys))
      && (step.error != NoError ==>
            Processed(k + 1, lines, heap, st0, step, sys) && Conf(lines, heap, 0, st0, sys) == step)
  {
    hide LineStep;
    assert lines[..k + 1] == lines[..k] + [lines[k]];
    ConfAppend(lines[..k], [lines[k]], heap, 0, st0, sys);
    assert lines == lines[..k + 1] + lines[k + 1..];
    ConfAppend(lines[..k + 1], lines[k + 1..], heap, 0, st0, sys);
  }

  lemma EmptyLine(beyond: char, st: State, sys: Interpreter)
    ensures LineStep([], beyond, st, sys) == Step(st, NoError) && Assigned(P.ParseLine([], beyond)) == []
  {}

  /** What one more line read does to the lines still to come and to the state reached. */
  lemma LineDone(lines: seq<string>, k: nat, line: string, rest: seq<string>,
                 heap: nat -> char, st0: State, st: State, sys: Interpreter)
    requires ReachedAfter(k, lines, heap, st0, st, sys)
    requires lines[k..] == (if line == [] then [] else [line]) + rest
    ensures var step := LineStep(line, heap(k), st, sys);
      var k' := if line == [] then k else k + 1;
      && k' <= |lines| && lines[k'..] == rest
      && Assignments(lines[..k'], heap, 0)
           == Assignments(lines[..k], heap, 0) + Assigned(P.ParseLine(line, heap(k)))
      && (step.error == NoError ==> ReachedAfter(k', lines, heap, st0, step.st, sys))
      && (step.error != NoError ==>
            Processed(k', lines, heap, st0, step, sys) && Conf(lines, heap, 0, st0, sys) == step)
  {
    if line == [] {
      assert lines[k..] == rest;
      EmptyLine(heap(k), st, sys);
    } else {
      hide LineStep, Conf, P.ParseLine;
      TakeFirst(lines, k, line, rest);
      assert lines[..k + 1] == lines[..k] + [line];
      AssignmentsAppend(lines[..k], line, heap, 0);
      NextLine(lines, k, heap, st0, st, sys);
    }
  }

  /** What a load starts with: the lines pending, the settings, the text held and the assignments
      handed over before. */
  datatype Start = Start(lines: seq<string>, st: State, held: string, handed: seq<Pair>)

  /** The parts are valid and share nothing. */
  ghost predicate Apart(reader: R.LineReader, parser: P.LineParser, settings: M.LoaderSettings)
    reads reader, reader.Footprint(), settings, settings.Repr
    ensures Apart(reader, parser, settings) ==>
      && reader.readPtr <= reader.readLen <= reader.readBuffer.Length
      && (reader.endOfFile ==> reader.readLen == 0 && reader.file.Rest() == [])
  {
    && reader.Valid() && settings.Valid()
    && parser !in settings.Repr && parser !in reader.Footprint() && reader.Footprint() !! settings.Repr
  }

  class ConfLoader {
    const reader: R.LineReader
    const parser: P.LineParser
    const settings: M.LoaderSettings

    ghost predicate Valid()
      reads this, reader, reader.Footprint(), settings, settings.Repr
    {
      Apart(reader, parser, settings)
    }

    constructor (reader: R.LineReader, parser: P.LineParser, settings: M.LoaderSettings)
      requires reader.Valid() && settings.Valid()
      requires parser !in settings.Repr && reader.Footprint() !! settings.Repr
      ensures Valid() && this.reader == reader && this.parser == parser && this.settings == settings
    {
      this.reader, this.parser, this.settings := reader, parser, settings;
    }

    ghost function Footprint(): set<object>
      reads this, reader, settings
    {
      {parser} + settings.Repr + reader.Footprint()
    }

    /** Frees the buffers of the parser and reads one line. Returns false on a read error. */
    method ReadNext() returns (ok: bool, line: string)
      requires Valid()
      modifies parser, reader.Footprint()
      ensures Valid() && reader.file == old(reader.file) && unchanged(settings.Repr)
      ensures fresh(reader.Footprint() - old(reader.Footprint()))
      ensures parser.nameBuffer == [] && parser.valueBuffer == []
      ensures !ok ==> !reader.file.reliable
      ensures ok ==> reader.Took(line, old(reader.Pending()), old(reader.Held()))
      ensures ok && !old(reader.endOfFile) ==> reader.Remaining() < old(reader.Remaining())
    {
      hide NonEmptyLines, R.IsSuffix, M.Chained;
      line := [];
      parser.FreeBuffers();
      ok := reader.ReadLine();
      if ok {
        line := reader.lineBuffer[..reader.lineLen];
      }
    }

    /** Parses a line and acts on it. */
    method ProcessLine(line: string, beyond: char, sys: Interpreter) returns (error: Exception)
      requires Valid() && parser.nameBuffer == [] && parser.valueBuffer == []
      modifies parser, settings.Repr
      ensures Valid() && fresh(settings.Repr - old(settings.Repr))
      ensures Step(settings.Snapshot(), error) == LineStep(line, beyond, old(settings.Snapshot()), sys)
      ensures settings.handed == old(settings.handed) + Assigned(P.ParseLine(line, beyond))
      ensures error != ReadError
    {
      hide Apply, P.ParseLine, M.Chained;
      var ok := parser.GetAssignment(line, beyond);
      if !ok {
        return SyntaxError;
      }
      LineStepIs(line, beyond, settings.Snapshot(), sys, parser.nameBuffer, parser.valueBuffer);
      error := settings.ProcessAssignment(parser.nameBuffer, parser.valueBuffer, sys);
      parser.FreeBuffers();
    }

    /** Reads one line and acts on it. `line` is what was read. */
    method ProcessNext(beyond: char, sys: Interpreter) returns (error: Exception, line: string)
      requires Valid()
      modifies Footprint()
      ensures Valid() && reader.file == old(reader.file) && fresh(Footprint() - old(Footprint()))
      ensures error == ReadError ==>
        && settings.Snapshot() == old(settings.Snapshot()) && settings.handed == old(settings.handed)
        && !reader.file.reliable
      ensures error != ReadError ==>
        && settings.handed == old(settings.handed) + Assigned(P.ParseLine(line, beyond))
        && reader.Took(line, old(reader.Pending()), old(reader.Held()))
        && LineStep(line, beyond, old(settings.Snapshot()), sys) == Step(settings.Snapshot(), error)
      ensures error != ReadError && !old(reader.endOfFile) ==> reader.Remaining() < old(reader.Remaining())
    {
      hide LineStep, NonEmptyLines, R.IsSuffix, M.Chained;
      var ok;
      ok, line := ReadNext();
      if !ok {
        return ReadError, [];
      }
      error := ProcessLine(line, beyond, sys);
    }

    /** The first `k` lines have been read and processed without an exception. */
    ghost predicate At(k: nat, start: Start, heap: nat -> char, sys: Interpreter)
      reads settings, reader, reader.readBuffer, reader.file
      requires reader.readPtr <= reader.readLen <= reader.readBuffer.Length
    {
      && ReachedAfter(k, start.lines, heap, start.st, settings.Snapshot(), sys)
      && k <= |start.lines| && settings.handed == start.handed + Assignments(start.lines[..k], heap, 0)
      && start.lines[k..] == NonEmptyLines(reader.Pending())
      && R.IsSuffix(reader.Held(), start.held)
    }

    /** One turn of the loop over the lines. */
    method Turn(k: nat, ghost start: Start, heap: nat -> char, sys: Interpreter)
      returns (error: Exception, k': nat)
      requires Valid() && !reader.endOfFile && At(k, start, heap, sys)
      modifies Footprint()
      ensures Valid() && reader.file == old(reader.file) && fresh(Footprint() - old(Footprint()))
      ensures error == NoError ==> At(k', start, heap, sys) && reader.Remaining() < old(reader.Remaining())
      ensures error == ReadError ==> !reader.file.reliable
      ensures error != NoError ==>
        && Processed(k', start.lines, heap, start.st, Step(settings.Snapshot(), error), sys) && k' <= |start.lines|
        && settings.handed == start.handed + Assignments(start.lines[..k'], heap, 0)
      ensures error != NoError && error != ReadError ==>
        && Conf(start.lines, heap, 0, start.st, sys) == Step(settings.Snapshot(), error)
        && R.IsSuffix(reader.Held(), start.held)
    {
      hide LineStep, NonEmptyLines, Conf, ReachedAfter, Assignments, Assigned, P.ParseLine, R.IsSuffix, Apart;
      ghost var st, held := settings.Snapshot(), reader.Held();
      var line;
      k' := k;
      error, line := ProcessNext(heap(k), sys);
      if error != ReadError {
        R.SuffixOfSuffix(reader.Held(), held, start.held);
        LineDone(start.lines, k, line, NonEmptyLines(reader.Pending()), heap, start.st, st, sys);
        k' := if line == [] then k else k + 1;
      }
    }

    /** Reads and processes lines until the end of the file or the first exception. `heap(k)` is
        the character in memory just after the k-th non-empty line. */
    method ProcessConf(heap: nat -> char, sys: Interpreter) returns (error: Exception, ghost n: nat)
      requires Valid()
      modifies Footprint()
      ensures Valid() && reader.file == old(reader.file) && fresh(Footprint() - old(Footprint()))
      ensures error != ReadError ==>
        Step(settings.Snapshot(), error)
          == Conf(NonEmptyLines(old(reader.Pending())), heap, 0, old(settings.Snapshot()), sys)
      ensures var lines := NonEmptyLines(old(reader.Pending()));
        && Processed(n, lines, heap, old(settings.Snapshot()), Step(settings.Snapshot(), error), sys)
        && n <= |lines| && settings.handed == old(settings.handed) + Assignments(lines[..n], heap, 0)
      ensures error == ReadError ==> !reader.file.reliable
      ensures error != ReadError ==> R.IsSuffix(reader.Held(), old(reader.Held()))
      ensures error == NoError ==> reader.endOfFile
    {
      hide NonEmptyLines, Conf, ReachedAfter, Processed, Assignments, R.IsSuffix, Apart;
      ghost var start :=
        Start(NonEmptyLines(reader.Pending()), settings.Snapshot(), reader.Held(), settings.handed);
      var k := 0;
      R.SuffixAfter([], start.held);
      ReachedStart(start.lines, heap, start.st, sys);
      while !reader.endOfFile
        invariant Valid() && reader.file == old(reader.file) && fresh(Footprint() - old(Footprint()))
        invariant At(k, start, heap, sys)
        decreases reader.Remaining()
      {
        error, k := Turn(k, start, heap, sys);
        if error != NoError {
          n := k;
          return;
        }
      }
      n := k;
      assert reader.Pending() == [];
      NoLines();
      ReachedEnd(start.lines, k, heap, start.st, settings.Snapshot(), sys);
      error := NoError;
    }

    /** Loads one file. `resetLineReading` leaves the buffered text of an earlier load in place,
        so that text is read again in front of the file; after a load without an exception
        there is none. */
    method LoadConf(file: R.File?, heap: nat -> char, sys: Interpreter) returns (error: Exception, ghost n: nat)
      requires Valid() && (file != null ==> file.pos == 0 && file !in Footprint())
      modifies Footprint(), if file == null then {} else {file}
      ensures Valid()
      ensures file == null ==>
        error == OpenError && settings.Snapshot() == old(settings.Snapshot()) && settings.handed == old(settings.handed)
      ensures file != null && error != ReadError ==>
        var stale := old(reader.readBuffer[..reader.readLen]);
        Step(settings.Snapshot(), error)
          == Conf(NonEmptyLines(stale + file.data), heap, 0, old(settings.Snapshot()), sys)
      ensures file != null ==>
        var lines := NonEmptyLines(old(reader.readBuffer[..reader.readLen]) + file.data);
        && Processed(n, lines, heap, old(settings.Snapshot()), Step(settings.Snapshot(), error), sys)
        && n <= |lines| && settings.handed == old(settings.handed) + Assignments(lines[..n], heap, 0)
      ensures file != null && error == ReadError ==> !file.reliable
      ensures error == NoError ==> reader.readLen == 0
      // After an exception the buffer holds the end of what was read, whatever part of it was processed.
      ensures file != null && error != ReadError ==>
        var stale := old(reader.readBuffer[..reader.readLen]);
        R.IsSuffix(reader.readBuffer[..reader.readLen] + file.Rest(), stale + file.data)
      ensures file == null ==> reader.readBuffer[..reader.readLen] == old(reader.readBuffer[..reader.readLen])
      ensures fresh(Footprint() - old(Footprint()) - if file == null then {} else {file})
    {
      hide Conf, NonEmptyLines, ReachedAfter, Processed, Assignments, R.IsSuffix, M.Chained;
      reader.StartLoad(file);
      if file == null {
        return OpenError, 0;
      }
      error, n := ProcessConf(heap, sys);
    }
  }
}
