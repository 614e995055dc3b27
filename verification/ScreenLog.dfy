/** The console as a reader would describe it: a log of rows that only grows, seen
    through a window of 24 rows. */
module ScreenLog {
  import opened Numerals

  const COLUMNS: nat := 80
  const ROWS: nat := 24
  const CELLS: nat := 1920

  /** `cells` holds all rows one after the other, `top` is the first row in the window. The
      cursor may stand just past the window, after a row was filled to its end. */
  datatype Log = Log(cells: seq<byte>, top: nat, cursor: nat)
  {
    ghost predicate Valid() {
      |cells| == COLUMNS * top + CELLS && COLUMNS * top <= cursor <= |cells|
    }
  }

  function BlankRow(): seq<byte> { seq(COLUMNS, _ => 0) }

  /** Brings the cursor into the window, one row further down if need be. */
  function Access(log: Log): Log {
    if log.cursor < |log.cells| then log
    else Log(log.cells + BlankRow(), log.top + 1, log.cursor)
  }

  function Put(log: Log, c: byte): Log
    requires log.Valid()
  {
    var there := Access(log);
    Log(there.cells[there.cursor := c], there.top, there.cursor + 1)
  }

  lemma PutValid(log: Log, c: byte)
    requires log.Valid()
    ensures Put(log, c).Valid() && Access(log).Valid()
  {}

  function PutAll(log: Log, text: seq<byte>): (r: Log)
    requires log.Valid()
    ensures r.Valid()
    decreases |text|
  {
    if text == [] then log
    else
      PutValid(log, text[0]);
      PutAll(Put(log, text[0]), text[1..])
  }

  function NextRow(cursor: nat): nat { (cursor / COLUMNS + 1) * COLUMNS }

  function NewLine(log: Log): (r: Log)
    requires log.Valid()
    ensures r.Valid()
  {
    var there := Access(log);
    Access(Log(there.cells, there.top, NextRow(there.cursor)))
  }

  /** What one conversion or character of a format prints. */
  datatype Piece = Chars(text: seq<byte>) | LineBreak

  function Print(log: Log, piece: Piece): (r: Log)
    requires log.Valid()
    ensures r.Valid()
  {
    match piece
    case Chars(text) => PutAll(Access(log), text)
    case LineBreak => NewLine(log)
  }

  function Run(log: Log, pieces: seq<Piece>): (r: Log)
    requires log.Valid()
    ensures r.Valid()
    decreases |pieces|
  {
    if pieces == [] then log else Run(Print(log, pieces[0]), pieces[1..])
  }

  /** Where the cursor goes, with no window in sight. */
  function Move(cursor: nat, piece: Piece): nat {
    match piece
    case Chars(text) => cursor + |text|
    case LineBreak => NextRow(cursor)
  }

  function MoveAll(cursor: nat, pieces: seq<Piece>): nat
    decreases |pieces|
  {
    if pieces == [] then cursor else MoveAll(Move(cursor, pieces[0]), pieces[1..])
  }

  /** What the log holds at cell `i` after printing, said without the log: the character that
      falls on that cell, or what was there before. */
  function At(cursor: nat, pieces: seq<Piece>, i: nat, before: byte): byte
    decreases |pieces|
  {
    if pieces == [] then before
    else
      var here := if pieces[0].Chars? && cursor <= i < cursor + |pieces[0].text|
                  then pieces[0].text[i - cursor] else before;
      At(Move(cursor, pieces[0]), pieces[1..], i, here)
  }

  function CellOr(cells: seq<byte>, i: nat): byte {
    if i < |cells| then cells[i] else 0
  }

  /** `after` is `before` with `text` laid over it from cell `start` on. */
  ghost predicate Overlaid(before: seq<byte>, after: seq<byte>, start: nat, text: seq<byte>) {
    && |before| <= |after|
    && forall i :: 0 <= i < |after| ==>
         after[i] == if start <= i < start + |text| then text[i - start] else CellOr(before, i)
  }

  /** The window moves no further than the cursor makes it. */
  ghost predicate Follows(before: Log, after: Log) {
    && before.top <= after.top
    && (before.top < after.top ==> COLUMNS * (after.top + ROWS - 1) <= after.cursor)
  }

  lemma AccessMeans(log: Log)
    requires log.Valid()
    ensures Access(log).Valid() && Follows(log, Access(log))
    ensures Overlaid(log.cells, Access(log).cells, log.cursor, [])
    ensures Access(log).cursor == log.cursor < |Access(log).cells|
  {}

  lemma {:induction false} PutAllMeans(log: Log, text: seq<byte>)
    requires log.Valid()
    ensures var r := PutAll(log, text);
      r.cursor == log.cursor + |text| && Follows(log, r) && Overlaid(log.cells, r.cells, log.cursor, text)
    decreases |text|
  {
    if text != [] {
      AccessMeans(log);
      PutAllMeans(Put(log, text[0]), text[1..]);
    }
  }

  lemma NewLineMeans(log: Log)
    requires log.Valid()
    ensures var r := NewLine(log);
      r.cursor == NextRow(log.cursor) && Follows(log, r) && Overlaid(log.cells, r.cells, log.cursor, [])
  {
    AccessMeans(log);
    var there := Access(log);
    AccessMeans(Log(there.cells, there.top, NextRow(there.cursor)));
  }

  lemma PrintMeans(log: Log, piece: Piece)
    requires log.Valid()
    ensures var r := Print(log, piece);
      && r.cursor == Move(log.cursor, piece) && Follows(log, r)
      && Overlaid(log.cells, r.cells, log.cursor, if piece.Chars? then piece.text else [])
  {
    AccessMeans(log);
    match piece
    case Chars(text) => PutAllMeans(Access(log), text);
    case LineBreak => NewLineMeans(log);
  }

  lemma RowAhead(cursor: nat)
    ensures cursor < NextRow(cursor) <= cursor + COLUMNS
  {}

  lemma {:induction false} MoveForward(cursor: nat, pieces: seq<Piece>)
    ensures cursor <= MoveAll(cursor, pieces)
    decreases |pieces|
  {
    if pieces != [] {
      MoveForward(Move(cursor, pieces[0]), pieces[1..]);
      RowAhead(cursor);
    }
  }

  /** Nothing printed is ever lost from the log: the cursor moves as if there were no window,
      every cell holds the character that falls on it, and the window follows the cursor. */
  lemma {:induction false} RunMeans(log: Log, pieces: seq<Piece>)
    requires log.Valid()
    ensures var r := Run(log, pieces);
      && r.cursor == MoveAll(log.cursor, pieces) && Follows(log, r) && |log.cells| <= |r.cells|
      && forall i :: 0 <= i < |r.cells| ==> r.cells[i] == At(log.cursor, pieces, i, CellOr(log.cells, i))
    decreases |pieces|
  {
    if pieces != [] {
      PrintMeans(log, pieces[0]);
      RunMeans(Print(log, pieces[0]), pieces[1..]);
      MoveForward(Move(log.cursor, pieces[0]), pieces[1..]);
    }
  }

  /** No two characters fall on one cell: a cell already passed keeps what it holds. */
  lemma {:induction false} PassedCellsStay(cursor: nat, pieces: seq<Piece>, i: nat, before: byte)
    requires i < cursor
    ensures At(cursor, pieces, i, before) == before
    decreases |pieces|
  {
    if pieces != [] {
      RowAhead(cursor);
      PassedCellsStay(Move(cursor, pieces[0]), pieces[1..], i, before);
    }
  }

  lemma CursorInside(log: Log)
    requires log.Valid()
    ensures log.cursor <= |log.cells|
  {}

  /** So a character stays in the log whatever is printed after it. */
  lemma CharacterStays(log: Log, text: seq<byte>, rest: seq<Piece>, k: nat)
    requires log.Valid() && k < |text|
    ensures var r := Run(log, [Chars(text)] + rest);
      log.cursor + k < |r.cells| && r.cells[log.cursor + k] == text[k]
  {
    hide Run, CellOr;
    var pieces, i := [Chars(text)] + rest, log.cursor + k;
    assert pieces[0] == Chars(text) && pieces[1..] == rest;
    RunMeans(log, pieces);
    MoveForward(log.cursor + |text|, rest);
    CursorInside(Run(log, pieces));
    var before := CellOr(log.cells, i);
    assert At(log.cursor, pieces, i, before) == At(log.cursor + |text|, rest, i, text[k]);
    PassedCellsStay(log.cursor + |text|, rest, i, text[k]);
  }
}
