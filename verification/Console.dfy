/** The kernel console: video memory, a cursor, and the printers that write through it. */
module Console {
  import opened Numerals
  import opened ScreenLog

  const SCREEN_WIDTH: nat := 160
  const SCREEN_HEIGHT: nat := 24
  const ATTRIBUTE: byte := 0x07

  /** The visible rows: a character and an attribute for each cell. */
  const SCREEN: nat := 3840

  /** The screen and the cursor agree with the window of the log. */
  ghost predicate Shows(memory: seq<byte>, height: nat, width: nat, log: Log)
    requires SCREEN <= |memory|
  {
    && log.Valid()
    && width % 2 == 0 && width < SCREEN_WIDTH
    && height * COLUMNS + width / 2 == log.cursor - COLUMNS * log.top
    && (forall i :: 0 <= i < CELLS ==> memory[2 * i] == log.cells[COLUMNS * log.top + i])
  }

  ghost predicate White(memory: seq<byte>)
    requires SCREEN <= |memory|
  {
    forall i :: 0 <= i < CELLS ==> memory[2 * i + 1] == ATTRIBUTE
  }

  /** `text` was written from `offset` on, two bytes for each character, and nothing else. */
  ghost predicate Written(before: seq<byte>, after: seq<byte>, offset: nat, text: seq<byte>) {
    && |after| == |before|
    && forall k :: 0 <= k < |before| ==>
         after[k] ==
           if k < offset || offset + 2 * |text| <= k then before[k]
           else if (k - offset) % 2 == 0 then text[(k - offset) / 2]
           else ATTRIBUTE
  }

  /** All rows moved up by one, with a blank one at the bottom. */
  ghost predicate ScrolledUp(before: seq<byte>, after: seq<byte>) {
    && SCREEN <= |before| == |after|
    && (forall k :: 0 <= k < SCREEN - SCREEN_WIDTH ==> after[k] == before[k + SCREEN_WIDTH])
    && (forall k :: SCREEN - SCREEN_WIDTH <= k < SCREEN ==> after[k] == if k % 2 == 0 then 0 else ATTRIBUTE)
    && (forall k :: SCREEN <= k < |before| ==> after[k] == before[k])
  }

  /** Where a cell of the log is in video memory, and its attribute. */
  lemma CellAt(memory: seq<byte>, height: nat, width: nat, log: Log, row: nat, column: nat)
    requires SCREEN <= |memory| && Shows(memory, height, width, log) && row < 24 && column < 80
    ensures |log.cells| == 80 * (log.top + 24) && 160 * row + 2 * column + 1 < |memory|
    ensures memory[160 * row + 2 * column] == log.cells[80 * (log.top + row) + column]
    ensures White(memory) ==> memory[160 * row + 2 * column + 1] == 7
    ensures log.cursor == 80 * (log.top + height) + width / 2
  {
    var i := 80 * row + column;
    assert memory[2 * i] == log.cells[COLUMNS * log.top + i];
  }

  lemma ScrollShows(before: seq<byte>, after: seq<byte>, height: nat, width: nat, log: Log)
    requires SCREEN <= |before| && Shows(before, height, width, log)
    requires SCREEN_HEIGHT <= height && ScrolledUp(before, after)
    ensures Shows(after, SCREEN_HEIGHT - 1, 0, Access(log))
  {
    assert height == SCREEN_HEIGHT && width == 0;
    var moved := Access(log);
    forall i | 0 <= i < CELLS ensures after[2 * i] == moved.cells[COLUMNS * moved.top + i] {
      if i < CELLS - COLUMNS {
        assert after[2 * i] == before[2 * (i + COLUMNS)];
      }
    }
  }

  lemma ScrollWhite(before: seq<byte>, after: seq<byte>)
    requires ScrolledUp(before, after) && White(before)
    ensures White(after)
  {
    forall i | 0 <= i < CELLS ensures after[2 * i + 1] == ATTRIBUTE {
      if i < CELLS - COLUMNS {
        assert after[2 * i + 1] == before[2 * (i + COLUMNS) + 1];
      }
    }
  }

  lemma WrittenAt(before: seq<byte>, after: seq<byte>, offset: nat, text: seq<byte>, i: nat)
    requires Written(before, after, offset, text) && offset % 2 == 0 && 2 * i + 1 < |before|
    ensures after[2 * i] == if offset / 2 <= i < offset / 2 + |text| then text[i - offset / 2] else before[2 * i]
    ensures after[2 * i + 1] == if offset / 2 <= i < offset / 2 + |text| then ATTRIBUTE else before[2 * i + 1]
  {
    assert (2 * i - offset) / 2 == i - offset / 2;
  }

  lemma WriteKeepsWhite(before: seq<byte>, after: seq<byte>, offset: nat, text: seq<byte>)
    requires SCREEN <= |before| && Written(before, after, offset, text) && offset % 2 == 0
    ensures White(before) ==> White(after)
  {
    forall i | 0 <= i < CELLS && White(before) ensures after[2 * i + 1] == ATTRIBUTE {
      WrittenAt(before, after, offset, text, i);
    }
  }

  lemma {:induction false} PutAllInside(log: Log, text: seq<byte>)
    requires log.Valid() && log.cursor + |text| <= |log.cells|
    ensures PutAll(log, text).top == log.top
    decreases |text|
  {
    if text != [] {
      PutAllInside(Put(log, text[0]), text[1..]);
    }
  }

  lemma CursorOf(end: nat)
    requires end % 2 == 0
    ensures end / SCREEN_WIDTH * COLUMNS + end % SCREEN_WIDTH / 2 == end / 2
    ensures end % SCREEN_WIDTH % 2 == 0
  {}

  /** Text that fits on the screen is shown as the log has it. */
  lemma WriteShows(before: seq<byte>, after: seq<byte>, height: nat, width: nat, log: Log, text: seq<byte>)
    requires SCREEN <= |before| && Shows(before, height, width, log)
    requires var offset := height * SCREEN_WIDTH + width;
      Written(before, after, offset, text) && offset + 2 * |text| <= SCREEN
    ensures var end := height * SCREEN_WIDTH + width + 2 * |text|;
      Shows(after, end / SCREEN_WIDTH, end % SCREEN_WIDTH, PutAll(log, text))
    ensures White(before) ==> White(after)
  {
    hide PutAll, White;
    var offset := height * SCREEN_WIDTH + width;
    var shown := PutAll(log, text);
    PutAllMeans(log, text);
    PutAllInside(log, text);
    assert offset / 2 == log.cursor - COLUMNS * log.top;
    forall i | 0 <= i < CELLS ensures after[2 * i] == shown.cells[COLUMNS * log.top + i] {
      WrittenAt(before, after, offset, text, i);
    }
    CursorOf(offset + 2 * |text|);
    WriteKeepsWhite(before, after, offset, text);
  }

  /** Text that does not fit leaves a cursor that no log has: it stands past the bottom row. */
  lemma OverflowShowsNothing(memory: seq<byte>, end: nat, log: Log)
    requires SCREEN <= |memory| && SCREEN < end && end % 2 == 0
    ensures !Shows(memory, end / SCREEN_WIDTH, end % SCREEN_WIDTH, log)
  {
    CursorOf(end);
  }

  lemma WrittenMore(before: seq<byte>, mid: seq<byte>, after: seq<byte>, offset: nat, text: seq<byte>, c: byte)
    requires Written(before, mid, offset, text) && offset + 2 * |text| + 2 <= |before|
    requires var end := offset + 2 * |text|; after == mid[end := c][end + 1 := ATTRIBUTE]
    ensures Written(before, after, offset, text + [c])
  {}

  /** An argument of the printer. */
  datatype Argument =
    | Text(text: seq<byte>)
    | Signed(value: int)
    | Unsigned(number: nat)
    | Character(c: byte)
    | Address(address: nat)

  const PERCENT: byte := 37
  const LINE_FEED: byte := 10

  datatype Conversion = AsString | AsSigned | AsUnsigned | AsChar | AsAddress | Unknown
  {
    /** The argument has the type the conversion asks for. The least `int` has no negation. */
    predicate Takes(arg: Argument) {
      match this
      case AsString => arg.Text?
      case AsSigned => arg.Signed? && -0x8000_0000 < arg.value < 0x8000_0000
      case AsUnsigned => arg.Unsigned? && arg.number < 0x1_0000_0000
      case AsChar => arg.Character?
      case AsAddress => arg.Address? && arg.address < 0x1_0000_0000_0000_0000
      case Unknown => false
    }

    /** `%x` prints a decimal number. */
    function Show(arg: Argument): seq<byte>
      requires Takes(arg)
    {
      match this
      case AsString => arg.text
      case AsSigned => SignedNumeral(arg.value)
      case AsUnsigned => Numeral(arg.number, 10)
      case AsChar => [arg.c]
      case AsAddress => AddressText(arg.address)
    }
  }

  function ConversionOf(letter: byte): Conversion {
    if letter == 115 then AsString
    else if letter == 100 then AsSigned
    else if letter == 120 then AsUnsigned
    else if letter == 99 then AsChar
    else if letter == 112 then AsAddress
    else Unknown
  }

  /** Every `%` has a letter after it, and every conversion an argument of its type. */
  predicate Matches(format: seq<byte>, args: seq<Argument>)
    decreases |format|
  {
    if format == [] then true
    else if format[0] != PERCENT then Matches(format[1..], args)
    else if |format| == 1 then false
    else
      var conversion := ConversionOf(format[1]);
      if conversion.Unknown? then Matches(format[2..], args)
      else args != [] && conversion.Takes(args[0]) && Matches(format[2..], args[1..])
  }

  /** What a format prints. An unknown conversion prints nothing. */
  function Pieces(format: seq<byte>, args: seq<Argument>): seq<Piece>
    requires Matches(format, args)
    decreases |format|
  {
    if format == [] then []
    else if format[0] == LINE_FEED then [LineBreak] + Pieces(format[1..], args)
    else if format[0] != PERCENT then [Chars([format[0]])] + Pieces(format[1..], args)
    else
      var conversion := ConversionOf(format[1]);
      if conversion.Unknown? then Pieces(format[2..], args)
      else [Chars(conversion.Show(args[0]))] + Pieces(format[2..], args[1..])
  }

  /** The same, with every argument used up. */
  predicate Exact(format: seq<byte>, args: seq<Argument>)
    decreases |format|
  {
    if format == [] then args == []
    else if format[0] != PERCENT then Exact(format[1..], args)
    else if |format| == 1 then false
    else
      var conversion := ConversionOf(format[1]);
      if conversion.Unknown? then Exact(format[2..], args)
      else args != [] && conversion.Takes(args[0]) && Exact(format[2..], args[1..])
  }

  /** Formats that follow each other print one after the other. */
  lemma {:induction false} PiecesAppend(
    first: seq<byte>, firstArgs: seq<Argument>, rest: seq<byte>, restArgs: seq<Argument>)
    requires Exact(first, firstArgs) && Matches(rest, restArgs)
    ensures Matches(first, firstArgs) && Matches(first + rest, firstArgs + restArgs)
    ensures Pieces(first + rest, firstArgs + restArgs) == Pieces(first, firstArgs) + Pieces(rest, restArgs)
    decreases |first|
  {
    hide ConversionOf;
    var format, args := first + rest, firstArgs + restArgs;
    if first == [] {
      assert format == rest && args == restArgs;
    } else if first[0] != PERCENT {
      assert format[1..] == first[1..] + rest;
      PiecesAppend(first[1..], firstArgs, rest, restArgs);
    } else {
      assert format[2..] == first[2..] + rest && format[1] == first[1];
      if ConversionOf(first[1]).Unknown? {
        PiecesAppend(first[2..], firstArgs, rest, restArgs);
      } else {
        assert args[1..] == firstArgs[1..] + restArgs && args[0] == firstArgs[0];
        PiecesAppend(first[2..], firstArgs[1..], rest, restArgs);
      }
    }
  }

  lemma OneConversion(letter: byte, arg: Argument)
    requires ConversionOf(letter).Takes(arg)
    ensures Exact([37, letter], [arg]) && Matches([37, letter], [arg])
    ensures Pieces([37, letter], [arg]) == [Chars(ConversionOf(letter).Show(arg))]
  {
    var format: seq<byte>, args := [37, letter], [arg];
    assert format[2..] == [] && args[1..] == [];
  }

  /** `%d` prints a decimal number that reads back, after a minus sign if it is negative. */
  lemma SignedPieces(v: int) returns (t: seq<byte>)
    requires -0x8000_0000 < v < 0x8000_0000
    ensures Exact([37, 100], [Signed(v)]) && Matches([37, 100], [Signed(v)])
    ensures Pieces([37, 100], [Signed(v)]) == [Chars(t)] && ParseSigned(t) == v
    ensures if v < 0 then t != [] && t[0] == 45 && Decimal(t[1..]) else Decimal(t)
  {
    OneConversion(100, Signed(v));
    t := SignedNumeral(v);
    SignedNumeralReadsBack(v);
    NumeralIsDecimal(if v < 0 then -v else v);
    assert v < 0 ==> t[1..] == Numeral(-v, 10);
  }

  /** `%x` prints a decimal number that reads back. */
  lemma UnsignedPieces(n: nat) returns (t: seq<byte>)
    requires n < 0x1_0000_0000
    ensures Exact([37, 120], [Unsigned(n)]) && Matches([37, 120], [Unsigned(n)])
    ensures Pieces([37, 120], [Unsigned(n)]) == [Chars(t)] && Parse(t, 10) == n && Decimal(t)
  {
    OneConversion(120, Unsigned(n));
    t := Numeral(n, 10);
    NumeralReadsBack(n, 10);
    NumeralIsDecimal(n);
  }

  /** `%p` prints `0`, or a NUL and an upper-case hexadecimal number that reads back. */
  lemma AddressPieces(address: nat) returns (t: seq<byte>)
    requires address < 0x1_0000_0000_0000_0000
    ensures Exact([37, 112], [Address(address)]) && Matches([37, 112], [Address(address)])
    ensures Pieces([37, 112], [Address(address)]) == [Chars(t)]
    ensures if address == 0 then t == [48]
            else t != [] && t[0] == 0 && Hexadecimal(t[1..]) && Parse(t[1..], 16) == address
  {
    OneConversion(112, Address(address));
    t := AddressText(address);
    NumeralReadsBack(address, 16);
    if address != 0 {
      NumeralIsHexadecimal(address);
      assert t[1..] == Numeral(address, 16);
    }
  }

  /** `%s` and `%c` print their argument, an unknown conversion prints nothing, and other characters
      print themselves. */
  lemma TextPieces(text: seq<byte>, c: byte, letter: byte)
    ensures Exact([37, 115], [Text(text)]) && Matches([37, 115], [Text(text)])
    ensures Pieces([37, 115], [Text(text)]) == [Chars(text)]
    ensures Exact([37, 99], [Character(c)]) && Matches([37, 99], [Character(c)])
    ensures Pieces([37, 99], [Character(c)]) == [Chars([c])]
    ensures letter !in [115, 100, 120, 99, 112] ==>
      Exact([37, letter], []) && Matches([37, letter], []) && Pieces([37, letter], []) == []
    ensures c != 37 ==> Exact([c], []) && Matches([c], [])
    ensures c != 37 ==> Pieces([c], []) == [if c == 10 then LineBreak else Chars([c])]
  {
    OneConversion(115, Text(text));
    OneConversion(99, Character(c));
    assert [37 as byte, letter][2..] == [] && [c][1..] == [];
  }

  /** The piece fits in the cells left on the screen. */
  ghost predicate FitsNow(log: Log, piece: Piece) {
    piece.Chars? ==> log.cursor + |piece.text| <= |Access(log).cells|
  }

  /** Each piece fits when its turn comes. */
  ghost predicate Fits(log: Log, pieces: seq<Piece>)
    requires log.Valid()
    decreases |pieces|
  {
    pieces != [] ==> FitsNow(log, pieces[0]) && Fits(Print(log, pieces[0]), pieces[1..])
  }

  /** No piece runs past the end of video memory, wherever on the screen it starts. */
  predicate Mapped(pieces: seq<Piece>, size: nat) {
    forall i :: 0 <= i < |pieces| && pieces[i].Chars? ==> SCREEN + 2 * |pieces[i].text| <= size
  }

  lemma StepPercent(format: seq<byte>, args: seq<Argument>, f: nat, a: nat)
    requires f < |format| && a <= |args| && format[f] == PERCENT && Matches(format[f..], args[a..])
    ensures f + 1 < |format|
    ensures var conversion := ConversionOf(format[f + 1]);
      if conversion.Unknown? then
        && Matches(format[f + 2..], args[a..])
        && Pieces(format[f..], args[a..]) == Pieces(format[f + 2..], args[a..])
      else
        && a < |args| && conversion.Takes(args[a]) && Matches(format[f + 2..], args[a + 1..])
        && Pieces(format[f..], args[a..])
             == [Chars(conversion.Show(args[a]))] + Pieces(format[f + 2..], args[a + 1..])
  {
    if f + 1 < |format| {
      assert format[f..][2..] == format[f + 2..];
      assert a < |args| ==> args[a..][1..] == args[a + 1..];
    }
  }

  lemma StepCharacter(format: seq<byte>, args: seq<Argument>, f: nat, a: nat)
    requires f < |format| && a <= |args| && format[f] != PERCENT && Matches(format[f..], args[a..])
    ensures Matches(format[f + 1..], args[a..])
    ensures Pieces(format[f..], args[a..])
         == [if format[f] == LINE_FEED then LineBreak else Chars([format[f]])] + Pieces(format[f + 1..], args[a..])
  {
    assert format[f..][1..] == format[f + 1..];
  }

  lemma StepMapped(pieces: seq<Piece>, size: nat)
    requires pieces != [] && Mapped(pieces, size)
    ensures pieces[0].Chars? ==> SCREEN + 2 * |pieces[0].text| <= size
    ensures Mapped(pieces[1..], size)
  {
    assert forall i :: 0 <= i < |pieces[1..]| ==> pieces[1..][i] == pieces[i + 1];
  }

  lemma NothingLeft(format: seq<byte>, args: seq<Argument>)
    requires format == [] && Matches(format, args)
    ensures Pieces(format, args) == []
  {}

  /** The screen at one moment. */
  datatype Screen = Screen(memory: seq<byte>, height: nat, width: nat)
  {
    ghost predicate Valid() { SCREEN <= |memory| && width % 2 == 0 && width < SCREEN_WIDTH }

    ghost predicate Showing(log: Log) { SCREEN <= |memory| && Shows(memory, height, width, log) }

    /** What is printed next goes on from the log: the screen shows it, or its cursor has run past
        the bottom row, which the next access takes for the end of that row. */
    ghost predicate Resuming(log: Log) {
      && SCREEN <= |memory|
      && if height < SCREEN_HEIGHT then Shows(memory, height, width, log) else Shows(memory, SCREEN_HEIGHT, 0, log)
    }

    /** The rows on the screen as a log of their own. */
    ghost function OnScreen(): Log
      requires SCREEN <= |memory|
    {
      Log(seq(CELLS, i requires 0 <= i < CELLS => memory[2 * i]), 0,
          if height < SCREEN_HEIGHT then height * COLUMNS + width / 2 else CELLS)
    }

    /** The log to go on with: the one expected, if the screen shows it. */
    ghost function Resumed(log: Log): Log {
      if SCREEN <= |memory| && !Showing(log) then OnScreen() else log
    }
  }

  /** Every screen can be printed on, whatever overflowed before. */
  lemma AnyScreenResumes(screen: Screen)
    requires screen.Valid()
    ensures screen.Resuming(screen.OnScreen())
    ensures screen.height < SCREEN_HEIGHT ==> screen.Showing(screen.OnScreen())
  {}

  lemma ShowingResumes(screen: Screen, log: Log)
    requires screen.Valid()
    ensures screen.Showing(log) ==> screen.Resuming(log) && log.Valid()
    ensures screen.Resuming(log) ==> log.Valid()
    ensures screen.Resuming(screen.Resumed(log)) && screen.Resumed(log).Valid()
  {
    AnyScreenResumes(screen);
  }

  /** A cursor past the bottom row makes the next access scroll once: the screen then shows the
      rows below the first, and a blank one with the cursor at its start. */
  lemma OverflowRecovers(before: Screen, after: Screen)
    requires before.Valid() && SCREEN_HEIGHT <= before.height && ScrolledUp(before.memory, after.memory)
    requires after.height == SCREEN_HEIGHT - 1 && after.width == 0
    ensures after.Showing(Access(before.OnScreen()))
    ensures forall i :: 0 <= i < CELLS ==>
      after.memory[2 * i] == if i < CELLS - COLUMNS then before.memory[2 * (i + COLUMNS)] else 0
  {
    AnyScreenResumes(before);
    ScrollShows(before.memory, after.memory, SCREEN_HEIGHT, 0, before.OnScreen());
  }

  /** From one screen to the next the log goes on, and is shown exactly if the piece fits; then
      nothing below the visible rows changes. */
  ghost predicate StepShown(before: Screen, after: Screen, log: Log, piece: Piece)
    requires log.Valid()
  {
    && before.Valid() && after.Valid() && |before.memory| == |after.memory|
    && (before.Resuming(log) ==>
          && (FitsNow(log, piece) <==> after.Showing(Print(log, piece)))
          && (FitsNow(log, piece) ==> after.memory[SCREEN..] == before.memory[SCREEN..]))
  }

  /** The screens before and after each piece in turn. After a piece that did not fit the printing
      goes on from what is on the screen. */
  ghost predicate Chain(screens: seq<Screen>, log: Log, pieces: seq<Piece>)
    requires |screens| == |pieces| + 1
    decreases |pieces|
  {
    && log.Valid() && screens[0].Valid() && screens[0].Resuming(log)
    && (pieces != [] ==>
          && StepShown(screens[0], screens[1], log, pieces[0])
          && Chain(screens[1..], screens[1].Resumed(Print(log, pieces[0])), pieces[1..]))
  }

  /** The log that the last screen goes on from. */
  ghost function LastLog(screens: seq<Screen>, log: Log, pieces: seq<Piece>): Log
    requires |screens| == |pieces| + 1 && Chain(screens, log, pieces)
    decreases |pieces|
  {
    if pieces == [] then log
    else LastLog(screens[1..], screens[1].Resumed(Print(log, pieces[0])), pieces[1..])
  }

  /** After each piece the screen shows the log of what was printed by then. */
  ghost predicate AllShowing(screens: seq<Screen>, log: Log, pieces: seq<Piece>)
    requires log.Valid() && |screens| == |pieces| + 1
    decreases |pieces|
  {
    pieces != [] ==>
      && screens[1].Showing(Print(log, pieces[0]))
      && AllShowing(screens[1..], Print(log, pieces[0]), pieces[1..])
  }

  lemma {:induction false} ChainMore(screens: seq<Screen>, next: Screen, log: Log, pieces: seq<Piece>, piece: Piece)
    requires |screens| == |pieces| + 1 && Chain(screens, log, pieces)
    requires LastLog(screens, log, pieces).Valid()
    requires StepShown(screens[|pieces|], next, LastLog(screens, log, pieces), piece)
    ensures Chain(screens + [next], log, pieces + [piece])
    decreases |pieces|
  {
    hide Print, Shows, FitsNow;
    assert (pieces + [piece])[1..] == if pieces == [] then [] else pieces[1..] + [piece];
    assert (screens + [next])[1..] == screens[1..] + [next];
    if pieces == [] {
      ShowingResumes(next, Print(log, piece));
    } else {
      ChainMore(screens[1..], next, screens[1].Resumed(Print(log, pieces[0])), pieces[1..], piece);
    }
  }

  lemma {:induction false} LastLogResumes(screens: seq<Screen>, log: Log, pieces: seq<Piece>)
    requires |screens| == |pieces| + 1 && Chain(screens, log, pieces)
    ensures LastLog(screens, log, pieces).Valid()
    ensures screens[|pieces|].Resuming(LastLog(screens, log, pieces))
    decreases |pieces|
  {
    hide Print, Shows, StepShown;
    if pieces != [] {
      LastLogResumes(screens[1..], screens[1].Resumed(Print(log, pieces[0])), pieces[1..]);
    }
  }

  /** The log is shown after every piece if and only if each of them fits when its turn comes. */
  lemma {:induction false} ChainMeans(screens: seq<Screen>, log: Log, pieces: seq<Piece>)
    requires |screens| == |pieces| + 1 && Chain(screens, log, pieces)
    ensures AllShowing(screens, log, pieces) <==> Fits(log, pieces)
    ensures Fits(log, pieces) ==>
      && (screens[0].Showing(log) || pieces != [] ==> screens[|pieces|].Showing(Run(log, pieces)))
      && screens[|pieces|].memory[SCREEN..] == screens[0].memory[SCREEN..]
    decreases |pieces|
  {
    hide Print, Shows, FitsNow;
    if pieces != [] && FitsNow(log, pieces[0]) {
      ChainMeans(screens[1..], Print(log, pieces[0]), pieces[1..]);
    } else if pieces != [] {
      assert !screens[1].Showing(Print(log, pieces[0]));
    }
  }

  /** What was printed so far on a screen that went on from `log`, and the screens before and
      after each piece. */
  datatype Trace = Trace(log: Log, pieces: seq<Piece>, screens: seq<Screen>)
  {
    ghost predicate From(first: Screen, last: Screen) {
      && |screens| == |pieces| + 1 && Chain(screens, log, pieces)
      && screens[0] == first && screens[|pieces|] == last
    }

    ghost function Now(): Log {
      if |screens| == |pieces| + 1 && Chain(screens, log, pieces) then LastLog(screens, log, pieces) else log
    }

    function With(piece: Piece, screen: Screen): Trace {
      Trace(log, pieces + [piece], screens + [screen])
    }
  }

  ghost predicate Traced(trace: Trace, shown: bool, first: Screen, last: Screen) {
    shown ==> trace.From(first, last)
  }

  ghost predicate StepTraced(before: Screen, after: Screen, log: Log, piece: Piece) {
    log.Valid() ==> StepShown(before, after, log, piece)
  }

  /** All of the format before `f` was printed, with the arguments before `a`. */
  ghost predicate Reached(format: seq<byte>, args: seq<Argument>, f: nat, a: nat, done: seq<Piece>, size: nat) {
    && f <= |format| && a <= |args| && Matches(format, args) && Matches(format[f..], args[a..])
    && Pieces(format, args) == done + Pieces(format[f..], args[a..])
    && Mapped(Pieces(format[f..], args[a..]), size)
  }

  lemma ReachedStart(format: seq<byte>, args: seq<Argument>, size: nat)
    requires Matches(format, args) && Mapped(Pieces(format, args), size)
    ensures Reached(format, args, 0, 0, [], size)
  {
    assert format[0..] == format && args[0..] == args;
    assert [] + Pieces(format, args) == Pieces(format, args);
  }

  lemma ReachedEnd(format: seq<byte>, args: seq<Argument>, a: nat, done: seq<Piece>, size: nat)
    requires Reached(format, args, |format|, a, done, size)
    ensures done == Pieces(format, args)
  {
    NothingLeft(format[|format|..], args[a..]);
  }

  lemma ReachedMore(done: seq<Piece>, piece: Piece, rest: seq<Piece>)
    ensures done + ([piece] + rest) == (done + [piece]) + rest
  {}

  lemma TraceStart(log: Log, first: Screen)
    requires first.Valid()
    ensures Traced(Trace(log, [], [first]), first.Resuming(log), first, first)
  {}

  lemma TraceMore(trace: Trace, shown: bool, first: Screen, before: Screen, after: Screen, piece: Piece)
    requires Traced(trace, shown, first, before) && StepTraced(before, after, trace.Now(), piece)
    ensures Traced(trace.With(piece, after), shown, first, after)
  {
    hide Chain, StepShown, LastLog;
    if shown {
      LastLogResumes(trace.screens, trace.log, trace.pieces);
      ChainMore(trace.screens, after, trace.log, trace.pieces, piece);
    }
  }

  lemma TraceMeans(trace: Trace, first: Screen, last: Screen)
    requires Traced(trace, true, first, last)
    ensures trace.log.Valid() && |trace.screens| == |trace.pieces| + 1
    ensures trace.screens[0] == first && trace.screens[|trace.pieces|] == last
    ensures Chain(trace.screens, trace.log, trace.pieces)
    ensures AllShowing(trace.screens, trace.log, trace.pieces) <==> Fits(trace.log, trace.pieces)
    ensures Fits(trace.log, trace.pieces) ==>
      && (first.Showing(trace.log) || trace.pieces != [] ==> last.Showing(Run(trace.log, trace.pieces)))
      && SCREEN <= |first.memory| && SCREEN <= |last.memory| && last.memory[SCREEN..] == first.memory[SCREEN..]
  {
    hide Fits, Run, AllShowing;
    ChainMeans(trace.screens, trace.log, trace.pieces);
  }

  /** The scratch array read downwards is the numeral. */
  lemma NumeralReversed(n: nat, base: Base)
    requires 0 < n
    ensures var low, text := LowFirst(n, base), Numeral(n, base);
      && |text| == |low|
      && forall i :: 0 <= i < |low| ==> low[i] < base && text[|low| - 1 - i] == DigitChar(low[i])
  {
    hide LowFirst, HighFirst;
    Reversed(n, base);
    ReadBack(n, base);
    var low, high := LowFirst(n, base), HighFirst(n, base);
    forall i | 0 <= i < |low| ensures low[i] < base && Numeral(n, base)[|low| - 1 - i] == DigitChar(low[i]) {
      assert low[i] == high[|low| - 1 - i];
    }
  }

  /** For an address it is read from the NUL above the highest digit. */
  lemma AddressTextReversed(n: nat)
    requires 0 < n
    ensures var low, text := LowFirst(n, 16), AddressText(n);
      && |text| == |low| + 1 && text[0] == 0
      && (forall j :: 0 <= j < |low| ==> low[j] < 16)
      && (forall k :: 1 <= k <= |low| ==> text[k] == DigitChar(low[|low| - k]))
  {
    hide Numeral, LowFirst;
    NumeralReversed(n, 16);
    var low, digits := LowFirst(n, 16), Numeral(n, 16);
    forall k | 1 <= k <= |low| ensures AddressText(n)[k] == DigitChar(low[|low| - k]) {
      assert AddressText(n)[k] == digits[k - 1] == digits[|low| - 1 - (|low| - k)];
    }
  }

  lemma WriteKeepsBelow(before: seq<byte>, after: seq<byte>, offset: nat, text: seq<byte>)
    requires SCREEN <= |before| && Written(before, after, offset, text)
    ensures |after| == |before|
    ensures offset + 2 * |text| <= SCREEN ==> after[SCREEN..] == before[SCREEN..]
  {}

  lemma WriteAnywhere(before: seq<byte>, after: seq<byte>, height: nat, width: nat, log: Log, text: seq<byte>)
    requires SCREEN <= |before| && height < SCREEN_HEIGHT && width < SCREEN_WIDTH && width % 2 == 0
    requires Written(before, after, height * SCREEN_WIDTH + width, text)
    ensures var end := height * SCREEN_WIDTH + width + 2 * |text|;
      && end % SCREEN_WIDTH % 2 == 0
      && (White(before) ==> White(after))
      && (end <= SCREEN ==> after[SCREEN..] == before[SCREEN..])
      && (Shows(before, height, width, log) ==>
            && (end <= SCREEN <==> log.cursor + |text| <= |log.cells|)
            && (end <= SCREEN <==> Shows(after, end / SCREEN_WIDTH, end % SCREEN_WIDTH, PutAll(log, text))))
  {
    hide White, Written, PutAll;
    var offset := height * SCREEN_WIDTH + width;
    CursorOf(offset + 2 * |text|);
    WriteKeepsWhite(before, after, offset, text);
    WriteKeepsBelow(before, after, offset, text);
    if Shows(before, height, width, log) {
      if offset + 2 * |text| <= SCREEN {
        WriteShows(before, after, height, width, log, text);
      } else {
        OverflowShowsNothing(after, offset + 2 * |text|, PutAll(log, text));
      }
    }
  }

  lemma OneHundred()
    ensures Numeral(100, 10) == [49, 48, 48]
  {
    ReadBack(100, 10);
    assert HighFirst(0, 10) == [];
    assert HighFirst(1, 10) == [1];
    assert HighFirst(10, 10) == [1, 0];
    assert HighFirst(100, 10) == [1, 0, 0];
    hide HighFirst;
    assert DigitText([1, 0, 0]) == [49, 48, 48];
  }

  /** A number across the bottom right corner: two of the three digits of 100 land on the
      status row below the screen. */
  lemma NumberAcrossTheCorner(before: seq<byte>, after: seq<byte>, log: Log)
    requires SCREEN + SCREEN_WIDTH <= |before| && Shows(before, 23, 158, log)
    requires Written(before, after, 23 * SCREEN_WIDTH + 158, Numeral(100, 10))
    ensures !FitsNow(log, Chars(Numeral(100, 10)))
    ensures after[SCREEN] == 48 && after[SCREEN + 2] == 48
  {
    OneHundred();
  }

  class Console {
    const memory: array<byte>
    var height: nat
    var width: nat

    constructor (memory: array<byte>)
      ensures this.memory == memory && height == 0 && width == 0
    {
      this.memory, height, width := memory, 0, 0;
    }

    ghost predicate Valid()
      reads this
    {
      SCREEN + SCREEN_WIDTH <= memory.Length && width < SCREEN_WIDTH && width % 2 == 0
    }

    ghost predicate Showing(log: Log)
      requires Valid()
      reads this, memory
    {
      Shows(memory[..], height, width, log)
    }

    ghost function Now(): Screen
      reads this, memory
    {
      Screen(memory[..], height, width)
    }

    method CopyRowUp(i: nat)
      requires Valid() && i < SCREEN_HEIGHT - 1
      modifies memory
      ensures forall k :: i * SCREEN_WIDTH <= k < (i + 1) * SCREEN_WIDTH ==>
        memory[k] == old(memory[k + SCREEN_WIDTH])
      ensures forall k :: 0 <= k < i * SCREEN_WIDTH || (i + 1) * SCREEN_WIDTH <= k < memory.Length ==>
        memory[k] == old(memory[k])
    {
      for j := 0 to SCREEN_WIDTH
        invariant forall k :: i * SCREEN_WIDTH <= k < i * SCREEN_WIDTH + j ==>
          memory[k] == old(memory[k + SCREEN_WIDTH])
        invariant forall k :: 0 <= k < i * SCREEN_WIDTH || i * SCREEN_WIDTH + j <= k < memory.Length ==>
          memory[k] == old(memory[k])
      {
        memory[i * SCREEN_WIDTH + j] := memory[(i + 1) * SCREEN_WIDTH + j];
      }
    }

    method MoveRowsUp()
      requires Valid()
      modifies memory
      ensures forall k :: 0 <= k < SCREEN - SCREEN_WIDTH ==> memory[k] == old(memory[k + SCREEN_WIDTH])
      ensures forall k :: SCREEN - SCREEN_WIDTH <= k < memory.Length ==> memory[k] == old(memory[k])
    {
      for i := 0 to SCREEN_HEIGHT - 1
        invariant forall k :: 0 <= k < i * SCREEN_WIDTH ==> memory[k] == old(memory[k + SCREEN_WIDTH])
        invariant forall k :: i * SCREEN_WIDTH <= k < memory.Length ==> memory[k] == old(memory[k])
      {
        CopyRowUp(i);
      }
    }

    method ClearBottomRow()
      requires Valid()
      modifies memory
      ensures forall k :: SCREEN - SCREEN_WIDTH <= k < SCREEN ==> memory[k] == if k % 2 == 0 then 0 else ATTRIBUTE
      ensures forall k :: 0 <= k < SCREEN - SCREEN_WIDTH || SCREEN <= k < memory.Length ==> memory[k] == old(memory[k])
    {
      var bottom := 23 * SCREEN_WIDTH;
      for index := 0 to SCREEN_WIDTH
        invariant forall k :: bottom <= k < bottom + index + index % 2 ==>
          memory[k] == if k % 2 == 0 then 0 else ATTRIBUTE
        invariant forall k :: 0 <= k < bottom || bottom + index + index % 2 <= k < memory.Length ==>
          memory[k] == old(memory[k])
      {
        if index % 2 == 0 {
          memory[bottom + index] := 0;
          memory[bottom + index + 1] := ATTRIBUTE;
        }
      }
    }

    method ScrollUp()
      requires Valid()
      modifies memory
      ensures ScrolledUp(old(memory[..]), memory[..])
    {
      MoveRowsUp();
      ClearBottomRow();
    }

    /** Offset of the cursor in video memory, after scrolling if it stands below the screen. */
    method GetCurrentAddress(ghost log: Log) returns (offset: nat)
      requires Valid()
      modifies this, memory
      ensures Valid() && height < SCREEN_HEIGHT
      ensures offset == height * SCREEN_WIDTH + width
      ensures old(height < SCREEN_HEIGHT) ==>
        memory[..] == old(memory[..]) && height == old(height) && width == old(width)
      ensures old(height >= SCREEN_HEIGHT) ==>
        ScrolledUp(old(memory[..]), memory[..]) && height == SCREEN_HEIGHT - 1 && width == 0
      ensures old(Now().Resuming(log)) ==> Showing(Access(log))
      ensures old(White(memory[..])) ==> White(memory[..])
      ensures memory[SCREEN..] == old(memory[SCREEN..])
    {
      ghost var before := memory[..];
      if height > 23 {
        ScrollUp();
        if Shows(before, SCREEN_HEIGHT, 0, log) {
          ScrollShows(before, memory[..], SCREEN_HEIGHT, 0, log);
        }
        if White(before) {
          ScrollWhite(before, memory[..]);
        }
        height := 23;
        width := 0;
      }
      offset := height * SCREEN_WIDTH + width;
    }

    /** Writes one cell and moves on to the next. */
    method WriteCell(offset: nat, c: byte) returns (next: nat)
      requires offset + 2 <= memory.Length
      modifies memory
      ensures next == offset + 2
      ensures memory[..] == old(memory[..])[offset := c][offset + 1 := ATTRIBUTE]
    {
      memory[offset] := c;
      memory[offset + 1] := ATTRIBUTE;
      next := offset + 2;
    }

    method UpdateHeightWidth(offset: nat)
      modifies `height, `width
      ensures height == offset / SCREEN_WIDTH && width == offset % SCREEN_WIDTH
    {
      height := offset / SCREEN_WIDTH;
      width := offset % SCREEN_WIDTH;
    }

    /** What every printer of text does: the text from the offset on, the cursor just after it. */
    twostate predicate Printed(offset: nat, text: seq<byte>)
      reads this, memory
    {
      && Written(old(memory[..]), memory[..], offset, text)
      && height == (offset + 2 * |text|) / SCREEN_WIDTH
      && width == (offset + 2 * |text|) % SCREEN_WIDTH
    }

    method HandleChar(c: byte, offset: nat)
      requires offset + 2 <= memory.Length
      modifies this, memory
      ensures Printed(offset, [c])
    {
      ghost var before := memory[..];
      var next := WriteCell(offset, c);
      WrittenMore(before, before, memory[..], offset, [], c);
      assert [] + [c] == [c];
      UpdateHeightWidth(next);
    }

    method HandleString(str: seq<byte>, offset: nat)
      requires offset + 2 * |str| <= memory.Length
      modifies this, memory
      ensures Printed(offset, str)
    {
      ghost var before := memory[..];
      var next := offset;
      for i := 0 to |str|
        invariant next == offset + 2 * i
        invariant Written(before, memory[..], offset, str[..i])
      {
        ghost var mid := memory[..];
        next := WriteCell(next, str[i]);
        WrittenMore(before, mid, memory[..], offset, str[..i], str[i]);
        assert str[..i] + [str[i]] == str[..i + 1];
      }
      assert str[..|str|] == str;
      UpdateHeightWidth(next);
    }

    /** Digits of a positive number, lowest first, in a scratch array of 100. */
    method FillScratch(n: nat) returns (ch: array<byte>, count: nat)
      requires 0 < n < 0x1_0000_0000
      ensures fresh(ch) && ch.Length == 100
      ensures count == |LowFirst(n, 10)| <= 10
      ensures forall i :: 0 <= i < count ==> ch[i] as nat == LowFirst(n, 10)[i]
    {
      ch := new byte[100];
      count := 0;
      var num := n;
      DigitsFitScratch(n);
      ghost var digits := LowFirst(n, 10);
      while num > 0
        invariant count + |LowFirst(num, 10)| == |digits|
        invariant forall i :: 0 <= i < count ==> ch[i] as nat == digits[i]
        invariant digits[count..] == LowFirst(num, 10)
      {
        ch[count] := (num % 10) as byte;
        assert digits[count] == num % 10 && digits[count + 1..] == digits[count..][1..];
        count := count + 1;
        num := num / 10;
      }
    }

    /** Writes the digits in the scratch array, the highest first, after what is there already. */
    method WriteDigits(ch: array<byte>, count: nat, next: nat, ghost n: nat,
                       ghost before: seq<byte>, ghost offset: nat, ghost prefix: seq<byte>)
      returns (end: nat)
      requires ch != memory && count <= ch.Length && 0 < n
      requires count == |LowFirst(n, 10)| && forall i :: 0 <= i < count ==> ch[i] as nat == LowFirst(n, 10)[i]
      requires Written(before, memory[..], offset, prefix)
      requires next == offset + 2 * |prefix| && next + 2 * count <= memory.Length
      modifies memory
      ensures Written(before, memory[..], offset, prefix + Numeral(n, 10))
      ensures end == offset + 2 * |prefix + Numeral(n, 10)|
    {
      hide Numeral, LowFirst;
      ghost var text := Numeral(n, 10);
      NumeralReversed(n, 10);
      end := next;
      assert prefix + text[..0] == prefix;
      for i := count downto 0
        invariant end == next + 2 * (count - i)
        invariant Written(before, memory[..], offset, prefix + text[..count - i])
      {
        ghost var mid := memory[..];
        ghost var k := count - 1 - i;
        end := WriteCell(end, 48 + ch[i]);
        WrittenMore(before, mid, memory[..], offset, prefix + text[..k], text[k]);
        assert prefix + text[..k] + [text[k]] == prefix + text[..k + 1];
      }
      assert text[..count] == text;
    }

    method HandleUnsignedInt(v: nat, offset: nat)
      requires v < 0x1_0000_0000 && offset + 2 * |Numeral(v, 10)| <= memory.Length
      modifies this, memory
      ensures Printed(offset, Numeral(v, 10))
    {
      if v == 0 {
        HandleChar(48, offset);
        return;
      }
      ghost var before := memory[..];
      var ch, count := FillScratch(v);
      NumeralReversed(v, 10);
      var end := WriteDigits(ch, count, offset, v, before, offset, []);
      assert [] + Numeral(v, 10) == Numeral(v, 10);
      UpdateHeightWidth(end);
    }

    method HandleSignedInt(v: int, offset: nat)
      requires -0x8000_0000 < v < 0x8000_0000 && offset + 2 * |SignedNumeral(v)| <= memory.Length
      modifies this, memory
      ensures Printed(offset, SignedNumeral(v))
    {
      if v == 0 {
        HandleChar(48, offset);
        return;
      }
      ghost var before := memory[..];
      ghost var sign: seq<byte> := [];
      var num, next := v, offset;
      if v < 0 {
        next := WriteCell(next, 0x2d);
        WrittenMore(before, before, memory[..], offset, [], 0x2d);
        sign := [0x2d];
        assert [] + [0x2d as byte] == sign;
        num := num * -1;
      }
      var ch, count := FillScratch(num);
      NumeralReversed(num, 10);
      var end := WriteDigits(ch, count, next, num, before, offset, sign);
      assert sign + Numeral(num, 10) == SignedNumeral(v);
      UpdateHeightWidth(end);
    }

    /** Hexadecimal digits, lowest first, in a scratch array of 100 zeros. */
    method FillHexScratch(addr: nat) returns (ch: array<byte>, count: nat)
      requires 0 < addr < 0x1_0000_0000_0000_0000
      ensures fresh(ch) && ch.Length == 100
      ensures count == |LowFirst(addr, 16)| <= 16 && ch[count] == 0
      ensures forall i :: 0 <= i < count ==> LowFirst(addr, 16)[i] < 16 && ch[i] == DigitChar(LowFirst(addr, 16)[i])
    {
      ch := new byte[100](_ => 0);
      count := 0;
      var num := addr;
      DigitsFitScratch(addr);
      ghost var digits := LowFirst(addr, 16);
      while num > 0
        invariant count + |LowFirst(num, 16)| == |digits|
        invariant forall i :: 0 <= i < count ==> digits[i] < 16 && ch[i] == DigitChar(digits[i])
        invariant forall i :: count <= i < 100 ==> ch[i] == 0
        invariant digits[count..] == LowFirst(num, 16)
      {
        var rem := num % 16;
        if rem < 10 {
          ch[count] := (48 + rem) as byte;
        } else {
          ch[count] := (55 + rem) as byte;
        }
        assert digits[count] == rem && digits[count + 1..] == digits[count..][1..];
        count := count + 1;
        num := num / 16;
      }
    }

    /** Writes the scratch array from index `top` down. */
    method WriteDownwards(ch: array<byte>, top: nat, offset: nat, ghost text: seq<byte>) returns (next: nat)
      requires ch != memory && top < ch.Length && |text| == top + 1
      requires forall k :: 0 <= k <= top ==> text[k] == ch[top - k]
      requires offset + 2 * |text| <= memory.Length
      modifies memory
      ensures Written(old(memory[..]), memory[..], offset, text) && next == offset + 2 * |text|
    {
      ghost var before := memory[..];
      next := offset;
      for j := top + 1 downto 0
        invariant next == offset + 2 * (top + 1 - j)
        invariant Written(before, memory[..], offset, text[..top + 1 - j])
      {
        ghost var mid, k := memory[..], top - j;
        next := WriteCell(next, ch[j]);
        WrittenMore(before, mid, memory[..], offset, text[..k], text[k]);
        assert text[..k] + [text[k]] == text[..k + 1];
      }
      assert text[..top + 1] == text;
    }

    method WriteAddress(addr: nat, offset: nat) returns (end: nat)
      requires 0 < addr < 0x1_0000_0000_0000_0000 && offset + 2 * |AddressText(addr)| <= memory.Length
      modifies memory
      ensures Written(old(memory[..]), memory[..], offset, AddressText(addr))
      ensures end == offset + 2 * |AddressText(addr)|
    {
      hide AddressText, LowFirst, Written;
      var ch, count := FillHexScratch(addr);
      AddressTextReversed(addr);
      end := WriteDownwards(ch, count, offset, AddressText(addr));
    }

    method HandleAddress(addr: nat, offset: nat)
      requires addr < 0x1_0000_0000_0000_0000 && offset + 2 * |AddressText(addr)| <= memory.Length
      modifies this, memory
      ensures Printed(offset, AddressText(addr))
    {
      if addr == 0 {
        HandleChar(48, offset);
        return;
      }
      var end := WriteAddress(addr, offset);
      UpdateHeightWidth(end);
    }

    /** One piece was printed: the screen shows the log with it exactly when it fits. */
    twostate predicate Shown(log: Log, piece: Piece)
      requires old(Valid()) && Valid()
      reads this, memory
    {
      && (old(White(memory[..])) ==> White(memory[..]))
      && StepTraced(old(Now()), Now(), log, piece)
    }

    method HandleNewLine(ghost log: Log)
      requires Valid() && height < SCREEN_HEIGHT
      modifies this, memory
      ensures Valid()
      ensures old(Showing(log)) ==> Showing(NewLine(log))
      ensures old(White(memory[..])) ==> White(memory[..])
      ensures memory[SCREEN..] == old(memory[SCREEN..])
    {
      ghost var there := Log(log.cells, log.top, NextRow(log.cursor));
      assert Showing(log) ==> log == Access(log);
      height := height + 1;
      width := 0;
      assert old(Showing(log)) ==> Showing(there);
      var _ := GetCurrentAddress(there);
    }

    /** Writes the text of one conversion at the cursor. */
    method Handle(conversion: Conversion, arg: Argument, offset: nat)
      requires conversion.Takes(arg) && offset + 2 * |conversion.Show(arg)| <= memory.Length
      modifies this, memory
      ensures Printed(offset, conversion.Show(arg))
    {
      match conversion
      case AsString => HandleString(arg.text, offset);
      case AsSigned => HandleSignedInt(arg.value, offset);
      case AsUnsigned => HandleUnsignedInt(arg.number, offset);
      case AsChar => HandleChar(arg.c, offset);
      case AsAddress => HandleAddress(arg.address, offset);
    }

    method Convert(conversion: Conversion, arg: Argument, ghost log: Log)
      requires Valid() && conversion.Takes(arg) && SCREEN + 2 * |conversion.Show(arg)| <= memory.Length
      modifies this, memory
      ensures Valid() && Shown(log, Chars(conversion.Show(arg)))
    {
      hide Written, Shows, White, PutAll;
      var offset := GetCurrentAddress(log);
      ghost var before, h, w := memory[..], height, width;
      Handle(conversion, arg, offset);
      WriteAnywhere(before, memory[..], h, w, Access(log), conversion.Show(arg));
    }

    method HandleEverythingElse(c: byte, ghost log: Log)
      requires Valid() && SCREEN + 2 <= memory.Length
      modifies this, memory
      ensures Valid() && Shown(log, if c == LINE_FEED then LineBreak else Chars([c]))
    {
      hide Written, Shows, White, PutAll;
      var offset := GetCurrentAddress(log);
      if c == LINE_FEED {
        HandleNewLine(Access(log));
      } else {
        ghost var before, h, w := memory[..], height, width;
        HandleChar(c, offset);
        WriteAnywhere(before, memory[..], h, w, Access(log), [c]);
      }
    }

    /** One turn of the loop: a conversion or one character. */
    method PrintNext(format: seq<byte>, args: seq<Argument>, f: nat, a: nat,
                     ghost trace: Trace, ghost shown: bool, ghost first: Screen)
      returns (f': nat, a': nat, ghost trace': Trace)
      requires Valid() && f < |format| && Reached(format, args, f, a, trace.pieces, memory.Length)
      requires Traced(trace, shown, first, Now())
      modifies this, memory
      ensures Valid() && f < f' <= |format| && Reached(format, args, f', a', trace'.pieces, memory.Length)
      ensures Traced(trace', shown, first, Now()) && trace'.log == trace.log
      ensures old(White(memory[..])) ==> White(memory[..])
    {
      hide Shows, White, Run, ConversionOf, Pieces, Matches, Mapped, Traced, StepTraced, Chain;
      ghost var rest, before := Pieces(format[f..], args[a..]), Now();
      f', a', trace' := f, a, trace;
      if format[f] == PERCENT {
        StepPercent(format, args, f, a);
        var conversion := ConversionOf(format[f + 1]);
        f' := f + 2;
        if conversion == Unknown {
          return;
        }
        StepMapped(rest, memory.Length);
        Convert(conversion, args[a], trace.Now());
        a' := a + 1;
      } else {
        StepCharacter(format, args, f, a);
        StepMapped(rest, memory.Length);
        HandleEverythingElse(format[f], trace.Now());
        f' := f + 1;
      }
      TraceMore(trace, shown, first, before, Now(), rest[0]);
      trace' := trace.With(rest[0], Now());
      ReachedMore(trace.pieces, rest[0], rest[1..]);
    }

    /** Prints a format. The screen shows the log after every piece if and only if each piece
        fits in the cells left on the screen when its turn comes; then nothing below the visible
        rows changes. A piece that does not fit does not end this: what follows it goes on from what
        is then on the screen. `screens` is what the screen is before and after each piece. */
    method Kprintf(format: seq<byte>, args: seq<Argument>, ghost log: Log) returns (ghost screens: seq<Screen>)
      requires Valid() && Matches(format, args) && Mapped(Pieces(format, args), memory.Length)
      modifies this, memory
      ensures Valid()
      ensures old(Now().Resuming(log)) ==>
        var pieces := Pieces(format, args);
        && |screens| == |pieces| + 1 && screens[0] == old(Now()) && screens[|pieces|] == Now()
        && Chain(screens, log, pieces) && (AllShowing(screens, log, pieces) <==> Fits(log, pieces))
        && (Fits(log, pieces) ==>
              && memory[SCREEN..] == old(memory[SCREEN..])
              && (old(Showing(log)) || pieces != [] ==> Showing(Run(log, pieces))))
      ensures old(White(memory[..])) ==> White(memory[..])
    {
      hide Shows, White, Fits, Run, Pieces, Matches, Reached, Traced, Chain, AllShowing;
      ghost var first := Now();
      ghost var shown := first.Resuming(log);
      ghost var trace := Trace(log, [], [first]);
      TraceStart(log, first);
      ReachedStart(format, args, memory.Length);
      var f, a := 0, 0;
      while f < |format|
        invariant Valid() && f <= |format| && Reached(format, args, f, a, trace.pieces, memory.Length)
        invariant Traced(trace, shown, first, Now()) && trace.log == log
        invariant old(White(memory[..])) ==> White(memory[..])
        decreases |format| - f
      {
        f, a, trace := PrintNext(format, args, f, a, trace, shown, first);
      }
      ReachedEnd(format, args, a, trace.pieces, memory.Length);
      screens := trace.screens;
      if shown {
        TraceMeans(trace, first, Now());
      }
    }
  }
}
