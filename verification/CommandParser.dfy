/** The tokenizer of the shell: fixed buffers filled by pointer loops. */
module CommandParser {
  import opened Splitting
  import opened ShellWords

  const COMMAND_LENGTH: nat := 20

  /** The text from `start` up to the first NUL. */
  ghost predicate HoldsAt(a: array<char>, start: nat, text: string)
    reads a
  {
    && start + |text| < a.Length
    && a[start..start + |text|] == text && a[start + |text|] == '\0'
    && Free('\0', text)
  }

  method Strlen(a: array<char>, start: nat, ghost text: string) returns (len: nat)
    requires HoldsAt(a, start, text)
    ensures len == |text|
  {
    len := 0;
    while a[start + len] != NUL
      invariant len <= |text|
      invariant forall i :: 0 <= i < |text| ==> a[start + i] == text[i]
      decreases |text| - len
    {
      len := len + 1;
    }
  }

  method AppendChar(a: array<char>, at: nat, ch: char, ghost text: string)
    requires HoldsAt(a, 0, text) && at == |text| && at + 2 <= a.Length && ch != NUL
    modifies a
    ensures HoldsAt(a, 0, text + [ch])
  {
    a[at] := ch;
    a[at + 1] := NUL;
    assert a[..at] == text;
  }

  class CommandArgument {
    var trimmedInput: array<char>
    var command: array<char>
    var arguments: array<array<char>>
    var isBackground: bool
    var argumentCount: nat

    /** Buffers that hold nothing but NULs. */
    constructor ()
      ensures fresh(trimmedInput) && fresh(command) && fresh(arguments)
      ensures trimmedInput.Length == INPUT_LENGTH && command.Length == COMMAND_LENGTH
      ensures arguments.Length == MAX_ARGUMENTS
      ensures trimmedInput != command && !isBackground && argumentCount == 0
      ensures forall k :: 0 <= k < MAX_ARGUMENTS ==> fresh(arguments[k])
      ensures forall i :: 0 <= i < INPUT_LENGTH ==> trimmedInput[i] == NUL
      ensures HoldsAt(command, 0, [])
    {
      trimmedInput := new char[INPUT_LENGTH](_ => NUL);
      command := new char[COMMAND_LENGTH](_ => NUL);
      var none := new char[0];
      arguments := new array<char>[MAX_ARGUMENTS](_ => none);
      isBackground, argumentCount := false, 0;
    }

    ghost function Buffers(): set<object>
      reads this, arguments
    {
      {this, trimmedInput, command, arguments} + set k | 0 <= k < arguments.Length :: arguments[k]
    }

    /** The first argument buffers hold these texts, each in a buffer of its own. */
    ghost predicate Filled(texts: seq<string>)
      reads Buffers()
    {
      && |texts| <= arguments.Length == MAX_ARGUMENTS
      && trimmedInput != command
      && (forall k :: 0 <= k < |texts| ==> HoldsAt(arguments[k], 0, texts[k]))
      && (forall k :: 0 <= k < |texts| ==> arguments[k].Length == WORD_LENGTH)
      && (forall k :: 0 <= k < |texts| ==> arguments[k] != command && arguments[k] != trimmedInput)
      && (forall j, k :: 0 <= j < k < |texts| ==> arguments[j] != arguments[k])
    }

    /** A fresh zero-filled buffer for one more argument. */
    method NewArgument(count: nat, ghost texts: seq<string>)
      requires Filled(texts) && count == |texts| < MAX_ARGUMENTS
      modifies arguments
      ensures Filled(texts + [[]])
      ensures forall k :: 0 <= k < arguments.Length ==> arguments[k] == old(arguments[k]) || fresh(arguments[k])
    {
      var argument := new char[WORD_LENGTH](_ => NUL);
      arguments[count] := argument;
      assert HoldsAt(argument, 0, []);
    }

    /** One more character at the end of the last argument. */
    method ExtendArgument(count: nat, at: nat, ch: char, ghost texts: seq<string>)
      requires Filled(texts) && 0 < count == |texts| && at == |texts[count - 1]| && at + 2 <= WORD_LENGTH && ch != NUL
      modifies arguments[count - 1]
      ensures Filled(texts[count - 1 := texts[count - 1] + [ch]])
    {
      AppendChar(arguments[count - 1], at, ch, texts[count - 1]);
    }

    /** The buffers hold this command, as C strings. */
    ghost predicate Represents(parsed: Parsed)
      reads Buffers()
    {
      && HoldsAt(command, 0, parsed.command)
      && argumentCount == |parsed.arguments| <= arguments.Length
      && (forall k :: 0 <= k < argumentCount ==> HoldsAt(arguments[k], 0, parsed.arguments[k]))
      && isBackground == parsed.background
    }
  }

  /** The command and all its buffers are new. */
  twostate predicate New(new c: CommandArgument)
    reads c, c.arguments
  {
    && fresh(c) && fresh(c.trimmedInput) && fresh(c.command) && fresh(c.arguments)
    && c.arguments.Length == MAX_ARGUMENTS
    && forall k :: 0 <= k < MAX_ARGUMENTS ==> fresh(c.arguments[k])
  }

  /** Index of the first character that is not a space. */
  method SkipSpaces(input: array<char>, start: nat, len: nat, ghost text: string) returns (left: nat)
    requires HoldsAt(input, start, text) && len == |text|
    ensures left == start + LeadingSpaces(text)
  {
    left := start;
    while left < start + len && input[left] == SPACE
      invariant start <= left <= start + len
      invariant LeadingSpaces(text) == left - start + LeadingSpaces(text[left - start..])
    {
      assert text[left - start] == input[left];
      assert text[left - start..][1..] == text[left + 1 - start..];
      left := left + 1;
    }
    assert left < start + len ==> text[left - start] == input[left];
  }

  /** End of the text without its tail, and whether the tail has an ampersand. */
  method StripTail(input: array<char>, left: nat, end: nat, ghost t: string) returns (end': nat, background: bool)
    requires left + |t| == end <= input.Length && input[left..end] == t
    ensures end' == left + TailStart(t) && background == ('&' in t[TailStart(t)..])
  {
    end' := end;
    background := false;
    assert t[..end' - left] == t;
    while left < end' && TailChar(input[end' - 1])
      invariant left <= end' <= end
      invariant TailStart(t) == TailStart(t[..end' - left])
      invariant background == ('&' in t[end' - left..])
    {
      ghost var k := end' - 1 - left;
      assert t[k] == input[end' - 1] && t[..k + 1][..k] == t[..k];
      assert t[k..] == [t[k]] + t[k + 1..];
      if input[end' - 1] == '&' {
        background := true;
      }
      end' := end' - 1;
    }
    assert left < end' ==> t[end' - 1 - left] == input[end' - 1];
  }

  lemma Cut(a: array<char>, i: nat, k: nat, n: nat)
    requires i + n <= k <= a.Length
    ensures a[i..k][n..] == a[i + n..k]
  {}

  lemma CutEnd(a: array<char>, i: nat, k: nat, n: nat)
    requires i + n <= k <= a.Length
    ensures a[i..k][..n] == a[i..i + n]
  {}

  lemma TrimmedParts(text: string)
    ensures var t := text[LeadingSpaces(text)..];
      Trimmed(text) == t[..TailStart(t)] && Background(text) == ('&' in t[TailStart(t)..])
    ensures Free(NUL, text) ==> Free(NUL, Trimmed(text))
  {
    hide LeadingSpaces, TailStart;
    var n, t := LeadingSpaces(text), text[LeadingSpaces(text)..];
    assert forall i :: 0 <= i < TailStart(t) ==> t[i] == text[n + i];
  }

  /** Where the text without its blanks lies, and whether its tail has an ampersand. */
  method FindBody(input: array<char>, start: nat, ghost text: string) returns (left: nat, end: nat, background: bool)
    requires HoldsAt(input, start, text)
    ensures left == start + LeadingSpaces(text) && left <= end == left + |Trimmed(text)| <= input.Length
    ensures input[left..end] == Trimmed(text) && background == Background(text)
  {
    hide LeadingSpaces, TailStart, Trimmed, Background, Free;
    var len := Strlen(input, start, text);
    left := SkipSpaces(input, start, len, text);
    ghost var n := left - start;
    Cut(input, start, start + len, n);
    end, background := StripTail(input, left, start + len, text[n..]);
    TrimmedParts(text);
    CutEnd(input, left, start + len, end - left);
  }

  /** Copies a stretch of the input into an empty buffer, and ends it with one more NUL. */
  method CopyText(input: array<char>, from: nat, to: nat, buffer: array<char>, last: nat)
    requires from <= to <= input.Length && to - from <= last < buffer.Length && buffer != input
    requires forall i :: 0 <= i < buffer.Length ==> buffer[i] == NUL
    modifies buffer
    ensures buffer[..to - from] == old(input[from..to]) && buffer[to - from] == NUL
  {
    var count := 0;
    for index := from to to
      invariant count == index - from
      invariant forall i :: 0 <= i < count ==> buffer[i] == input[from + i]
      invariant forall i :: count <= i < buffer.Length ==> buffer[i] == NUL
    {
      buffer[count] := input[index];
      count := count + 1;
    }
    buffer[last] := NUL;
  }

  /** Copies the line without the blanks around it. */
  method Trim(input: array<char>, start: nat, ghost text: string) returns (c: CommandArgument)
    requires HoldsAt(input, start, text) && CopyInside(text)
    ensures New(c) && c.trimmedInput != c.command
    ensures c.command.Length == COMMAND_LENGTH && c.arguments.Length == MAX_ARGUMENTS && c.argumentCount == 0
    ensures HoldsAt(c.trimmedInput, 0, Trimmed(text)) && HoldsAt(c.command, 0, [])
    ensures c.isBackground == Background(text)
  {
    hide LeadingSpaces, TailStart, Trimmed, Background, Free;
    TrimmedParts(text);
    var left, end, background := FindBody(input, start, text);
    c := new CommandArgument();
    c.isBackground := background;
    CopyText(input, left, end, c.trimmedInput, end - start + 1);
  }

  /** The parser has read a prefix into these slots: the command, and the arguments so far. */
  ghost predicate ReadInto(c: CommandArgument, slots: seq<string>, inCommand: bool, at: nat)
    reads c.Buffers()
  {
    && slots != [] && c.Filled(slots[1..])
    && c.command.Length == COMMAND_LENGTH && HoldsAt(c.command, 0, slots[0])
    && inCommand == (|slots| == 1)
    && at == |slots[|slots| - 1]|
  }

  /** Begins an argument, unless the last one is still empty. */
  method BeginArgument(c: CommandArgument, count: nat, at: nat, ghost slots: seq<string>)
    returns (count': nat, at': nat)
    requires slots != [] && slots != [[]] && c.Filled(slots[1..])
    requires c.command.Length == COMMAND_LENGTH && HoldsAt(c.command, 0, slots[0])
    requires count == |slots| - 1 && at == |slots[count]| && StepInside(slots, SPACE)
    modifies c.arguments
    ensures ReadInto(c, NextSlots(slots, SPACE), false, at') && count' == |NextSlots(slots, SPACE)| - 1
    ensures forall k :: 0 <= k < c.arguments.Length ==> c.arguments[k] == old(c.arguments[k]) || fresh(c.arguments[k])
  {
    assert count <= MAX_ARGUMENTS;
    count', at' := count, at;
    var filled := true;
    if count > 0 {
      var len := Strlen(c.arguments[count - 1], 0, slots[count]);
      filled := len != 0;
    }
    if filled {
      c.NewArgument(count, slots[1..]);
      count', at' := count + 1, 0;
      assert (slots + [[]])[1..] == slots[1..] + [[]];
    }
  }

  /** Reads one character into the slots. */
  method Advance(c: CommandArgument, ch: char, inCommand: bool, count: nat, at: nat, ghost slots: seq<string>)
    returns (inCommand': bool, count': nat, at': nat)
    requires ReadInto(c, slots, inCommand, at) && count == |slots| - 1 && ch != NUL
    requires StepInside(slots, ch) && (slots == [[]] ==> ch != SPACE)
    modifies c.command, c.arguments, if count > 0 then {c.arguments[count - 1]} else {}
    ensures ReadInto(c, NextSlots(slots, ch), inCommand', at') && count' == |NextSlots(slots, ch)| - 1
    ensures forall k :: 0 <= k < c.arguments.Length ==> c.arguments[k] == old(c.arguments[k]) || fresh(c.arguments[k])
  {
    inCommand', count', at' := inCommand, count, at;
    if inCommand' && ch != SPACE {
      AppendChar(c.command, at', ch, slots[0]);
      at' := at' + 1;
    }
    if inCommand' && ch == SPACE {
      inCommand' := false;
    }
    if ch == SPACE && !inCommand' {
      count', at' := BeginArgument(c, count, at, slots);
    }
    if ch != SPACE && !inCommand' {
      c.ExtendArgument(count, at', ch, slots[1..]);
      at' := at' + 1;
      assert NextSlots(slots, ch)[1..] == slots[1..][count - 1 := slots[count] + [ch]];
    }
  }

  lemma ParseIsSlots(text: string)
    ensures var s := Trimmed(text);
      && (s != [] ==> s[0] != SPACE) && Slots([]) == [[]]
      && Slots(s) != [] && Parse(text) == Parsed(Slots(s)[0], Slots(s)[1..], Background(text))
  {
    TrimmedShape(text);
  }

  lemma SlotsBegun(s: string, p: nat)
    requires s != [] && s[0] != SPACE && 0 < p <= |s|
    ensures Slots(s[..p]) != [[]]
  {
    if p > 1 {
      assert s[..p] == s[..p - 1] + [s[p - 1]];
      SlotsBegun(s, p - 1);
      SlotsAppend(s[..p - 1], s[p - 1]);
    } else {
      assert s[..p] == [] + [s[0]];
      SlotsAppend([], s[0]);
    }
  }

  lemma SlotsStep(s: string, p: nat)
    requires s != [] && s[0] != SPACE && p < |s|
    ensures Slots(s[..p]) != [] && NextSlots(Slots(s[..p]), s[p]) == Slots(s[..p + 1])
    ensures Slots(s[..p]) == [[]] ==> s[p] != SPACE
  {
    assert s[..p + 1] == s[..p] + [s[p]];
    SlotsAppend(s[..p], s[p]);
    if p > 0 {
      SlotsBegun(s, p);
    }
  }

  lemma StartReading(c: CommandArgument)
    requires c.command.Length == COMMAND_LENGTH && c.arguments.Length == MAX_ARGUMENTS
    requires c.trimmedInput != c.command && HoldsAt(c.command, 0, [])
    ensures ReadInto(c, [[]], true, 0)
  {}

  method Finish(c: CommandArgument, inCommand: bool, count: nat, at: nat,
                ghost slots: seq<string>, ghost parsed: Parsed)
    requires ReadInto(c, slots, inCommand, at) && count == |slots| - 1
    requires parsed == Parsed(slots[0], slots[1..], c.isBackground)
    modifies c`argumentCount
    ensures c.Represents(parsed)
  {
    c.argumentCount := count;
  }

  /** Splits a line into its command and its arguments. */
  method ParseInput(input: array<char>, start: nat, ghost text: string) returns (c: CommandArgument)
    requires HoldsAt(input, start, text) && StaysInside(text)
    ensures New(c) && c.Represents(Parse(text))
  {
    hide Words, Slots, StepInside, LeadingSpaces, Trimmed, Background, Parse, NextSlots;
    c := Trim(input, start, text);
    StartReading(c);
    ghost var s, slots := Trimmed(text), [[]];
    ParseIsSlots(text);
    var p, inCommand, count, at := 0, true, 0, 0;
    while c.trimmedInput[p] != NUL
      invariant p <= |s| && HoldsAt(c.trimmedInput, 0, s)
      invariant slots == Slots(s[..p]) && ReadInto(c, slots, inCommand, at) && count == |slots| - 1
      invariant New(c)
      invariant c.isBackground == Background(text)
      decreases |s| - p
    {
      var ch := c.trimmedInput[p];
      assert ch == s[p] && s[..p + 1] == s[..p] + [ch];
      SlotsStep(s, p);
      inCommand, count, at := Advance(c, ch, inCommand, count, at, slots);
      slots := NextSlots(slots, ch);
      p := p + 1;
    }
    assert s[..p] == s;
    Finish(c, inCommand, count, at, slots, Parse(text));
  }
}
