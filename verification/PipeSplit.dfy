/** Splitting a line at its pipes, in place. */
module PipeSplit {
  import opened Splitting
  import opened ShellWords
  import opened CommandParser

  const PIPE: char := '|'

  lemma OnePiece()
    ensures Split(PIPE, []) == [[]]
  {}

  lemma SplitStep(s: string)
    requires s != []
    ensures |Split(PIPE, s)| == |Split(PIPE, s[1..])| + if s[0] == PIPE then 1 else 0
  {
    if s[0] == PIPE {
      assert Find(PIPE, s) == 0;
    } else {
      var n := Find(PIPE, s[1..]);
      assert Find(PIPE, s) == n + 1;
      if n + 1 < |s| {
        assert s[n + 2..] == s[1..][n + 1..];
      }
    }
  }

  /** How many pipes the line has. */
  method CountNumberOfPipes(input: array<char>, start: nat, ghost text: string) returns (count: nat)
    requires HoldsAt(input, start, text)
    ensures count == |Split('|', text)| - 1
  {
    hide Split;
    count := 0;
    var i := start;
    assert text[0..] == text;
    while input[i] != NUL
      invariant start <= i <= start + |text|
      invariant count + |Split(PIPE, text[i - start..])| == |Split(PIPE, text)|
      invariant forall j :: 0 <= j < |text| ==> input[start + j] == text[j]
      decreases start + |text| - i
    {
      SplitStep(text[i - start..]);
      assert text[i - start..][1..] == text[i + 1 - start..];
      if input[i] == PIPE {
        count := count + 1;
      }
      i := i + 1;
    }
    assert text[i - start..] == [];
    OnePiece();
  }

  /** Index of the first `c`. The search gives up at a line feed as well as at the end. */
  method Strchr(a: array<char>, start: nat, c: char, ghost text: string) returns (found: bool, at: nat)
    requires HoldsAt(a, start, text) && c != NUL && c != '\n'
    ensures found ==> at < start + |text| && Find(c, text) == at - start && a[at] == c
    ensures !found ==> Find(c, text) == |text| || '\n' in text[..Find(c, text)]
  {
    at := start;
    found := false;
    while a[at] != NUL && a[at] != '\n'
      invariant start <= at <= start + |text|
      invariant forall j :: 0 <= j < |text| ==> a[start + j] == text[j]
      invariant Find(c, text) == at - start + Find(c, text[at - start..])
      decreases start + |text| - at
    {
      if a[at] == c {
        return true, at;
      }
      assert text[at - start..][1..] == text[at + 1 - start..];
      at := at + 1;
    }
    if at < start + |text| {
      FindMeans(c, text);
      var n := Find(c, text);
      assert text[at - start..][0] == '\n';
      assert n > at - start && text[..n][at - start] == '\n';
    }
  }

  /** No line feed hides a pipe from the search. */
  ghost predicate PipesFound(text: string) {
    var pieces := Split(PIPE, text);
    forall k :: 0 <= k < |pieces| - 1 ==> Free('\n', pieces[k])
  }

  lemma PiecesFree(first: string, rest: seq<string>)
    requires rest != []
    ensures (forall k :: 0 <= k < |[first] + rest| - 1 ==> Free('\n', ([first] + rest)[k]))
       <==> Free('\n', first) && forall k :: 0 <= k < |rest| - 1 ==> Free('\n', rest[k])
  {
    hide Free;
    var all := [first] + rest;
    assert all[0] == first;
    assert forall k :: 0 <= k < |rest| ==> rest[k] == all[k + 1];
  }

  /** That is so exactly when no line feed stands before the last pipe, as in every line that
      was read up to its line feed. */
  lemma {:induction false} PipesFoundIff(before: string, last: string)
    requires '|' !in last
    ensures PipesFound(before + "|" + last) <==> '\n' !in before
    ensures Split('|', before + "|" + last) != []
    decreases |before|
  {
    hide Split;
    FindMeans(PIPE, before);
    SplitFirst(PIPE, last, []);
    var n := Find(PIPE, before);
    var first := before[..n];
    if n == |before| {
      SplitFirst(PIPE, first, last);
      PiecesFree(first, Split(PIPE, last));
      assert before == first;
    } else {
      var rest := before[n + 1..];
      assert before == first + [PIPE] + rest;
      assert before + [PIPE] + last == first + [PIPE] + (rest + [PIPE] + last);
      SplitFirst(PIPE, first, rest + [PIPE] + last);
      PipesFoundIff(rest, last);
      PiecesFree(first, Split(PIPE, rest + [PIPE] + last));
      assert Free('\n', before) <==> Free('\n', first) && Free('\n', rest);
    }
  }

  lemma NoneAtEnd(s: string)
    ensures Find(PIPE, s) < |s| && Free('\n', s[..Find(PIPE, s)]) ==> '\n' !in s[..Find(PIPE, s)]
  {}

  /** Puts a NUL in place of the pipe that ends the first piece of what is left of the line. */
  method CutPiece(input: array<char>, prev: nat, ghost rest: string) returns (found: bool, next: nat)
    requires HoldsAt(input, prev, rest)
    requires var n := Find(PIPE, rest); n < |rest| ==> Free('\n', rest[..n])
    modifies input
    ensures var n := Find(PIPE, rest);
      && HoldsAt(input, prev, rest[..n]) && (found <==> n < |rest|)
      && (found ==> next == prev + n && HoldsAt(input, next + 1, rest[n + 1..]))
  {
    hide Find;
    ghost var n := Find(PIPE, rest);
    found, next := Strchr(input, prev, PIPE, rest);
    NoneAtEnd(rest);
    if found {
      input[next] := NUL;
    }
    assert n == |rest| ==> rest[..n] == rest;
  }

  /** Cuts off the first piece and parses it. */
  method ParsePiece(input: array<char>, prev: nat, ghost rest: string)
    returns (c: CommandArgument, found: bool, next: nat)
    requires HoldsAt(input, prev, rest)
    requires var n := Find(PIPE, rest); (n < |rest| ==> Free('\n', rest[..n])) && StaysInside(rest[..n])
    modifies input
    ensures fresh(c.Buffers()) && c.Represents(Parse(rest[..Find(PIPE, rest)]))
    ensures var n := Find(PIPE, rest);
      && (found <==> n < |rest|)
      && (found ==> next == prev + n && HoldsAt(input, next + 1, rest[n + 1..]))
  {
    hide Parse, StaysInside, Find;
    found, next := CutPiece(input, prev, rest);
    c := ParseInput(input, prev, rest[..Find(PIPE, rest)]);
  }

  /** The first piece ends at the first pipe. */
  lemma FirstPiece(s: string)
    ensures var n := Find(PIPE, s);
      && Split(PIPE, s)[0] == s[..n] && Free(PIPE, s[..n])
      && (n < |s| <==> |Split(PIPE, s)| > 1)
      && (n < |s| ==> Split(PIPE, s[n + 1..]) == Split(PIPE, s)[1..])
  {
    FindMeans(PIPE, s);
    if Find(PIPE, s) == |s| {
      assert s[..|s|] == s;
    }
  }

  /** Parses each piece of the line into its slot, putting a NUL in place of every pipe. */
  method ParsePipeCommand(slots: array<CommandArgument?>, numOfPipes: nat, input: array<char>, ghost text: string)
    requires HoldsAt(input, 0, text)
    requires slots.Length == numOfPipes + 1 == |Split('|', text)|
    requires PipesFound(text)
    requires forall k :: 0 <= k <= numOfPipes ==> StaysInside(Split('|', text)[k])
    modifies slots, input
    ensures forall k :: 0 <= k <= numOfPipes ==>
      slots[k] != null && slots[k].Represents(Parse(Split('|', text)[k]))
  {
    hide Parse, StaysInside, Split, Find, HoldsAt, Free;
    ghost var pieces, rest := Split(PIPE, text), text;
    var prev := 0;
    for i := 0 to numOfPipes + 1
      invariant forall k :: 0 <= k < i ==>
        slots[k] != null && input !in slots[k].Buffers() && slots[k].Represents(Parse(pieces[k]))
      invariant i <= numOfPipes ==> HoldsAt(input, prev, rest) && Split(PIPE, rest) == pieces[i..]
    {
      FirstPiece(rest);
      assert pieces[i..][0] == pieces[i] && pieces[i + 1..] == pieces[i..][1..];
      var c, found, next := ParsePiece(input, prev, rest);
      assert c.Represents(Parse(pieces[i]));
      slots[i] := c;
      if found {
        prev := next + 1;
        rest := rest[|pieces[i]| + 1..];
      }
    }
  }

  /** A pipeline is refused exactly when some piece has no command. */
  method IsValidateParsedPipeInput(slots: array<CommandArgument?>, numOfPipes: nat, ghost pieces: seq<string>)
    returns (valid: bool)
    requires slots.Length == numOfPipes + 1 == |pieces|
    requires forall k :: 0 <= k <= numOfPipes ==> slots[k] != null && slots[k].Represents(Parse(pieces[k]))
    ensures valid <==> forall k :: 0 <= k <= numOfPipes ==> Parse(pieces[k]).command != []
  {
    hide Parse;
    for index := 0 to numOfPipes + 1
      invariant forall k :: 0 <= k < index ==> Parse(pieces[k]).command != []
    {
      assert slots[index].Represents(Parse(pieces[index]));
      var len := Strlen(slots[index].command, 0, Parse(pieces[index]).command);
      if len == 0 {
        return false;
      }
    }
    valid := true;
  }

  /** A command of a pipeline as it is typed: its words, the spaces before each, and a tail. */
  datatype Typed = Typed(words: seq<string>, gaps: seq<string>, tail: string)
  {
    ghost predicate WellFormed() {
      TypedLine(words, gaps, tail)
    }

    function Text(): string
      requires |gaps| == |words|
    {
      Render(words, gaps) + tail
    }

    function Meaning(): Parsed
      requires words != []
    {
      Parsed(words[0], words[1..], '&' in tail)
    }
  }

  /** A typed pipeline comes back command by command. */
  lemma PipelineReturns(commands: seq<Typed>, pieces: seq<string>)
    requires |commands| == |pieces| > 0
    requires forall k :: 0 <= k < |commands| ==>
      commands[k].WellFormed() && pieces[k] == commands[k].Text() && '|' !in pieces[k]
    ensures Split('|', Join('|', pieces)) == pieces
    ensures forall k :: 0 <= k < |commands| ==>
      commands[k].words != [] && Parse(pieces[k]) == commands[k].Meaning()
  {
    SplitJoin(PIPE, pieces);
    forall k | 0 <= k < |commands|
      ensures commands[k].words != [] && Parse(pieces[k]) == commands[k].Meaning()
    {
      TypedLineMeans(commands[k].words, commands[k].gaps, commands[k].tail);
    }
  }
}
