/** The words of a command line on the loader's data stack, and their concatenation. */
module ArgvStack {
  import opened Buffers

  /** A cell of the data stack: the address of a text, or a number. */
  datatype Cell = Addr(text: string) | Num(n: nat)

  /** The cells of the words, the first word nearest the top. */
  function Cells(words: seq<string>): (cells: seq<Cell>)
    ensures |cells| == 2 * |words|
  {
    if words == [] then [] else Cells(words[1..]) + [Addr(words[0]), Num(|words[0]|)]
  }

  lemma {:induction false} CellsAppend(words: seq<string>, word: string)
    ensures Cells(words + [word]) == [Addr(word), Num(|word|)] + Cells(words)
  {
    if words == [] {
      assert words + [word] == [word];
    } else {
      CellsAppend(words[1..], word);
      assert (words + [word])[1..] == words[1..] + [word];
    }
  }

  /** Counted from the top, word `i` has its length and its address at these places. */
  lemma {:induction false} CellsAt(words: seq<string>, i: nat)
    requires i < |words|
    ensures var cells := Cells(words); var n := |cells|;
      cells[n - 1 - 2 * i] == Num(|words[i]|) && cells[n - 2 - 2 * i] == Addr(words[i])
  {
    if i > 0 {
      CellsAt(words[1..], i - 1);
    }
  }

  /** Each word followed by one space. */
  function Spaced(words: seq<string>): string {
    if words == [] then [] else words[0] + " " + Spaced(words[1..])
  }

  lemma {:induction false} SpacedAppend(words: seq<string>, word: string)
    ensures Spaced(words + [word]) == Spaced(words) + word + " "
  {
    if words == [] {
      assert words + [word] == [word];
      assert Spaced([word]) == word + " " + [];
    } else {
      SpacedAppend(words[1..], word);
      assert (words + [word])[1..] == words[1..] + [word];
      assert Spaced(words + [word]) == words[0] + " " + (Spaced(words[1..]) + word + " ");
    }
  }

  lemma SpacedFits(before: string, rest: seq<string>, size: nat)
    requires rest != [] && |before + Spaced(rest)| == size
    ensures |before| + |rest[0]| + 1 <= size
  {}

  class Stack {
    var cells: seq<Cell>

    constructor ()
      ensures cells == []
    {
      cells := [];
    }

    /** The words lie on top of the stack under their count. */
    ghost predicate Holds(base: seq<Cell>, words: seq<string>)
      reads this
    {
      cells == base + Cells(words) + [Num(|words|)]
    }

    method Push(cell: Cell)
      modifies this
      ensures cells == old(cells) + [cell]
    {
      cells := cells + [cell];
    }

    method Pop() returns (cell: Cell)
      requires cells != []
      modifies this
      ensures cell == old(cells)[|old(cells)| - 1] && cells == old(cells)[..|old(cells)| - 1]
    {
      cell := cells[|cells| - 1];
      cells := cells[..|cells| - 1];
    }

    /** The cell with `k` cells above it. */
    function Pick(k: nat): Cell
      requires k < |cells|
      reads this
    {
      cells[|cells| - 1 - k]
    }

    /** Moves the top cell down below `k` others. */
    method MinusRoll(k: nat, ghost lower: seq<Cell>, ghost upper: seq<Cell>, ghost cell: Cell)
      requires cells == lower + upper + [cell] && k == |upper|
      modifies this
      ensures cells == lower + [cell] + upper
    {
      var top := |cells| - 1;
      cells := cells[..top - k] + [cells[top]] + cells[top - k..top];
    }

    /** Adds one to the count on top of the stack. */
    method Increment(ghost lower: seq<Cell>, ghost n: nat)
      requires cells == lower + [Num(n)]
      modifies this
      ensures cells == lower + [Num(n + 1)]
    {
      var count := Pop();
      assert cells == lower;
      Push(Num(count.n + 1));
    }

    method QueueArgv(word: string, ghost base: seq<Cell>, ghost words: seq<string>)
      requires Holds(base, words)
      modifies this
      ensures Holds(base, words + [word])
    {
      hide Cells;
      ghost var queue := Cells(words) + [Num(|words|)];
      assert cells == base + queue;
      var n := Pick(0).n;
      Push(Addr(word));
      MinusRoll(2 * n + 1, base, queue, Addr(word));
      Push(Num(|word|));
      MinusRoll(2 * n + 1, base + [Addr(word)], queue, Num(|word|));
      Increment(base + [Addr(word)] + [Num(|word|)] + Cells(words), |words|);
      CellsAppend(words, word);
      assert base + [Addr(word)] + [Num(|word|)] + Cells(words) == base + Cells(words + [word]);
    }

    /** Takes the first word from under the count, which drops by one. */
    method UnqueueArgv(ghost base: seq<Cell>, ghost words: seq<string>) returns (word: string)
      requires Holds(base, words) && words != []
      modifies this
      ensures word == words[0] && Holds(base, words[1..])
    {
      ghost var lower := base + Cells(words[1..]);
      assert cells == lower + [Addr(words[0]), Num(|words[0]|), Num(|words|)];
      var n := Pop();
      var u := Pop();
      var a := Pop();
      assert cells == lower && a == Addr(words[0]);
      Push(Num(n.n - 1));
      word := a.text;
    }

    /** Puts the words of the command line on the stack in turn. */
    method GetArguments(line: seq<string>, ghost base: seq<Cell>)
      requires cells == base
      modifies this
      ensures Holds(base, line)
    {
      Push(Num(0));
      for i := 0 to |line|
        invariant Holds(base, line[..i])
      {
        QueueArgv(line[i], base, line[..i]);
        assert line[..i + 1] == line[..i] + [line[i]];
      }
      assert line[..|line|] == line;
    }

    /** Length of word `i`, picked out of the stack. */
    method ArgLength(i: nat, ghost base: seq<Cell>, ghost words: seq<string>) returns (u: nat)
      requires Holds(base, words) && i < |words|
      ensures u == |words[i]|
    {
      CellsAt(words, i);
      var n := |cells|;
      assert Pick(2 * (i + 1)) == Cells(words)[|Cells(words)| - 2 - 2 * i];
      assert cells[n - 2 - 2 * i] == Cells(words)[|Cells(words)| - 1 - 2 * i];
      u := Pick(2 * i + 1).n;
    }

    /** Room for all words with a space after each. */
    method StrlenArgv(ghost base: seq<Cell>, ghost words: seq<string>) returns (size: nat)
      requires Holds(base, words)
      ensures size == |Spaced(words)|
    {
      var n := Pick(0).n;
      size := 0;
      assert words[..0] == [];
      for index := 0 to n
        invariant size == |Spaced(words[..index])|
      {
        var u := ArgLength(index, base, words);
        SpacedAppend(words[..index], words[index]);
        assert words[..index + 1] == words[..index] + [words[index]];
        size := size + u + 1;
      }
      assert words[..n] == words;
    }

    /** Takes the words off the stack, first in first out, into a buffer of exactly their size. */
    method ConcatArgv(ghost base: seq<Cell>, ghost words: seq<string>) returns (buffer: array<char>, len: nat)
      requires Holds(base, words)
      modifies this
      ensures cells == base && fresh(buffer)
      ensures len == buffer.Length && buffer[..] == Spaced(words)
    {
      var size := StrlenArgv(base, words);
      buffer := new char[size];
      len := 0;
      ghost var rest := words;
      while Pick(0).n != 0
        invariant Holds(base, rest) && len <= size == buffer.Length
        invariant buffer[..len] + Spaced(rest) == Spaced(words)
        decreases |rest|
      {
        ghost var before := buffer[..len];
        SpacedFits(before, rest, size);
        var word := UnqueueArgv(base, rest);
        len := Strcat(buffer, len, word);
        len := Strcat(buffer, len, " ");
        assert buffer[..len] == before + word + " ";
        assert buffer[..len] + Spaced(rest[1..]) == before + (word + " " + Spaced(rest[1..]));
        rest := rest[1..];
      }
      var count := Pop();
      assert rest == [] && cells == base;
      assert buffer[..len] == Spaced(words);
    }
  }
}
