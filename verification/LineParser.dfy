/** The parser of one configuration line: a state machine over `linePointer`. */
module LineParser {
  import opened Optional
  import opened Grammar

  datatype Outcome = Blank | Assignment(name: string, value: string) | SyntaxError

  function WithoutBackslashes(s: string): string {
    if s == [] then []
    else (if s[0] == '\\' then [] else [s[0]]) + WithoutBackslashes(s[1..])
  }

  /** The value buffer for a value as written in the line. */
  function Stored(value: string): string {
    if value != [] && value[0] == '"' then WithoutBackslashes(value) else value
  }

  /** What a line means. `beyond` is whatever lies in memory just after the line: a
      non-empty line of blanks is refused when that happens to be a letter. */
  function ParseLine(line: string, beyond: char): Outcome {
    match Decompose(line)
    case Some(r) => Assignment(r.name, Stored(r.value))
    case None =>
      if !IsComment(Skip(line)) || (line != [] && Skip(line) == [] && Letter(beyond)) then SyntaxError
      else Blank
  }

  /** A line is taken as an assignment exactly when the grammar reads it as one, with
      the name and value of that reading. */
  lemma AssignmentIff(line: string, beyond: char, name: string, value: string)
    ensures ParseLine(line, beyond) == Assignment(name, value)
       <==> exists r: Reading ::
              r.WellFormed() && r.Text() == line && r.name == name && Stored(r.value) == value
  {
    if Decompose(line).Some? {
      TextDecompose(line);
    }
    forall r: Reading | r.WellFormed() && r.Text() == line
      ensures Decompose(line) == Some(r)
    {
      DecomposeText(r);
    }
  }

  /** A line is taken as blank exactly when the grammar says so, but for blanks
      followed in memory by a letter. */
  lemma BlankIff(line: string, beyond: char)
    ensures ParseLine(line, beyond) == Blank
       <==> IsBlankLine(line) && !(line != [] && All(Space, line) && Letter(beyond))
  {
    BlankLineIff(line);
    if Decompose(line).Some? {
      assert !IsComment(Skip(line));
    }
    if All(Space, line) {
      assert line == line + [];
      SkipIs(line, []);
    }
    if Skip(line) == [] {
      assert line == line[..Span(Space, line)];
    }
  }

  lemma StoredNonEmpty(value: string)
    requires value != []
    ensures Stored(value) != []
  {}

  /** An accepted line leaves the name and the value both empty or both non-empty. */
  lemma AssignmentShape(line: string, beyond: char)
    requires ParseLine(line, beyond).Assignment?
    ensures var Assignment(name, value) := ParseLine(line, beyond);
      IsName(name) && value != []
  {
    TextDecompose(line);
    StoredNonEmpty(Decompose(line).value.value);
  }

  /** A blank line refused because of the letter that happens to follow it in memory. */
  lemma BlankLineRefused()
    ensures IsBlankLine(" ") && ParseLine(" ", 'x') == SyntaxError && ParseLine(" ", ' ') == Blank
  {
    assert " " == " " + [];
    SkipIs(" ", []);
  }

  /** The words the parser runs, in the order they can follow each other. */
  datatype Word =
    | WhiteSpace1 | VariableName | WhiteSpace2 | AssignmentSign
    | WhiteSpace3 | VariableValue | WhiteSpace4 | Comment
  {
    function Rank(): nat {
      match this
      case WhiteSpace1 => 0
      case VariableName => 1
      case WhiteSpace2 => 2
      case AssignmentSign => 3
      case WhiteSpace3 => 4
      case VariableValue => 5
      case WhiteSpace4 => 6
      case Comment => 7
    }

    predicate Final() { Comment? || WhiteSpace1? || WhiteSpace4? }
  }

  function Read(name: string, value: string): Outcome {
    if name == [] then Blank else Assignment(name, value)
  }

  /** What the rest of a line will lead to when `word` is the next one to run. */
  function Outlook(word: Word, s: string, beyond: char, name: string, value: string): Outcome
    decreases 7 - word.Rank()
  {
    if s == [] then
      if word.Final() then Read(name, value) else SyntaxError
    else
      match word
      case WhiteSpace1 =>
        var t := Skip(s);
        if t == [] then if Letter(beyond) then SyntaxError else Read(name, value)
        else if Letter(t[0]) then Outlook(VariableName, t, beyond, name, value)
        else if t[0] == '#' then Read(name, value)
        else SyntaxError
      case VariableName =>
        var n := Span(NameChar, s);
        Outlook(WhiteSpace2, s[n..], beyond, s[..n], value)
      case WhiteSpace2 =>
        var t := Skip(s);
        if t == [] || t[0] != '=' then SyntaxError else Outlook(AssignmentSign, t, beyond, name, value)
      case AssignmentSign =>
        Outlook(WhiteSpace3, s[1..], beyond, name, value)
      case WhiteSpace3 =>
        var t := Skip(s);
        if t == [] || !(Letter(t[0]) || Digit(t[0]) || t[0] == '"') then SyntaxError
        else Outlook(VariableValue, t, beyond, name, value)
      case VariableValue =>
        if ValueEnd(s).None? then SyntaxError
        else
          var k := ValueEnd(s).value;
          Outlook(WhiteSpace4, s[k..], beyond, name, Stored(s[..k]))
      case WhiteSpace4 =>
        if IsComment(Skip(s)) then Read(name, value) else SyntaxError
      case Comment =>
        Read(name, value)
  }

  /** The first word leads on to the name, to a comment, or to the end of the line. */
  lemma OutlookAtStart(s: string, beyond: char, name: string, value: string)
    requires s != []
    ensures var t := Skip(s);
      Outlook(WhiteSpace1, s, beyond, name, value)
        == if t == [] then if Letter(beyond) then SyntaxError else Outlook(WhiteSpace1, t, beyond, name, value)
           else if Letter(t[0]) then Outlook(VariableName, t, beyond, name, value)
           else if t[0] == '#' then Outlook(Comment, t, beyond, name, value)
           else SyntaxError
    ensures Outlook(VariableName, [], beyond, name, value) == SyntaxError
    ensures Outlook(Comment, [], beyond, name, value) == Outlook(WhiteSpace1, [], beyond, name, value)
  {
    hide Span, ValueEnd, Stored;
  }

  lemma OutlookAtSign(s: string, beyond: char, name: string, value: string)
    requires s != []
    ensures var t := Skip(s);
      Outlook(WhiteSpace2, s, beyond, name, value)
        == if t == [] || t[0] != '=' then SyntaxError else Outlook(AssignmentSign, t, beyond, name, value)
    ensures Outlook(AssignmentSign, [], beyond, name, value) == SyntaxError
  {
    hide Span, ValueEnd, Stored;
  }

  lemma OutlookAtValue(s: string, beyond: char, name: string, value: string)
    requires s != []
    ensures var t := Skip(s);
      Outlook(WhiteSpace3, s, beyond, name, value)
        == if t == [] || !(Letter(t[0]) || Digit(t[0]) || t[0] == '"') then SyntaxError
           else Outlook(VariableValue, t, beyond, name, value)
    ensures Outlook(VariableValue, [], beyond, name, value) == SyntaxError
  {
    hide Span, ValueEnd, Stored;
  }

  lemma OutlookOfValue(s: string, beyond: char, name: string)
    requires name != []
    ensures Outlook(WhiteSpace3, s, beyond, name, [])
         == match DecomposeTail(Skip(s))
            case None => SyntaxError
            case Some(tail) => Assignment(name, Stored(tail.value))
  {
    var t := Skip(s);
    if t != [] && ValueEnd(t).Some? {
      var w := t[ValueEnd(t).value..];
      assert w == [] ==> Skip(w) == [];
    }
  }

  lemma OutlookOfSign(t: string, beyond: char, name: string)
    requires name != []
    ensures Outlook(WhiteSpace2, t, beyond, name, [])
         == match DecomposeSign(t)
            case None => SyntaxError
            case Some(sign) =>
              match DecomposeTail(sign.rest)
              case None => SyntaxError
              case Some(tail) => Assignment(name, Stored(tail.value))
  {
    var u := Skip(t);
    if u != [] && u[0] == '=' {
      OutlookOfValue(u[1..], beyond, name);
    }
  }

  /** Running the words in turn decides exactly what the grammar decides. */
  lemma OutlookOfLine(line: string, beyond: char)
    ensures Outlook(WhiteSpace1, line, beyond, [], []) == ParseLine(line, beyond)
  {
    var s := Skip(line);
    if s != [] && Letter(s[0]) {
      var n := Span(NameChar, s);
      OutlookOfSign(s[n..], beyond, s[..n]);
    }
  }

  lemma SpanStep(p: char -> bool, s: string)
    ensures Span(p, s) == if s != [] && p(s[0]) then 1 + Span(p, s[1..]) else 0
  {}

  lemma Cut(s: string, i: nat, j: nat, k: nat)
    requires i <= j <= k <= |s|
    ensures s[i..k][..j - i] == s[i..j] && s[i..k][j - i..] == s[j..k]
  {}

  lemma WithoutStep(s: string, i: nat)
    requires i < |s|
    ensures WithoutBackslashes(s[i..])
         == (if s[i] == '\\' then [] else [s[i]]) + WithoutBackslashes(s[i + 1..])
  {
    assert s[i..][1..] == s[i + 1..];
  }

  lemma WithoutNothing(s: string)
    requires s == []
    ensures WithoutBackslashes(s) == []
  {}

  lemma QuoteStep(s: string, i: nat)
    requires i <= |s|
    ensures QuoteEnd(s, i)
         == if i == |s| then None
            else if s[i] == '"' then Some(i + 1)
            else if s[i] != '\\' then QuoteEnd(s, i + 1)
            else if i + 1 == |s| then None
            else QuoteEnd(s, i + 2)
  {}

  method RemoveBackslashes(s: string) returns (r: string)
    requires s != []
    ensures r == WithoutBackslashes(s)
  {
    hide WithoutBackslashes;
    var copy := new char[|s|];
    var i, n := 0, 0;
    while true
      invariant 0 <= n <= i < |s|
      invariant WithoutBackslashes(s) == copy[..n] + WithoutBackslashes(s[i..])
      decreases |s| - i
    {
      WithoutStep(s, i);
      if s[i] != '\\' {
        ghost var kept := copy[..n];
        copy[n] := s[i];
        n := n + 1;
        assert copy[..n] == kept + [s[i]];
      }
      i := i + 1;
      if i == |s| {
        break;
      }
    }
    WithoutNothing(s[i..]);
    r := copy[..n];
  }

  class LineParser {
    /** The line in memory and the one character after it. */
    var text: string
    var linePointer: nat
    var endOfLine: nat
    var parsingFunction: Word
    var nameBuffer: string
    var valueBuffer: string

    ghost predicate Valid()
      reads this
    {
      linePointer <= endOfLine && |text| == endOfLine + 1
    }

    ghost function Rest(): string
      requires Valid()
      reads this
    {
      text[linePointer..endOfLine]
    }

    ghost function Future(): Outcome
      requires Valid()
      reads this
    {
      Outlook(parsingFunction, Rest(), text[endOfLine], nameBuffer, valueBuffer)
    }

    constructor ()
      ensures Valid() && nameBuffer == [] && valueBuffer == []
    {
      text, linePointer, endOfLine := [' '], 0, 0;
      parsingFunction := WhiteSpace1;
      nameBuffer, valueBuffer := [], [];
    }

    predicate EndOfLine()
      reads this
    {
      linePointer == endOfLine
    }

    method FreeBuffers()
      modifies `nameBuffer, `valueBuffer
      ensures nameBuffer == [] && valueBuffer == []
    {
      nameBuffer, valueBuffer := [], [];
    }

    /** Moves over the characters satisfying `p`. */
    method SkipWhile(p: char -> bool)
      requires Valid()
      modifies `linePointer
      ensures Valid() && linePointer == old(linePointer) + Span(p, old(Rest()))
    {
      hide Span;
      ghost var s := Rest();
      while !EndOfLine() && p(text[linePointer])
        invariant Valid() && old(linePointer) <= linePointer
        invariant Span(p, s) == linePointer - old(linePointer) + Span(p, Rest())
        decreases endOfLine - linePointer
      {
        SpanStep(p, Rest());
        Cut(text, linePointer, linePointer + 1, endOfLine);
        linePointer := linePointer + 1;
      }
      SpanStep(p, Rest());
    }

    method EatSpace()
      requires Valid()
      modifies `linePointer
      ensures Valid() && Rest() == Skip(old(Rest()))
    {
      SkipWhile(Space);
      Cut(text, old(linePointer), linePointer, endOfLine);
    }

    method ParseName() returns (name: string)
      requires Valid()
      modifies `linePointer
      ensures Valid()
      ensures var n := Span(NameChar, old(Rest())); name == old(Rest())[..n] && Rest() == old(Rest())[n..]
    {
      var start := linePointer;
      SkipWhile(NameChar);
      name := text[start..linePointer];
      Cut(text, start, linePointer, endOfLine);
    }

    /** Returns false on a syntax error. */
    method ParseQuote() returns (ok: bool, value: string)
      requires Valid() && !EndOfLine() && text[linePointer] == '"'
      modifies `linePointer
      ensures Valid()
      ensures ok <==> ValueEnd(old(Rest())).Some?
      ensures ok ==> var k := ValueEnd(old(Rest())).value;
        value == WithoutBackslashes(old(Rest())[..k]) && Rest() == old(Rest())[k..]
    {
      hide QuoteEnd, WithoutBackslashes;
      var start := linePointer;
      ghost var s := Rest();
      QuoteStep(s, |s|);
      value := [];
      linePointer := linePointer + 1;
      if EndOfLine() {
        return false, [];
      }
      while text[linePointer] != '"'
        invariant Valid() && start < linePointer < endOfLine
        invariant QuoteEnd(s, 1) == QuoteEnd(s, linePointer - start)
        decreases endOfLine - linePointer
      {
        QuoteStep(s, linePointer - start);
        if text[linePointer] == '\\' {
          linePointer := linePointer + 1;
          if EndOfLine() {
            return false, [];
          }
        }
        linePointer := linePointer + 1;
        if EndOfLine() {
          return false, [];
        }
      }
      QuoteStep(s, linePointer - start);
      linePointer := linePointer + 1;
      value := RemoveBackslashes(text[start..linePointer]);
      Cut(text, start, linePointer, endOfLine);
      ok := true;
    }

    method ReadValue() returns (ok: bool)
      requires Valid() && !EndOfLine()
      modifies `linePointer, `valueBuffer
      ensures Valid()
      ensures ok <==> ValueEnd(old(Rest())).Some?
      ensures ok ==> var k := ValueEnd(old(Rest())).value;
        valueBuffer == Stored(old(Rest())[..k]) && Rest() == old(Rest())[k..]
    {
      var value;
      if text[linePointer] == '"' {
        ok, value := ParseQuote();
        if !ok {
          return;
        }
      } else {
        value := ParseName();
        ok := true;
      }
      valueBuffer := value;
    }

    /** The buffers fill in step with the words. */
    ghost predicate InStep()
      requires Valid()
      reads this
    {
      match parsingFunction
      case WhiteSpace1 => nameBuffer == [] && valueBuffer == []
      case VariableName =>
        nameBuffer == [] && valueBuffer == [] && (!EndOfLine() ==> Letter(text[linePointer]))
      case WhiteSpace2 => nameBuffer != [] && valueBuffer == []
      case AssignmentSign => nameBuffer != [] && valueBuffer == []
      case WhiteSpace3 => nameBuffer != [] && valueBuffer == []
      case VariableValue =>
        && nameBuffer != [] && valueBuffer == []
        && (!EndOfLine() ==>
              Letter(text[linePointer]) || Digit(text[linePointer]) || text[linePointer] == '"')
      case WhiteSpace4 => nameBuffer != [] && valueBuffer != []
      case Comment => nameBuffer == [] <==> valueBuffer == []
    }

    ghost predicate Ready(word: Word)
      reads this
    {
      Valid() && InStep() && !EndOfLine() && parsingFunction == word
    }

    method DoWhiteSpace1() returns (ok: bool)
      requires Ready(WhiteSpace1)
      modifies `linePointer, `parsingFunction
      ensures Valid() && InStep()
      ensures ok ==> Future() == old(Future()) && (EndOfLine() || 0 < parsingFunction.Rank())
      ensures !ok ==> old(Future()) == SyntaxError
    {
      hide Outlook, Skip;
      OutlookAtStart(Rest(), text[endOfLine], nameBuffer, valueBuffer);
      EatSpace();
      if Letter(text[linePointer]) {
        parsingFunction := VariableName;
        return true;
      }
      if text[linePointer] == '#' {
        parsingFunction := Comment;
        return true;
      }
      ok := EndOfLine();
    }

    method DoVariableName()
      requires Ready(VariableName)
      modifies `linePointer, `parsingFunction, `nameBuffer
      ensures Valid() && InStep()
      ensures Future() == old(Future()) && parsingFunction == WhiteSpace2
    {
      nameBuffer := ParseName();
      parsingFunction := WhiteSpace2;
    }

    method DoWhiteSpace2() returns (ok: bool)
      requires Ready(WhiteSpace2)
      modifies `linePointer, `parsingFunction
      ensures Valid() && InStep()
      ensures ok ==> Future() == old(Future()) && parsingFunction == AssignmentSign
      ensures !ok ==> old(Future()) == SyntaxError
    {
      hide Outlook, Skip;
      OutlookAtSign(Rest(), text[endOfLine], nameBuffer, valueBuffer);
      EatSpace();
      ok := text[linePointer] == '=';
      if ok {
        parsingFunction := AssignmentSign;
      }
    }

    method DoAssignmentSign()
      requires Ready(AssignmentSign)
      modifies `linePointer, `parsingFunction
      ensures Valid() && InStep()
      ensures Future() == old(Future()) && parsingFunction == WhiteSpace3
    {
      Cut(text, linePointer, linePointer + 1, endOfLine);
      linePointer := linePointer + 1;
      parsingFunction := WhiteSpace3;
    }

    method DoWhiteSpace3() returns (ok: bool)
      requires Ready(WhiteSpace3)
      modifies `linePointer, `parsingFunction
      ensures Valid() && InStep()
      ensures ok ==> Future() == old(Future()) && parsingFunction == VariableValue
      ensures !ok ==> old(Future()) == SyntaxError
    {
      hide Outlook, Skip;
      OutlookAtValue(Rest(), text[endOfLine], nameBuffer, valueBuffer);
      EatSpace();
      var c := text[linePointer];
      ok := Letter(c) || Digit(c) || c == '"';
      if ok {
        parsingFunction := VariableValue;
      }
    }

    method DoVariableValue() returns (ok: bool)
      requires Ready(VariableValue)
      modifies `linePointer, `parsingFunction, `valueBuffer
      ensures Valid() && (ok ==> InStep())
      ensures ok ==> Future() == old(Future()) && parsingFunction == WhiteSpace4
      ensures !ok ==> old(Future()) == SyntaxError
    {
      ghost var s := Rest();
      ok := ReadValue();
      if ok {
        StoredNonEmpty(s[..ValueEnd(s).value]);
      }
      parsingFunction := WhiteSpace4;
    }

    method DoWhiteSpace4() returns (ok: bool)
      requires Ready(WhiteSpace4)
      modifies `linePointer, `parsingFunction
      ensures Valid() && InStep()
      ensures ok ==> Future() == old(Future()) && (EndOfLine() || parsingFunction == Comment)
      ensures !ok ==> old(Future()) == SyntaxError
    {
      hide Span, ValueEnd, Stored;
      EatSpace();
      if text[linePointer] == '#' {
        parsingFunction := Comment;
        return true;
      }
      ok := EndOfLine();
    }

    /** Runs the current word once. Returns false on a syntax error. */
    method Execute() returns (ok: bool)
      requires Valid() && InStep() && !EndOfLine()
      modifies `linePointer, `parsingFunction, `nameBuffer, `valueBuffer
      ensures Valid() && (ok ==> InStep())
      ensures ok ==> Future() == old(Future())
      ensures ok ==> EndOfLine() || old(parsingFunction.Rank()) < parsingFunction.Rank()
      ensures !ok ==> old(Future()) == SyntaxError
    {
      ok := true;
      match parsingFunction
      case WhiteSpace1 => ok := DoWhiteSpace1();
      case VariableName => DoVariableName();
      case WhiteSpace2 => ok := DoWhiteSpace2();
      case AssignmentSign => DoAssignmentSign();
      case WhiteSpace3 => ok := DoWhiteSpace3();
      case VariableValue => ok := DoVariableValue();
      case WhiteSpace4 => ok := DoWhiteSpace4();
      case Comment => linePointer := endOfLine;
    }

    /** Parses one line. Returns false on a syntax error. */
    method GetAssignment(line: string, beyond: char) returns (ok: bool)
      requires nameBuffer == [] && valueBuffer == []
      modifies this
      ensures Valid()
      ensures ok <==> ParseLine(line, beyond) != SyntaxError
      ensures ok ==> Read(nameBuffer, valueBuffer) == ParseLine(line, beyond)
      ensures ok ==> (nameBuffer == [] <==> valueBuffer == [])
    {
      text := line + [beyond];
      endOfLine := |line|;
      linePointer := 0;
      parsingFunction := WhiteSpace1;
      assert Rest() == line;
      OutlookOfLine(line, beyond);
      while !EndOfLine()
        invariant Valid() && InStep() && Future() == ParseLine(line, beyond)
        decreases if EndOfLine() then 0 else 8 - parsingFunction.Rank()
      {
        ok := Execute();
        if !ok {
          return;
        }
      }
      ok := parsingFunction.Final();
    }
  }
}
