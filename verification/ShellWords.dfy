/** What a shell command line means: a command, its arguments, and whether it runs in the
    background. */
module ShellWords {
  import opened Splitting

  const SPACE: char := ' '
  const NUL: char := '\0'

  datatype Parsed = Parsed(command: string, arguments: seq<string>, background: bool)

  predicate TailChar(c: char) { c == SPACE || c == '\n' || c == '&' }

  /** How many spaces the line starts with. */
  function LeadingSpaces(s: string): (n: nat)
    ensures n <= |s| && Only(SPACE, s[..n])
    ensures n < |s| ==> s[n] != SPACE
  {
    if s == [] || s[0] != SPACE then 0 else 1 + LeadingSpaces(s[1..])
  }

  /** Where the spaces, line feeds and ampersands at the end start. */
  function TailStart(s: string): (n: nat)
    ensures n <= |s|
    ensures forall i :: n <= i < |s| ==> TailChar(s[i])
    ensures 0 < n ==> !TailChar(s[n - 1])
  {
    if s == [] || !TailChar(s[|s| - 1]) then |s| else TailStart(s[..|s| - 1])
  }

  function Trimmed(s: string): string {
    var t := s[LeadingSpaces(s)..];
    t[..TailStart(t)]
  }

  function Background(s: string): bool {
    var t := s[LeadingSpaces(s)..];
    '&' in t[TailStart(t)..]
  }

  /** The command and its arguments are the words of the trimmed line. */
  function Parse(s: string): Parsed {
    var words := Words(SPACE, Trimmed(s));
    if words == [] then Parsed([], [], Background(s))
    else Parsed(words[0], words[1..], Background(s))
  }

  /** The words read so far, with an argument just begun but still empty after a space. */
  function Slots(s: string): seq<string> {
    if s == [] then [[]]
    else Words(SPACE, s) + if s[|s| - 1] == SPACE then [[]] else []
  }

  /** What one more character does to the slots. */
  function NextSlots(slots: seq<string>, c: char): seq<string>
    requires slots != []
  {
    var last := slots[|slots| - 1];
    if c != SPACE then slots[..|slots| - 1] + [last + [c]]
    else if last == [] then slots
    else slots + [[]]
  }

  lemma TakeParts(s: string, n: nat, more: string)
    requires n <= |s|
    ensures s + more == s[..n] + (s[n..] + more)
    ensures (s + more)[..n] == s[..n] && (s + more)[n..] == s[n..] + more
  {}

  lemma Take(s: string, n: nat, more: string)
    requires n <= |s| && Free(SPACE, s[..n]) && (n < |s| ==> s[n] == SPACE)
    requires n < |s| || (more != [] && more[0] == SPACE)
    ensures Find(SPACE, s + more) == n
    ensures (s + more)[..n] == s[..n] && (s + more)[n..] == s[n..] + more
  {
    hide Find, Free;
    TakeParts(s, n, more);
    FindIs(SPACE, s[..n], s[n..] + more);
  }

  lemma {:induction false} WordsAppendSpace(s: string)
    ensures Words(SPACE, s + [SPACE]) == Words(SPACE, s)
    decreases |s|
  {
    if s == [] {
      assert (s + [SPACE])[1..] == [];
    } else if s[0] == SPACE {
      WordsAppendSpace(s[1..]);
      assert (s + [SPACE])[1..] == s[1..] + [SPACE];
    } else {
      var n := Find(SPACE, s);
      FindMeans(SPACE, s);
      WordsAppendSpace(s[n..]);
      Take(s, n, [SPACE]);
    }
  }

  lemma LastFree(s: string)
    ensures s != [] && Free(SPACE, s) ==> s[|s| - 1] != SPACE
    ensures SPACE !in s ==> Free(SPACE, s)
  {}

  lemma FreeMore(s: string, c: char)
    requires Free(SPACE, s) && c != SPACE
    ensures Free(SPACE, s + [c]) && Free(SPACE, [])
  {}

  /** One more character of a word either starts a word or makes the last one longer. */
  lemma {:induction false} WordsAppendChar(s: string, c: char)
    requires c != SPACE
    ensures var words := Words(SPACE, s);
      Words(SPACE, s + [c])
        == if s == [] || s[|s| - 1] == SPACE then words + [[c]]
           else if words == [] then []
           else words[..|words| - 1] + [words[|words| - 1] + [c]]
    ensures s != [] && s[|s| - 1] != SPACE ==> Words(SPACE, s) != []
    decreases |s|
  {
    hide Words, Find, Free;
    SkipSeparator(SPACE, s);
    SkipSeparator(SPACE, s + [c]);
    FindMeans(SPACE, s);
    var n := Find(SPACE, s);
    if s != [] && s[0] == SPACE {
      WordsAppendChar(s[1..], c);
      assert (s + [c])[1..] == s[1..] + [c];
    } else if n == |s| {
      assert s[..n] == s && s == [] + s + [];
      LastFree(s);
      FreeMore(s, c);
      PeelWord(SPACE, [], s, []);
      PeelWord(SPACE, [], s + [c], []);
      assert s + [c] == [] + (s + [c]) + [];
      assert if s == [] then Words(SPACE, s) == [] && s + [c] == [c]
             else Words(SPACE, s) == [s] && s[|s| - 1] != SPACE;
      assert Words(SPACE, s + [c]) == Words(SPACE, s)[..0] + [s + [c]];
    } else {
      var word, rest := s[..n], s[n..];
      WordsAppendChar(rest, c);
      assert s == [] + word + rest && s + [c] == [] + word + (rest + [c]);
      PeelWord(SPACE, [], word, rest);
      PeelWord(SPACE, [], word, rest + [c]);
    }
  }

  lemma {:induction false} NonEmptyWords(s: string)
    ensures forall i :: 0 <= i < |Words(SPACE, s)| ==> Words(SPACE, s)[i] != []
    decreases |s|
  {
    if s != [] {
      if s[0] == SPACE {
        NonEmptyWords(s[1..]);
      } else {
        NonEmptyWords(s[Find(SPACE, s)..]);
      }
    }
  }

  lemma SlotsAppendMore(s: string, c: char)
    requires s != [] && s[0] != SPACE
    ensures Slots(s) != [] && Slots(s + [c]) == NextSlots(Slots(s), c)
  {
    hide Words;
    var words, more := Words(SPACE, s), s + [c];
    assert more[|more| - 1] == c;
    NonEmptyWords(s);
    WordsAppendChar(s, 'x');
    var slots := Slots(s);
    if s[|s| - 1] == SPACE {
      assert slots == words + [[]] && slots[..|slots| - 1] == words;
    } else {
      assert slots == words + [] == words;
    }
    if c == SPACE {
      WordsAppendSpace(s);
    } else {
      WordsAppendChar(s, c);
      assert Slots(more) == Words(SPACE, more) + [] == Words(SPACE, more);
      assert slots[|slots| - 1] == [] ==> slots[|slots| - 1] + [c] == [c];
    }
  }

  /** Reading one more character moves the slots on by exactly that character. */
  lemma SlotsAppend(s: string, c: char)
    requires if s == [] then c != SPACE else s[0] != SPACE
    ensures Slots(s) != [] && Slots(s + [c]) == NextSlots(Slots(s), c)
  {
    if s == [] {
      WordsAppendChar(s, c);
      assert s + [c] == [c] && Words(SPACE, s) + [[c]] == [[c]] && [[c]] + [] == [[c]];
      assert NextSlots([[]], c) == [[c]];
    } else {
      SlotsAppendMore(s, c);
    }
  }

  const MAX_ARGUMENTS: nat := 20
  const WORD_LENGTH: nat := 20
  const INPUT_LENGTH: nat := 500

  /** A command with at most 20 arguments, all of them of at most 19 characters. */
  predicate WordsFit(words: seq<string>) {
    && |words| <= MAX_ARGUMENTS + 1
    && forall i :: 0 <= i < |words| ==> |words[i]| < WORD_LENGTH
  }

  predicate SlotsFit(s: string) { WordsFit(Slots(s)) }

  lemma {:induction false} SlotsFitPrefix(s: string, n: nat)
    requires s != [] && s[0] != SPACE && SlotsFit(s) && n <= |s|
    ensures SlotsFit(s[..n])
    decreases |s|
  {
    hide Slots;
    var k := |s| - 1;
    if n <= k {
      assert s == s[..k] + [s[k]] && s[..k][..n] == s[..n];
      SlotsAppend(s[..k], s[k]);
      var less, more := Slots(s[..k]), Slots(s);
      assert forall i :: 0 <= i < |less| ==> |less[i]| <= |more[i]|;
      if k > 0 {
        SlotsFitPrefix(s[..k], n);
      }
    } else {
      assert s[..n] == s;
    }
  }

  lemma TrimmedShape(s: string)
    ensures var t := Trimmed(s); t != [] ==> t[0] != SPACE && Slots(t) == Words(SPACE, t) != []
  {
    var t := Trimmed(s);
    if t != [] {
      assert !TailChar(t[|t| - 1]);
      WordsAppendChar(t, 'x');
    }
  }

  /** A line written from words with any runs of spaces between them. */
  function Render(words: seq<string>, gaps: seq<string>): string
    requires |gaps| == |words|
  {
    if words == [] then [] else gaps[0] + words[0] + Render(words[1..], gaps[1..])
  }

  ghost predicate Separated(words: seq<string>, gaps: seq<string>) {
    && |gaps| == |words|
    && (forall i :: 0 <= i < |words| ==> words[i] != [] && Free(SPACE, words[i]))
    && (forall i :: 0 <= i < |gaps| ==> Only(SPACE, gaps[i]))
    && (forall i :: 1 <= i < |gaps| ==> gaps[i] != [])
  }

  lemma {:induction false} WordsOfRender(words: seq<string>, gaps: seq<string>)
    requires Separated(words, gaps)
    ensures Words(SPACE, Render(words, gaps)) == words
    ensures words != [] && gaps[0] != [] ==> Render(words, gaps)[0] == SPACE
  {
    if words != [] {
      WordsOfRender(words[1..], gaps[1..]);
      PeelWord(SPACE, gaps[0], words[0], Render(words[1..], gaps[1..]));
    }
  }

  /** The tail of a line is found where it was written. */
  lemma {:induction false} TailStartIs(body: string, tail: string)
    requires (body != [] ==> !TailChar(body[|body| - 1])) && forall i :: 0 <= i < |tail| ==> TailChar(tail[i])
    ensures TailStart(body + tail) == |body|
    ensures (body + tail)[..|body|] == body && (body + tail)[|body|..] == tail
    decreases |tail|
  {
    if tail == [] {
      assert body + tail == body;
    } else {
      var k := |tail| - 1;
      TailStartIs(body, tail[..k]);
      assert (body + tail)[..|body| + k] == body + tail[..k];
    }
  }

  lemma {:induction false} LeadingSpacesIs(gap: string, s: string)
    requires Only(SPACE, gap) && (s != [] ==> s[0] != SPACE)
    ensures LeadingSpaces(gap + s) == |gap| && (gap + s)[|gap|..] == s
  {
    if gap == [] {
      assert gap + s == s;
    } else {
      LeadingSpacesIs(gap[1..], s);
      assert (gap + s)[1..] == gap[1..] + s;
    }
  }

  lemma {:induction false} RenderEnd(words: seq<string>, gaps: seq<string>)
    requires Separated(words, gaps) && words != []
    ensures var s, last := Render(words, gaps), words[|words| - 1];
      |gaps[0]| < |s| && s[|s| - 1] == last[|last| - 1]
  {
    if |words| > 1 {
      RenderEnd(words[1..], gaps[1..]);
    } else {
      assert Render(words, gaps) == gaps[0] + words[0] + [];
    }
  }

  /** The rendered line without its leading spaces. */
  lemma RenderBody(words: seq<string>, gaps: seq<string>) returns (body: string)
    requires Separated(words, gaps) && words != []
    ensures Render(words, gaps) == gaps[0] + body && Words(SPACE, body) == words
    ensures body != [] && body[0] != SPACE
    ensures var last := words[|words| - 1]; body[|body| - 1] == last[|last| - 1]
  {
    hide Words;
    var rest := Render(words[1..], gaps[1..]);
    body := words[0] + rest;
    assert Render(words, gaps) == gaps[0] + body;
    RenderEnd(words, gaps);
    WordsOfRender(words[1..], gaps[1..]);
    PeelWord(SPACE, [], words[0], rest);
    assert [] + words[0] + rest == body;
  }

  lemma TrimIs(gap: string, body: string, tail: string)
    requires Only(SPACE, gap) && body != [] && body[0] != SPACE && !TailChar(body[|body| - 1])
    requires forall i :: 0 <= i < |tail| ==> TailChar(tail[i])
    ensures Trimmed(gap + (body + tail)) == body && Background(gap + (body + tail)) == ('&' in tail)
  {
    LeadingSpacesIs(gap, body + tail);
    TailStartIs(body, tail);
  }

  /** Words written with any runs of spaces, and with any tail of spaces, line feeds and
      ampersands, come back from the parser. */
  lemma ParseOfRender(words: seq<string>, gaps: seq<string>, tail: string)
    requires Separated(words, gaps) && words != []
    requires forall i :: 0 <= i < |tail| ==> TailChar(tail[i])
    requires var last := words[|words| - 1]; !TailChar(last[|last| - 1])
    ensures Parse(Render(words, gaps) + tail) == Parsed(words[0], words[1..], '&' in tail)
  {
    hide Words, TailChar, Render, Trimmed, Background;
    var body := RenderBody(words, gaps);
    TrimIs(gaps[0], body, tail);
    assert gaps[0] + (body + tail) == Render(words, gaps) + tail;
  }

  /** The copy of the trimmed line and its NUL, which is put as if the line had kept its leading
      spaces, are inside the buffer for it. */
  predicate CopyInside(text: string) { LeadingSpaces(text) + |Trimmed(text)| + 1 < INPUT_LENGTH }

  /** What the parser writes for one more character is inside its buffers: the character and
      the NUL after it, or the pointer to one more argument. */
  predicate StepInside(slots: seq<string>, c: char)
    requires slots != []
  {
    var last := slots[|slots| - 1];
    if c != SPACE then |last| + 1 < WORD_LENGTH else last != [] ==> |slots| - 1 < MAX_ARGUMENTS
  }

  ghost predicate StepsInside(s: string) {
    forall p :: 0 <= p < |s| ==> Slots(s[..p]) != [] && StepInside(Slots(s[..p]), s[p])
  }

  /** Nothing is written past the end of a buffer while the line is parsed. */
  ghost predicate StaysInside(text: string) { CopyInside(text) && StepsInside(Trimmed(text)) }

  lemma StepInsideIff(slots: seq<string>, c: char)
    requires slots != []
    ensures WordsFit(NextSlots(slots, c)) <==> WordsFit(slots) && StepInside(slots, c)
  {
    var n, next := |slots| - 1, NextSlots(slots, c);
    assert forall i :: 0 <= i < n ==> next[i] == slots[i];
    assert c != SPACE ==> next[n] == slots[n] + [c];
    assert c == SPACE ==> next[n] == slots[n];
  }

  lemma NoSlots()
    ensures SlotsFit([])
  {}

  lemma {:induction false} StepsInsideIff(s: string)
    requires s != [] ==> s[0] != SPACE
    ensures StepsInside(s) <==> SlotsFit(s)
    decreases |s|
  {
    hide Slots, NextSlots, WordsFit, StepInside;
    if s == [] {
      NoSlots();
    } else {
      var k := |s| - 1;
      var less := s[..k];
      assert s == less + [s[k]];
      SlotsAppend(less, s[k]);
      StepsInsideIff(less);
      StepInsideIff(Slots(less), s[k]);
      assert forall p :: 0 <= p < k ==> less[..p] == s[..p] && less[p] == s[p];
    }
  }

  /** The exact condition for parsing inside the buffers. */
  lemma StaysInsideIff(text: string)
    ensures StaysInside(text) <==> CopyInside(text) && WordsFit(Slots(Trimmed(text)))
  {
    hide Slots, WordsFit;
    TrimmedShape(text);
    StepsInsideIff(Trimmed(text));
  }

  /** The same for a line as it is typed: at most 20 arguments, words of at most 19 characters,
      and at most 498 characters up to the end of the last word. */
  lemma TypedLineInsideIff(words: seq<string>, gaps: seq<string>, tail: string)
    requires Separated(words, gaps) && words != []
    requires forall i :: 0 <= i < |tail| ==> TailChar(tail[i])
    requires var last := words[|words| - 1]; !TailChar(last[|last| - 1])
    ensures StaysInside(Render(words, gaps) + tail)
       <==> WordsFit(words) && |Render(words, gaps)| + 1 < INPUT_LENGTH
  {
    hide Words, TailChar, Render, WordsFit;
    var body := RenderBody(words, gaps);
    var text := Render(words, gaps) + tail;
    TrimIs(gaps[0], body, tail);
    LeadingSpacesIs(gaps[0], body + tail);
    assert gaps[0] + (body + tail) == text;
    StaysInsideIff(text);
    TrimmedShape(text);
  }

  /** A line as it is typed: words without spaces, with spaces before them, and a tail of spaces, line
      feeds and ampersands that the last word does not run into. */
  ghost predicate TypedLine(words: seq<string>, gaps: seq<string>, tail: string) {
    && 0 < |words| == |gaps|
    && (forall i :: 0 <= i < |words| ==> words[i] != "" && ' ' !in words[i])
    && (forall i :: 0 <= i < |gaps| ==> forall c :: c in gaps[i] ==> c == ' ')
    && (forall i :: 1 <= i < |gaps| ==> gaps[i] != "")
    && (forall c :: c in tail ==> c == ' ' || c == '\n' || c == '&')
    && var last := words[|words| - 1];
       last[|last| - 1] != '\n' && last[|last| - 1] != '&'
  }

  lemma TypedSeparated(words: seq<string>, gaps: seq<string>, tail: string)
    requires TypedLine(words, gaps, tail)
    ensures Separated(words, gaps) && words != []
    ensures forall i :: 0 <= i < |tail| ==> TailChar(tail[i])
    ensures var last := words[|words| - 1]; !TailChar(last[|last| - 1])
  {
    forall i | 0 <= i < |words| ensures Free(SPACE, words[i]) {}
    forall i | 0 <= i < |gaps| ensures Only(SPACE, gaps[i]) {
      assert forall k :: 0 <= k < |gaps[i]| ==> gaps[i][k] in gaps[i];
    }
    var last := words[|words| - 1];
    assert last[|last| - 1] in last;
    forall i | 0 <= i < |tail| ensures TailChar(tail[i]) {
      assert tail[i] in tail;
    }
  }

  /** A typed line is its first word with the others as arguments, in the background if and only if its
      tail has an ampersand; and parsing stays inside the buffers if and only if there are at most 20
      arguments, words of at most 19 characters, and at most 498 characters up to the last word. */
  lemma TypedLineMeans(words: seq<string>, gaps: seq<string>, tail: string)
    requires TypedLine(words, gaps, tail)
    ensures Parse(Render(words, gaps) + tail) == Parsed(words[0], words[1..], '&' in tail)
    ensures StaysInside(Render(words, gaps) + tail)
       <==> |words| <= 21 && (forall i :: 0 <= i < |words| ==> |words[i]| <= 19) && |Render(words, gaps)| <= 498
  {
    hide TypedLine, Parse, StaysInside, Render;
    TypedSeparated(words, gaps, tail);
    ParseOfRender(words, gaps, tail);
    TypedLineInsideIff(words, gaps, tail);
  }

  /** The check for too many arguments, `count > 20`, never stops the parser in time: while
      it has stayed inside its buffers the count is no more than 20. */
  lemma CheckComesTooLate(s: string, p: nat)
    requires s != [] && s[0] != SPACE && p <= |s| && StepsInside(s[..p])
    ensures |Slots(s[..p])| - 1 <= MAX_ARGUMENTS
  {
    StepsInsideIff(s[..p]);
  }

  lemma {:induction false} RenderSmall(words: seq<string>, gaps: seq<string>)
    requires |gaps| == |words|
    requires forall i :: 0 <= i < |words| ==> |words[i]| <= 1 && |gaps[i]| <= 1
    ensures |Render(words, gaps)| <= 2 * |words|
  {
    if words != [] {
      RenderSmall(words[1..], gaps[1..]);
    }
  }

  /** A line of one command and 21 arguments, of 43 characters. The shell reads up to 999. */
  lemma ManyArguments() returns (text: string)
    ensures |text| < 1000 && |Parse(text).arguments| == 21 && !StaysInside(text)
  {
    hide Words, Render, Parse, StaysInside;
    var words, gaps := seq(22, _ => "a"), seq(22, i => if i == 0 then "" else " ");
    text := Render(words, gaps) + "";
    RenderSmall(words, gaps);
    ParseOfRender(words, gaps, "");
    TypedLineInsideIff(words, gaps, "");
  }

  lemma TwoWords(first: string, gap: string, second: string)
    ensures Render([first], [""]) == first
    ensures Render([first, second], ["", gap]) == first + gap + second
  {
    assert Render([first, second], ["", gap]) == "" + first + Render([second], [gap]);
    assert Render([second], [gap]) == gap + second + Render([], []);
  }

  /** A command of 20 characters. */
  lemma LongWord() returns (text: string)
    ensures |text| < 1000 && |Parse(text).command| == 20 && !StaysInside(text)
  {
    hide Words, Render, Parse, StaysInside;
    var word := seq(20, _ => 'a');
    text := Render([word], [""]) + "";
    TwoWords(word, "", "");
    ParseOfRender([word], [""], "");
    TypedLineInsideIff([word], [""], "");
  }

  /** Two words 497 spaces apart. */
  lemma WideGap() returns (text: string)
    ensures |text| < 1000 && Parse(text) == Parsed("a", ["b"], false) && !StaysInside(text)
  {
    hide Words, Render, Parse, StaysInside;
    var gap := seq(497, _ => SPACE);
    text := Render(["a", "b"], ["", gap]) + "";
    TwoWords("a", gap, "b");
    ParseOfRender(["a", "b"], ["", gap], "");
    TypedLineInsideIff(["a", "b"], ["", gap], "");
  }
}
