/** The lines of a configuration file, as the loader sees them: the runs of
    characters between line feeds, with the empty ones left out. */
module Lines {
  import opened Splitting

  const LF: char := '\n'

  ghost predicate IsLine(s: string) { Free(LF, s) }

  function NonEmptyLines(s: string): (lines: seq<string>) { Words(LF, s) }

  /** A file made of the given lines, each ended by a line feed. */
  function Unlines(lines: seq<string>): string {
    if lines == [] then [] else lines[0] + [LF] + Unlines(lines[1..])
  }

  lemma NoLines()
    ensures NonEmptyLines([]) == []
  {}

  lemma {:induction false} LeadingNewlines(stale: string, s: string)
    requires Only(LF, stale)
    ensures NonEmptyLines(stale + s) == NonEmptyLines(s)
  {
    if stale == [] {
      assert stale + s == s;
    } else {
      LeadingNewlines(stale[1..], s);
      assert (stale + s)[1..] == stale[1..] + s;
    }
  }

  /** Reading the lines undoes `Unlines`, with or without a line feed after the last line. */
  lemma {:induction false} LinesOfUnlines(lines: seq<string>, last: string)
    requires IsLine(last) && forall i :: 0 <= i < |lines| ==> IsLine(lines[i])
    ensures NonEmptyLines(Unlines(lines) + last) == DropEmpty(lines + [last])
  {
    hide Words;
    if lines == [] {
      PeelWord(LF, [], last, []);
      assert Unlines(lines) + last == [] + last + [];
      assert lines + [last] == [last];
      NoLines();
    } else {
      var rest := Unlines(lines[1..]) + last;
      LinesOfUnlines(lines[1..], last);
      PeelWord(LF, [], lines[0], [LF] + rest);
      assert Unlines(lines) + last == [] + lines[0] + ([LF] + rest);
      LeadingNewlines([LF], rest);
      assert (lines + [last])[1..] == lines[1..] + [last];
    }
  }

  /** Text left over in the read buffer is harmless for every file exactly when it
      holds nothing but line feeds. */
  lemma StaleTextHarmless(stale: string)
    ensures (forall file :: NonEmptyLines(stale + file) == NonEmptyLines(file))
       <==> Only(LF, stale)
  {
    if Only(LF, stale) {
      forall file ensures NonEmptyLines(stale + file) == NonEmptyLines(file) {
        LeadingNewlines(stale, file);
      }
    } else if forall file :: NonEmptyLines(stale + file) == NonEmptyLines(file) {
      assert NonEmptyLines(stale + []) == NonEmptyLines([]);
      assert stale + [] == stale;
      NoWords(LF, stale);
    }
  }

  /** Otherwise the leftover runs into the file: here two lines become one. */
  lemma StaleTextMixes()
    ensures NonEmptyLines("a" + "b\n") == ["ab"] && NonEmptyLines("b\n") == ["b"]
  {
    PeelWord(LF, [], "ab", "\n");
    PeelWord(LF, [], "b", "\n");
    assert "a" + "b\n" == [] + "ab" + "\n" && "b\n" == [] + "b" + "\n";
  }
}
