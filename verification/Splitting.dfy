/** Splitting a text at a separator, and putting the pieces together again. */
module Splitting {

  ghost predicate Free(c: char, s: string) {
    forall i :: 0 <= i < |s| ==> s[i] != c
  }

  /** Index of the first `c`, or the length when there is none. */
  function Find(c: char, s: string): (n: nat)
    ensures n <= |s|
  {
    if s == [] || s[0] == c then 0 else 1 + Find(c, s[1..])
  }

  lemma {:induction false} FindIs(c: char, a: string, b: string)
    requires Free(c, a) && (b != [] ==> b[0] == c)
    ensures Find(c, a + b) == |a|
  {
    if a == [] {
      assert a + b == b;
    } else {
      FindIs(c, a[1..], b);
      assert (a + b)[1..] == a[1..] + b;
    }
  }

  lemma {:induction false} FindMeans(c: char, s: string)
    ensures Free(c, s[..Find(c, s)])
    ensures Find(c, s) < |s| ==> s[Find(c, s)] == c
  {
    if s != [] && s[0] != c {
      FindMeans(c, s[1..]);
      var n := Find(c, s[1..]);
      assert s[..n + 1] == [s[0]] + s[1..][..n];
    }
  }

  function Split(c: char, s: string): (pieces: seq<string>)
    ensures pieces != []
    decreases |s|
  {
    var n := Find(c, s);
    if n == |s| then [s] else [s[..n]] + Split(c, s[n + 1..])
  }

  function Join(c: char, pieces: seq<string>): string
    requires pieces != []
  {
    if |pieces| == 1 then pieces[0] else pieces[0] + [c] + Join(c, pieces[1..])
  }

  lemma SplitFirst(c: char, a: string, rest: string)
    requires Free(c, a)
    ensures Split(c, a) == [a]
    ensures Split(c, a + [c] + rest) == [a] + Split(c, rest)
  {
    assert a + [] == a && a + [c] + rest == a + ([c] + rest);
    FindIs(c, a, []);
    FindIs(c, a, [c] + rest);
    assert (a + [c] + rest)[..|a|] == a && (a + [c] + rest)[|a| + 1..] == rest;
  }

  lemma {:induction false} SplitJoin(c: char, pieces: seq<string>)
    requires pieces != [] && forall i :: 0 <= i < |pieces| ==> Free(c, pieces[i])
    ensures Split(c, Join(c, pieces)) == pieces
  {
    if |pieces| == 1 {
      SplitFirst(c, pieces[0], []);
    } else {
      SplitFirst(c, pieces[0], Join(c, pieces[1..]));
      SplitJoin(c, pieces[1..]);
    }
  }

  lemma {:induction false} JoinSplit(c: char, s: string)
    ensures Join(c, Split(c, s)) == s
    ensures forall i :: 0 <= i < |Split(c, s)| ==> Free(c, Split(c, s)[i])
    decreases |s|
  {
    FindMeans(c, s);
    var n := Find(c, s);
    if n == |s| {
      assert s[..n] == s;
    } else {
      JoinSplit(c, s[n + 1..]);
      assert Split(c, s)[1..] == Split(c, s[n + 1..]);
      assert s == s[..n] + [c] + s[n + 1..];
    }
  }

  ghost predicate Only(c: char, s: string) {
    forall i :: 0 <= i < |s| ==> s[i] == c
  }

  /** The runs of characters other than `c`, in order. */
  function Words(c: char, s: string): seq<string>
    decreases |s|
  {
    if s == [] then []
    else if s[0] == c then Words(c, s[1..])
    else [s[..Find(c, s)]] + Words(c, s[Find(c, s)..])
  }

  function DropEmpty(pieces: seq<string>): seq<string> {
    if pieces == [] then []
    else (if pieces[0] == [] then [] else [pieces[0]]) + DropEmpty(pieces[1..])
  }

  /** Peeling one word off the front. */
  lemma {:induction false} PeelWord(c: char, gap: string, word: string, rest: string)
    requires Only(c, gap) && Free(c, word) && (rest != [] ==> rest[0] == c)
    ensures Words(c, gap + word + rest) == (if word == [] then [] else [word]) + Words(c, rest)
  {
    var s := gap + word + rest;
    if gap != [] {
      PeelWord(c, gap[1..], word, rest);
      assert s[1..] == gap[1..] + word + rest;
    } else if word != [] {
      assert s == word + rest;
      FindIs(c, word, rest);
    } else {
      assert s == rest;
    }
  }

  lemma SkipSeparator(c: char, s: string)
    ensures Words(c, []) == []
    ensures s != [] && s[0] == c ==> Words(c, s) == Words(c, s[1..])
  {}

  /** Words are the pieces of a split that are not empty. */
  lemma {:induction false} WordsAreSplit(c: char, s: string)
    ensures Words(c, s) == DropEmpty(Split(c, s))
    decreases |s|
  {
    hide Words, Split, Find;
    FindMeans(c, s);
    var n := Find(c, s);
    if n == |s| {
      assert s == s[..n] && s == [] + s + [];
      SplitFirst(c, s, []);
      PeelWord(c, [], s, []);
      SkipSeparator(c, s);
    } else {
      var word, rest := s[..n], s[n + 1..];
      assert s == word + [c] + rest && s == [] + word + ([c] + rest) && ([c] + rest)[1..] == rest;
      SplitFirst(c, word, rest);
      PeelWord(c, [], word, [c] + rest);
      SkipSeparator(c, [c] + rest);
      WordsAreSplit(c, rest);
    }
  }

  lemma {:induction false} WordsAppend(c: char, a: string, b: string)
    ensures Words(c, a + [c] + b) == Words(c, a) + Words(c, b)
    decreases |a|
  {
    hide Words;
    var s := a + [c] + b;
    SkipSeparator(c, s);
    SkipSeparator(c, a);
    if a == [] {
      assert s[1..] == b;
    } else if a[0] == c {
      WordsAppend(c, a[1..], b);
      assert s[1..] == a[1..] + [c] + b;
    } else {
      FindMeans(c, a);
      var n := Find(c, a);
      WordsAppend(c, a[n..], b);
      PeelWord(c, [], a[..n], a[n..]);
      PeelWord(c, [], a[..n], a[n..] + [c] + b);
      assert a == [] + a[..n] + a[n..] && s == [] + a[..n] + (a[n..] + [c] + b);
    }
  }

  lemma {:induction false} NoWords(c: char, s: string)
    ensures Words(c, s) == [] <==> Only(c, s)
  {
    if s != [] && s[0] == c {
      NoWords(c, s[1..]);
      assert forall i :: 1 <= i < |s| ==> s[i] == s[1..][i - 1];
    }
  }
}
