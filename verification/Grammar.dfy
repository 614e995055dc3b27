/** The grammar of one configuration line: a declarative reading of a line, and the
    decomposition that finds it. */
module Grammar {
  import opened Optional

  predicate Letter(c: char) { 'A' <= c <= 'Z' || 'a' <= c <= 'z' }

  predicate Digit(c: char) { c == '-' || '0' <= c <= '9' }

  predicate Space(c: char) { c == ' ' || c == '\t' }

  predicate NameChar(c: char) { Letter(c) || Digit(c) || c == '_' || c == '.' }

  ghost predicate All(p: char -> bool, s: string) {
    forall i :: 0 <= i < |s| ==> p(s[i])
  }

  ghost predicate IsName(s: string) { s != [] && Letter(s[0]) && All(NameChar, s) }

  ghost predicate IsBare(s: string) { s != [] && (Letter(s[0]) || Digit(s[0])) && All(NameChar, s) }

  /** What may stand between the quotes: ordinary characters, and any character after a backslash. */
  predicate IsBody(s: string) {
    || s == []
    || (s[0] == '\\' && 2 <= |s| && IsBody(s[2..]))
    || (s[0] != '\\' && s[0] != '"' && IsBody(s[1..]))
  }

  predicate IsQuoted(s: string) {
    2 <= |s| && s[0] == '"' && s[|s| - 1] == '"' && IsBody(s[1..|s| - 1])
  }

  predicate IsComment(s: string) { s == [] || s[0] == '#' }

  /** One way of reading a line as an assignment. */
  datatype Reading = Reading(
    lead: string, name: string, before: string, after: string, value: string, trail: string, comment: string)
  {
    function Text(): string {
      lead + (name + (before + ("=" + (after + (value + (trail + comment))))))
    }

    ghost predicate WellFormed() {
      && All(Space, lead) && All(Space, before) && All(Space, after) && All(Space, trail)
      && IsName(name)
      && (IsBare(value) || IsQuoted(value))
      && IsComment(comment)
    }
  }

  ghost predicate IsBlankLine(line: string) {
    exists lead, comment :: line == lead + comment && All(Space, lead) && IsComment(comment)
  }

  /** Length of the longest prefix of characters satisfying `p`. */
  function Span(p: char -> bool, s: string): (n: nat)
    ensures n <= |s| && All(p, s[..n])
    ensures n < |s| ==> !p(s[n])
  {
    if s == [] || !p(s[0]) then 0
    else
      var n := 1 + Span(p, s[1..]);
      assert s[..n] == [s[0]] + s[1..][..n - 1];
      n
  }

  lemma {:induction false} SpanIs(p: char -> bool, a: string, b: string)
    requires All(p, a) && (b != [] ==> !p(b[0]))
    ensures Span(p, a + b) == |a|
    ensures (a + b)[..|a|] == a && (a + b)[|a|..] == b
  {
    if a == [] {
      assert a + b == b;
    } else {
      SpanIs(p, a[1..], b);
      assert (a + b)[1..] == a[1..] + b;
    }
  }

  /** Index just past the closing quote, looking from `i` on. */
  function QuoteEnd(s: string, i: nat): (end: Option<nat>)
    requires i <= |s|
    ensures end.Some? ==> i < end.value <= |s|
    decreases |s| - i
  {
    if i == |s| then None
    else if s[i] == '"' then Some(i + 1)
    else if s[i] != '\\' then QuoteEnd(s, i + 1)
    else if i + 1 == |s| then None
    else QuoteEnd(s, i + 2)
  }

  lemma {:induction false} QuoteEndIsQuoted(s: string, i: nat)
    requires i <= |s| && QuoteEnd(s, i).Some?
    ensures var k := QuoteEnd(s, i).value; s[k - 1] == '"' && IsBody(s[i..k - 1])
    decreases |s| - i
  {
    if s[i] != '"' {
      var step := if s[i] == '\\' then 2 else 1;
      QuoteEndIsQuoted(s, i + step);
      var k := QuoteEnd(s, i).value;
      assert s[i..k - 1][step..] == s[i + step..k - 1];
    }
  }

  lemma {:induction false} QuoteEndFinds(s: string, i: nat, body: string)
    requires IsBody(body) && i + |body| < |s|
    requires s[i..i + |body|] == body && s[i + |body|] == '"'
    ensures QuoteEnd(s, i) == Some(i + |body| + 1)
    decreases |body|
  {
    if body != [] {
      assert s[i] == body[0];
      var step := if body[0] == '\\' then 2 else 1;
      assert s[i + step..i + |body|] == body[step..];
      QuoteEndFinds(s, i + step, body[step..]);
    }
  }

  /** Length of the value at the start of `s`, if there is a complete one. */
  function ValueEnd(s: string): (end: Option<nat>)
    requires s != []
    ensures end.Some? ==> end.value <= |s|
  {
    if s[0] == '"' then QuoteEnd(s, 1) else Some(Span(NameChar, s))
  }

  lemma ValueEndIs(value: string, rest: string)
    requires IsBare(value) || IsQuoted(value)
    requires rest != [] ==> !NameChar(rest[0])
    ensures ValueEnd(value + rest) == Some(|value|)
    ensures (value + rest)[..|value|] == value && (value + rest)[|value|..] == rest
  {
    if IsBare(value) {
      SpanIs(NameChar, value, rest);
    } else {
      var body := value[1..|value| - 1];
      assert (value + rest)[1..1 + |body|] == body;
      QuoteEndFinds(value + rest, 1, body);
    }
  }

  lemma Inner(s: string, k: nat)
    requires 2 <= k <= |s|
    ensures s[..k][1..k - 1] == s[1..k - 1]
  {}

  lemma ValueEndIsValue(s: string)
    requires s != [] && ValueEnd(s).Some?
    requires Letter(s[0]) || Digit(s[0]) || s[0] == '"'
    ensures var value := s[..ValueEnd(s).value]; IsBare(value) || IsQuoted(value)
  {
    if s[0] == '"' {
      QuoteEndIsQuoted(s, 1);
      var k := ValueEnd(s).value;
      Inner(s, k);
    }
  }

  function Skip(s: string): string { s[Span(Space, s)..] }

  /** The blanks around the assignment sign, and what follows them. */
  datatype Sign = Sign(before: string, after: string, rest: string)

  function DecomposeSign(t: string): Option<Sign> {
    var u := Skip(t);
    if u == [] || u[0] != '=' then None
    else Some(Sign(t[..Span(Space, t)], u[1..][..Span(Space, u[1..])], Skip(u[1..])))
  }

  /** A value with the blanks and the comment after it. */
  datatype Tail = Tail(value: string, trail: string, comment: string)

  function DecomposeTail(v: string): Option<Tail> {
    if v == [] || !(Letter(v[0]) || Digit(v[0]) || v[0] == '"') || ValueEnd(v).None? then None
    else
      var k := ValueEnd(v).value;
      var w := v[k..];
      if IsComment(Skip(w)) then Some(Tail(v[..k], w[..Span(Space, w)], Skip(w))) else None
  }

  /** The reading of a line, found from left to right. */
  function Decompose(line: string): Option<Reading> {
    var s := Skip(line);
    if s == [] || !Letter(s[0]) then None
    else
      var n := Span(NameChar, s);
      match DecomposeSign(s[n..])
      case None => None
      case Some(Sign(before, after, v)) =>
        match DecomposeTail(v)
        case None => None
        case Some(Tail(value, trail, comment)) =>
          Some(Reading(line[..Span(Space, line)], s[..n], before, after, value, trail, comment))
  }

  lemma SkipIs(blanks: string, rest: string)
    requires All(Space, blanks) && (rest != [] ==> !Space(rest[0]))
    ensures Skip(blanks + rest) == rest
    ensures (blanks + rest)[..Span(Space, blanks + rest)] == blanks
  {
    SpanIs(Space, blanks, rest);
  }

  lemma SignIs(before: string, after: string, v: string)
    requires All(Space, before) && All(Space, after) && (v != [] ==> !Space(v[0]))
    ensures DecomposeSign(before + ("=" + (after + v))) == Some(Sign(before, after, v))
  {
    var u := "=" + (after + v);
    SkipIs(before, u);
    assert u[1..] == after + v;
    SkipIs(after, v);
  }

  lemma TailIs(value: string, trail: string, comment: string)
    requires (IsBare(value) || IsQuoted(value)) && All(Space, trail) && IsComment(comment)
    ensures DecomposeTail(value + (trail + comment)) == Some(Tail(value, trail, comment))
  {
    ValueEndIs(value, trail + comment);
    SkipIs(trail, comment);
  }

  /** Every reading is found again from its text, so a line has at most one reading. */
  lemma DecomposeText(r: Reading)
    requires r.WellFormed()
    ensures Decompose(r.Text()) == Some(r)
  {
    var v := r.value + (r.trail + r.comment);
    var t := r.before + ("=" + (r.after + v));
    SkipIs(r.lead, r.name + t);
    SpanIs(NameChar, r.name, t);
    SignIs(r.before, r.after, v);
    TailIs(r.value, r.trail, r.comment);
  }

  lemma Halves(s: string, n: nat)
    requires n <= |s|
    ensures s == s[..n] + s[n..]
  {}

  /** The blanks at the front, and the rest. */
  lemma SkipText(s: string)
    ensures s == s[..Span(Space, s)] + Skip(s) && All(Space, s[..Span(Space, s)])
  {}

  lemma SignText(t: string)
    requires DecomposeSign(t).Some?
    ensures var Sign(before, after, v) := DecomposeSign(t).value;
      && All(Space, before) && All(Space, after)
      && t == before + ("=" + (after + v))
  {
    hide Skip, Span, All;
    SkipText(t);
    var u := Skip(t);
    Halves(u, 1);
    SkipText(u[1..]);
    assert u[..1] == "=";
  }

  lemma TailText(v: string)
    requires DecomposeTail(v).Some?
    ensures var Tail(value, trail, comment) := DecomposeTail(v).value;
      && (IsBare(value) || IsQuoted(value)) && All(Space, trail) && IsComment(comment)
      && v == value + (trail + comment)
  {
    hide Skip, Span, All, ValueEnd, IsBare, IsQuoted;
    ValueEndIsValue(v);
    var k := ValueEnd(v).value;
    Halves(v, k);
    SkipText(v[k..]);
  }

  /** A reading that is found is a reading of that very line. */
  lemma TextDecompose(line: string)
    ensures Decompose(line).Some? ==> Decompose(line).value.WellFormed() && Decompose(line).value.Text() == line
  {
    if Decompose(line).Some? {
      var s := Skip(line);
      var n := Span(NameChar, s);
      Halves(line, Span(Space, line));
      Halves(s, n);
      assert IsName(s[..n]);
      SignText(s[n..]);
      TailText(DecomposeSign(s[n..]).value.rest);
    }
  }

  lemma AtMostOneReading(r: Reading, r': Reading)
    requires r.WellFormed() && r'.WellFormed() && r.Text() == r'.Text()
    ensures r == r'
  {
    DecomposeText(r);
    DecomposeText(r');
  }

  lemma BlankLineIff(line: string)
    ensures IsBlankLine(line) <==> IsComment(Skip(line))
  {
    if IsComment(Skip(line)) {
      assert line == line[..Span(Space, line)] + Skip(line);
    }
    if IsBlankLine(line) {
      var lead, comment :| line == lead + comment && All(Space, lead) && IsComment(comment);
      SkipIs(lead, comment);
    }
  }
}
