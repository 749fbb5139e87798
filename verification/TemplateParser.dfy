/** GeneralParser (template-parser/general_parser.go): templates whose tags, and then whose math
    expressions, are replaced one after the other, each by its first occurrence. */
module TemplateParser {
  import opened Sequences
  import opened Text
  import opened Wrappers

  // ---------- the two patterns ----------

  datatype Pattern = Tag | Math
  {
    function Open(): string {
      if Tag? then "{{" else "{#"
    }
  }

  /** A match: its place in the text and the text of its group. */
  datatype Span = Span(start: nat, end: nat, group: string)

  predicate IsSpace(c: char) {
    c == ' '
  }

  /** [\$\.\w_\[\]:] */
  predicate IsTagChar(c: char) {
    IsWordChar(c) || c in "$.[]:"
  }

  /** [ \(\)\+\-\*\/%\d\.(?:NaN|null)]: inside a class the last part only lists characters. */
  predicate IsMathChar(c: char) {
    '0' <= c <= '9' || c in " ()+-*/%.?:Na|nul"
  }

  /** The first position from i on whose character is not of the given kind. */
  function Skip(s: string, i: nat, kind: char -> bool): (r: nat)
    requires i <= |s|
    ensures i <= r <= |s| && (forall j | i <= j < r :: kind(s[j])) && (r < |s| ==> !kind(s[r]))
    decreases |s| - i
  {
    if i < |s| && kind(s[i]) then Skip(s, i + 1, kind) else i
  }

  function TagBetween(s: string, i: nat, a: nat, b: nat, d: nat): Option<Span>
    requires a <= b <= |s|
  {
    if a < b && OccursAt(s, "}}", d) then Some(Span(i, d + 2, s[a..b])) else None
  }

  function MathBetween(s: string, i: nat, a: nat, b: nat): Option<Span>
    requires i + 2 <= a <= |s| && i + 2 <= b <= |s|
  {
    if i + 2 < b && OccursAt(s, "#}", b) then Some(Span(i, b + 2, if a < b then s[a..b] else s[b - 1..b])) else None
  }

  /** The match of the pattern that starts at i, if there is one. */
  function MatchAt(p: Pattern, s: string, i: nat): (m: Option<Span>)
    requires i <= |s|
    ensures m.Some? ==> m.value.start == i && i + 4 < m.value.end <= |s| && OccursAt(s, p.Open(), i)
    ensures m.Some? && p.Tag? ==> s[i + 2] != '{'
    ensures m.Some? ==> (forall c | c in m.value.group :: if p.Tag? then IsTagChar(c) else IsMathChar(c))
  {
    if !OccursAt(s, p.Open(), i) then None
    else if p.Tag? then
      // {{ *(class+) *}}
      var a := Skip(s, i + 2, IsSpace);
      var b := Skip(s, a, IsTagChar);
      var d := Skip(s, b, IsSpace);
      TagBetween(s, i, a, b, d)
    else
      // {# *(class+) *#}, where the class contains the space: the leading spaces are left out of the
      // group unless there is nothing else
      MathBetween(s, i, Skip(s, i + 2, IsSpace), Skip(s, i + 2, IsMathChar))
  }

  // ---------- what the patterns match ----------

  lemma {:induction false} SkipIs(s: string, i: nat, r: nat, kind: char -> bool)
    requires i <= r <= |s| && (forall j | i <= j < r :: kind(s[j])) && (r < |s| ==> !kind(s[r]))
    ensures Skip(s, i, kind) == r
    decreases r - i
  {
    if i < r {
      SkipIs(s, i + 1, r, kind);
    }
  }

  /** The characters of a tag, one by one. */
  lemma TagCharsAre(c: char)
    ensures IsTagChar(c) <==>
            || c in "abcdefghijklm" || c in "nopqrstuvwxyz"
            || c in "ABCDEFGHIJKLM" || c in "NOPQRSTUVWXYZ" || c in "0123456789_$.[]:"
  {
    WordCharsAre(c);
  }

  /** So those of a math expression. */
  lemma MathCharsAre(c: char)
    ensures IsMathChar(c) <==> c in "0123456789 ()+-*/%.?:|Nanul"
  {
  }

  /** m is a tag at position i: two braces, spaces up to a, a word up to b, which is the group, spaces up to d,
      and two braces. */
  ghost predicate IsTagAt(s: string, m: Span, i: nat, a: nat, b: nat, d: nat) {
    && i + 2 <= a < b <= d <= |s| - 2
    && OccursAt(s, "{{", i) && OccursAt(s, "}}", d) && m == Span(i, d + 2, s[a..b])
    && (forall j | i + 2 <= j < a :: s[j] == ' ') && (forall j | b <= j < d :: s[j] == ' ')
    && (forall j | a <= j < b :: IsTagChar(s[j]))
  }

  /** m is a math expression at position i: a brace and a hash sign, spaces up to a, characters of the class up
      to b, and the two signs reversed. The group leaves the leading spaces out, or is a space if there is nothing
      else. */
  ghost predicate IsMathAt(s: string, m: Span, i: nat, a: nat, b: nat) {
    && i + 2 <= a <= b <= |s| - 2 && i + 2 < b
    && OccursAt(s, "{#", i) && OccursAt(s, "#}", b) && m == Span(i, b + 2, if a < b then s[a..b] else " ")
    && (forall j | i + 2 <= j < a :: s[j] == ' ')
    && (forall j | a <= j < b :: IsMathChar(s[j])) && (a < b ==> s[a] != ' ')
  }

  lemma OccursChars(s: string, w: string, i: nat)
    requires |w| == 2
    ensures OccursAt(s, w, i) <==> i + 2 <= |s| && s[i] == w[0] && s[i + 1] == w[1]
  {
    if i + 2 <= |s| {
      assert s[i..i + 2] == [s[i], s[i + 1]];
    }
  }

  /** A tag matches exactly as it is written. */
  lemma {:induction false} TagMatchExactlyWhen(s: string, i: nat, m: Span)
    requires i <= |s|
    ensures MatchAt(Tag, s, i) == Some(m) <==> exists a: nat, b: nat, d: nat :: IsTagAt(s, m, i, a, b, d)
  {
    if MatchAt(Tag, s, i) == Some(m) {
      MatchIsTag(s, i, m);
    }
    if a: nat, b: nat, d: nat :| IsTagAt(s, m, i, a, b, d) {
      TagIsMatch(s, m, i, a, b, d);
    }
  }

  lemma {:induction false} MatchIsTag(s: string, i: nat, m: Span)
    requires i <= |s| && MatchAt(Tag, s, i) == Some(m)
    ensures exists a: nat, b: nat, d: nat :: IsTagAt(s, m, i, a, b, d)
  {
    var a := Skip(s, i + 2, IsSpace);
    var b := Skip(s, a, IsTagChar);
    var d := Skip(s, b, IsSpace);
    assert IsTagAt(s, m, i, a, b, d);
  }

  lemma {:induction false} TagIsMatch(s: string, m: Span, i: nat, a: nat, b: nat, d: nat)
    requires IsTagAt(s, m, i, a, b, d)
    ensures MatchAt(Tag, s, i) == Some(m)
  {
    TagEnds(s, i, a, b, d);
  }

  lemma {:induction false} TagEnds(s: string, i: nat, a: nat, b: nat, d: nat)
    requires i + 2 <= a < b <= d && OccursAt(s, "}}", d)
    requires (forall j | i + 2 <= j < a :: s[j] == ' ') && (forall j | b <= j < d :: s[j] == ' ')
    requires forall j | a <= j < b :: IsTagChar(s[j])
    ensures Skip(s, i + 2, IsSpace) == a && Skip(s, a, IsTagChar) == b && Skip(s, b, IsSpace) == d
  {
    OccursChars(s, "}}", d);
    SkipIs(s, i + 2, a, IsSpace);
    SkipIs(s, a, b, IsTagChar);
    SkipIs(s, b, d, IsSpace);
  }

  /** So does a math expression. */
  lemma {:induction false} MathMatchExactlyWhen(s: string, i: nat, m: Span)
    requires i <= |s|
    ensures MatchAt(Math, s, i) == Some(m) <==> exists a: nat, b: nat :: IsMathAt(s, m, i, a, b)
  {
    if MatchAt(Math, s, i) == Some(m) {
      MatchIsMath(s, i, m);
    }
    if a: nat, b: nat :| IsMathAt(s, m, i, a, b) {
      MathIsMatch(s, m, i, a, b);
    }
  }

  lemma {:induction false} MatchIsMath(s: string, i: nat, m: Span)
    requires i <= |s| && MatchAt(Math, s, i) == Some(m)
    ensures exists a: nat, b: nat :: IsMathAt(s, m, i, a, b)
  {
    var a := Skip(s, i + 2, IsSpace);
    var b := Skip(s, i + 2, IsMathChar);
    assert a <= b;
    assert a == b ==> s[b - 1..b] == " ";
    assert IsMathAt(s, m, i, a, b);
  }

  lemma {:induction false} MathIsMatch(s: string, m: Span, i: nat, a: nat, b: nat)
    requires IsMathAt(s, m, i, a, b)
    ensures MatchAt(Math, s, i) == Some(m)
  {
    MathEnds(s, i, a, b);
    MathEndsAt(s, i, a, b);
    OneSpace(s, i, a, b);
  }

  lemma OneSpace(s: string, i: nat, a: nat, b: nat)
    requires i + 2 <= a <= b <= |s| && i + 2 < b && forall j | i + 2 <= j < a :: s[j] == ' '
    ensures a == b ==> s[b - 1..b] == " "
  {
  }

  lemma {:induction false} MathEndsAt(s: string, i: nat, a: nat, b: nat)
    requires i + 2 <= a <= b <= |s| - 2 && i + 2 < b && OccursAt(s, "{#", i) && OccursAt(s, "#}", b)
    requires Skip(s, i + 2, IsMathChar) == b && Skip(s, i + 2, IsSpace) == a
    ensures MatchAt(Math, s, i) == Some(Span(i, b + 2, if a < b then s[a..b] else s[b - 1..b]))
  {
  }

  lemma {:induction false} MathEnds(s: string, i: nat, a: nat, b: nat)
    requires i + 2 <= a <= b && OccursAt(s, "#}", b) && (a < b ==> s[a] != ' ')
    requires (forall j | i + 2 <= j < a :: s[j] == ' ') && (forall j | a <= j < b :: IsMathChar(s[j]))
    ensures Skip(s, i + 2, IsMathChar) == b && Skip(s, i + 2, IsSpace) == a
  {
    OccursChars(s, "#}", b);
    SkipIs(s, i + 2, a, IsSpace);
    MathEndsWith(s, i, a, b);
  }

  lemma {:induction false} MathEndsWith(s: string, i: nat, a: nat, b: nat)
    requires i + 2 <= a <= b < |s| && s[b] == '#'
    requires (forall j | i + 2 <= j < a :: s[j] == ' ') && (forall j | a <= j < b :: IsMathChar(s[j]))
    ensures Skip(s, i + 2, IsMathChar) == b
  {
    SkipIs(s, i + 2, b, IsMathChar);
  }

  // ---------- all matches ----------

  /** FindAllStringIndex and FindAllStringSubmatch from position i on: leftmost, not overlapping. */
  function FindAll(p: Pattern, s: string, i: nat): seq<Span>
    requires i <= |s|
    decreases |s| - i
  {
    match MatchAt(p, s, i)
    case Some(m) => [m] + FindAll(p, s, m.end)
    case None => if i == |s| then [] else FindAll(p, s, i + 1)
  }

  /** Spans in order from position i on, each a match of the pattern. */
  ghost predicate Ordered(p: Pattern, s: string, spans: seq<Span>, i: nat) {
    spans == [] ||
    (&& i <= spans[0].start && spans[0].start <= |s| && MatchAt(p, s, spans[0].start) == Some(spans[0])
     && Ordered(p, s, spans[1..], spans[0].end))
  }

  lemma {:induction false} FindAllIsOrdered(p: Pattern, s: string, i: nat, from: nat)
    requires from <= i <= |s|
    ensures Ordered(p, s, FindAll(p, s, i), from)
    decreases |s| - i
  {
    match MatchAt(p, s, i)
    case Some(m) =>
      FindAllIsOrdered(p, s, m.end, m.end);
      assert FindAll(p, s, i)[1..] == FindAll(p, s, m.end);
    case None =>
      if i < |s| { FindAllIsOrdered(p, s, i + 1, from); }
  }

  ghost predicate NoneFrom(p: Pattern, s: string, i: nat, j: nat) {
    forall k | i <= k < j && k <= |s| :: MatchAt(p, s, k).None?
  }

  /** Each span is the first match after the one before, and after the last there is none. */
  ghost predicate IsLeftmost(p: Pattern, s: string, spans: seq<Span>, i: nat)
    requires i <= |s|
  {
    if spans == [] then NoneFrom(p, s, i, |s| + 1)
    else
      && i <= spans[0].start <= |s| && NoneFrom(p, s, i, spans[0].start)
      && MatchAt(p, s, spans[0].start) == Some(spans[0]) && IsLeftmost(p, s, spans[1..], spans[0].end)
  }

  /** This is what all matches are, and nothing else is. */
  lemma {:induction false} FindAllExactlyWhen(p: Pattern, s: string, spans: seq<Span>, i: nat)
    requires i <= |s|
    ensures IsLeftmost(p, s, spans, i) <==> spans == FindAll(p, s, i)
  {
    FindAllIsLeftmost(p, s, i);
    if IsLeftmost(p, s, spans, i) {
      LeftmostIsUnique(p, s, spans, FindAll(p, s, i), i);
    }
  }

  lemma {:induction false} FindAllIsLeftmost(p: Pattern, s: string, i: nat)
    requires i <= |s|
    ensures IsLeftmost(p, s, FindAll(p, s, i), i)
    decreases |s| - i
  {
    var m := MatchAt(p, s, i);
    if m.Some? {
      assert i < m.value.end <= |s|;
      FindAllIsLeftmost(p, s, m.value.end);
      LeftmostHere(p, s, i);
      return;
    }
    if i < |s| {
      FindAllIsLeftmost(p, s, i + 1);
      LeftmostLater(p, s, i);
      return;
    }
    NoneAtEnd(p, s);
  }

  lemma {:induction false} LeftmostHere(p: Pattern, s: string, i: nat)
    requires i <= |s| && MatchAt(p, s, i).Some?
    requires var end := MatchAt(p, s, i).value.end; IsLeftmost(p, s, FindAll(p, s, end), end)
    ensures IsLeftmost(p, s, FindAll(p, s, i), i)
  {
    var m := MatchAt(p, s, i).value;
    MatchIsFirst(p, s, i);
    LeftmostFrom(p, s, m, FindAll(p, s, m.end), i);
  }

  lemma {:induction false} LeftmostLater(p: Pattern, s: string, i: nat)
    requires i < |s| && MatchAt(p, s, i).None? && IsLeftmost(p, s, FindAll(p, s, i + 1), i + 1)
    ensures IsLeftmost(p, s, FindAll(p, s, i), i)
  {
    NoMatchHere(p, s, i);
    LaterIsLeftmost(p, s, FindAll(p, s, i + 1), i);
  }

  lemma {:induction false} MatchIsFirst(p: Pattern, s: string, i: nat)
    requires i <= |s| && MatchAt(p, s, i).Some?
    ensures FindAll(p, s, i) == [MatchAt(p, s, i).value] + FindAll(p, s, MatchAt(p, s, i).value.end)
  {
  }

  lemma {:induction false} NoMatchHere(p: Pattern, s: string, i: nat)
    requires i < |s| && MatchAt(p, s, i).None?
    ensures FindAll(p, s, i) == FindAll(p, s, i + 1)
  {
  }

  lemma {:induction false} NoneAtEnd(p: Pattern, s: string)
    requires MatchAt(p, s, |s|).None?
    ensures IsLeftmost(p, s, FindAll(p, s, |s|), |s|)
  {
  }

  lemma {:induction false} LeftmostFrom(p: Pattern, s: string, m: Span, rest: seq<Span>, i: nat)
    requires i <= |s| && MatchAt(p, s, i) == Some(m) && IsLeftmost(p, s, rest, m.end)
    ensures IsLeftmost(p, s, [m] + rest, i)
  {
    assert ([m] + rest)[1..] == rest;
  }

  lemma {:induction false} LeftmostIsUnique(p: Pattern, s: string, a: seq<Span>, b: seq<Span>, i: nat)
    requires i <= |s| && IsLeftmost(p, s, a, i) && IsLeftmost(p, s, b, i)
    ensures a == b
    decreases |a|
  {
    if a == [] || b == [] {
      NoneMeansEmpty(p, s, a, i);
      NoneMeansEmpty(p, s, b, i);
    } else {
      SameFirst(p, s, a, b, i);
      LeftmostIsUnique(p, s, a[1..], b[1..], a[0].end);
      SameRest(a, b);
    }
  }

  lemma SameRest(a: seq<Span>, b: seq<Span>)
    requires a != [] && b != [] && a[0] == b[0] && a[1..] == b[1..]
    ensures a == b
  {
    assert a == [a[0]] + a[1..] && b == [b[0]] + b[1..];
  }

  lemma {:induction false} NoneMeansEmpty(p: Pattern, s: string, spans: seq<Span>, i: nat)
    requires i <= |s| && IsLeftmost(p, s, spans, i)
    ensures spans == [] <==> NoneFrom(p, s, i, |s| + 1)
  {
  }

  lemma {:induction false} SameFirst(p: Pattern, s: string, a: seq<Span>, b: seq<Span>, i: nat)
    requires i <= |s| && IsLeftmost(p, s, a, i) && IsLeftmost(p, s, b, i) && a != [] && b != []
    ensures a[0] == b[0] && i < a[0].end <= |s|
    ensures IsLeftmost(p, s, a[1..], a[0].end) && IsLeftmost(p, s, b[1..], a[0].end)
  {
    assert a[0].start == b[0].start;
  }

  lemma {:induction false} LaterIsLeftmost(p: Pattern, s: string, spans: seq<Span>, i: nat)
    requires i < |s| && MatchAt(p, s, i).None?
    ensures IsLeftmost(p, s, spans, i) <==> IsLeftmost(p, s, spans, i + 1)
  {
    if spans != [] && i <= spans[0].start <= |s| && MatchAt(p, s, spans[0].start) == Some(spans[0]) {
      assert spans[0].start != i;
    }
  }

  /** No match is missed: wherever one begins, one that was found is in the way. */
  lemma {:induction false} NoMatchIsMissed(p: Pattern, s: string, i: nat, j: nat) returns (m: Span)
    requires i <= j <= |s| && MatchAt(p, s, j).Some?
    ensures m in FindAll(p, s, i) && m.start <= j < m.end
    decreases |s| - i
  {
    match MatchAt(p, s, i)
    case Some(first) =>
      if j < first.end {
        m := first;
        assert [first][0] == first;
      } else {
        m := NoMatchIsMissed(p, s, first.end, j);
      }
    case None =>
      assert i < j;
      m := NoMatchIsMissed(p, s, i + 1, j);
  }

  // ---------- replacing one after the other, and all at once ----------

  /** The strings matched. */
  function Olds(p: Pattern, s: string, spans: seq<Span>, i: nat): (r: seq<string>)
    requires Ordered(p, s, spans, i)
    ensures |r| == |spans|
  {
    if spans == [] then [] else [s[spans[0].start..spans[0].end]] + Olds(p, s, spans[1..], spans[0].end)
  }

  /** strings.Replace(content, old, new, 1) for each pair in turn. */
  function ReplaceEach(content: string, olds: seq<string>, news: seq<string>): string
    requires |olds| == |news|
    decreases |olds|
  {
    if olds == [] then content else ReplaceEach(ReplaceFirst(content, olds[0], news[0]), olds[1..], news[1..])
  }

  /** The reference: every span replaced where it stands, from position i on. */
  function Splice(p: Pattern, s: string, spans: seq<Span>, news: seq<string>, i: nat): string
    requires |spans| == |news| && i <= |s| && Ordered(p, s, spans, i)
    decreases |spans|
  {
    if spans == [] then s[i..]
    else s[i..spans[0].start] + news[0] + Splice(p, s, spans[1..], news[1..], spans[0].end)
  }

  /** Where the replacements of the chain take place, each in the text rewritten so far. */
  function Landings(content: string, olds: seq<string>, news: seq<string>): (r: seq<int>)
    requires |olds| == |news|
    decreases |olds|
  {
    if olds == [] then []
    else [Index(content, olds[0])] + Landings(ReplaceFirst(content, olds[0], news[0]), olds[1..], news[1..])
  }

  /** Where the spans stand when those in front of them have been replaced. */
  function OwnPlaces(p: Pattern, s: string, spans: seq<Span>, news: seq<string>, i: nat, before: string): seq<int>
    requires |spans| == |news| && i <= |s| && Ordered(p, s, spans, i)
    decreases |spans|
  {
    if spans == [] then []
    else
      var front := before + s[i..spans[0].start];
      [|front|] + OwnPlaces(p, s, spans[1..], news[1..], spans[0].end, front + news[0])
  }

  /** In s from at on, put behind the front, the text up to end begins somewhere in the front. */
  ghost predicate OccursEarlier(front: string, s: string, at: nat, end: nat)
    requires at <= end <= |s|
  {
    exists j | 0 <= j < |front| :: OccursAt(front + s[at..], s[at..end], j)
  }

  /** The text of no span begins earlier in the text rewritten so far, before being in front of position i. */
  ghost predicate OwnFirst(p: Pattern, s: string, spans: seq<Span>, news: seq<string>, i: nat, before: string)
    requires |spans| == |news| && i <= |s| && Ordered(p, s, spans, i)
    decreases |spans|
  {
    spans == [] ||
    (var front := before + s[i..spans[0].start];
     && !OccursEarlier(front, s, spans[0].start, spans[0].end)
     && OwnFirst(p, s, spans[1..], news[1..], spans[0].end, front + news[0]))
  }

  /** Whatever the splice puts in front of a span, before being in front of position i, is free of the
      opening marker. */
  ghost predicate FrontsClear(p: Pattern, s: string, spans: seq<Span>, news: seq<string>, i: nat, before: string)
    requires |spans| == |news| && i <= |s| && Ordered(p, s, spans, i)
    decreases |spans|
  {
    spans == [] ||
    (var front := before + s[i..spans[0].start];
     !Occurs(front, p.Open()) && FrontsClear(p, s, spans[1..], news[1..], spans[0].end, front + news[0]))
  }

  lemma OccursInPrefix(a: string, b: string, w: string)
    requires Occurs(a, w)
    ensures Occurs(a + b, w)
  {
    OccursInContext("", a, b, w);
    assert "" + a + b == a + b;
  }

  /** It is enough that the splice itself is free of the marker. */
  lemma {:induction false} ClearSpliceClearFronts(p: Pattern, s: string, spans: seq<Span>, news: seq<string>, i: nat,
                                                  before: string)
    requires |spans| == |news| && i <= |s| && Ordered(p, s, spans, i)
    requires !Occurs(before + Splice(p, s, spans, news, i), p.Open())
    ensures FrontsClear(p, s, spans, news, i, before)
    decreases |spans|
  {
    if spans != [] {
      var front := before + s[i..spans[0].start];
      var rest := Splice(p, s, spans[1..], news[1..], spans[0].end);
      Regroup(before, s[i..spans[0].start], news[0], rest);
      Assoc(front, news[0], rest);
      if Occurs(front, p.Open()) {
        OccursInPrefix(front, news[0] + rest, p.Open());
      }
      ClearSpliceClearFronts(p, s, spans[1..], news[1..], spans[0].end, front + news[0]);
    }
  }

  /** The first occurrence of a matched string after text without the opening marker is the match itself. */
  lemma {:induction false} FirstIsOwn(p: Pattern, before: string, s: string, at: nat)
    requires at <= |s| && MatchAt(p, s, at).Some? && !Occurs(before, p.Open())
    ensures var m := MatchAt(p, s, at).value;
            Index(before + s[at..], s[m.start..m.end]) == |before|
  {
    var m := MatchAt(p, s, at).value;
    var was := s[m.start..m.end];
    assert (before + s[at..])[|before|..|before| + |was|] == was;
    forall j | 0 <= j < |before| ensures !OccursAt(before + s[at..], was, j) {
      NotEarlier(p, before, s, at, was, j);
    }
    FirstIndexIs(before + s[at..], was, |before|);
  }

  lemma NotEarlier(p: Pattern, before: string, s: string, at: nat, was: string, j: nat)
    requires at + 4 < |s| && OccursAt(s, p.Open(), at) && (p.Tag? ==> s[at + 2] != '{')
    requires |was| > 4 && was <= s[at..] && !Occurs(before, p.Open()) && j < |before|
    ensures !OccursAt(before + s[at..], was, j)
  {
    var content := before + s[at..];
    assert s[at..at + 2] == p.Open() && s[at] == s[at..at + 2][0] && s[at + 1] == s[at..at + 2][1];
    assert was[0] == s[at] && was[1] == s[at + 1] && was[2] == s[at + 2];
    if j + 1 < |before| {
      assert !OccursAt(before, p.Open(), j);
      OccursTwo(before, p.Open(), j);
      NotHere(content, was, j, if before[j] == was[0] then 1 else 0);
    } else {
      assert content[j + 1] == s[at] && content[j + 2] == s[at + 1];
      NotHere(content, was, j, if p.Tag? then 2 else 1);
    }
  }

  lemma OccursTwo(s: string, w: string, j: nat)
    requires |w| == 2 && j + 2 <= |s|
    ensures OccursAt(s, w, j) <==> s[j] == w[0] && s[j + 1] == w[1]
  {
  }

  /** If no text in front of a span has the opening marker, no span's text begins earlier. */
  lemma {:induction false} ClearFrontsOwnFirst(p: Pattern, s: string, spans: seq<Span>, news: seq<string>, i: nat,
                                               before: string)
    requires |spans| == |news| && i <= |s| && Ordered(p, s, spans, i)
    requires FrontsClear(p, s, spans, news, i, before)
    ensures OwnFirst(p, s, spans, news, i, before)
    decreases |spans|
  {
    if spans != [] {
      var front := before + s[i..spans[0].start];
      FirstIsOwn(p, front, s, spans[0].start);
      OccursHere(front, s, spans[0].start, spans[0].end);
      ClearFrontsOwnFirst(p, s, spans[1..], news[1..], spans[0].end, front + news[0]);
    }
  }

  lemma OccursHere(front: string, s: string, at: nat, end: nat)
    requires at <= end <= |s|
    ensures Index(front + s[at..], s[at..end]) == |front| <==> !OccursEarlier(front, s, at, end)
  {
    var content, was := front + s[at..], s[at..end];
    assert content[|front|..|front| + |was|] == was;
    if !OccursEarlier(front, s, at, end) {
      FirstIndexIs(content, was, |front|);
    }
  }

  /** The replacement that lands on its own match. */
  lemma ReplaceOwn(front: string, s: string, at: nat, end: nat, now: string)
    requires at <= end <= |s| && !OccursEarlier(front, s, at, end)
    ensures ReplaceFirst(front + s[at..], s[at..end], now) == front + now + s[end..]
  {
    OccursHere(front, s, at, end);
    CutAfter(front, s, at, end);
  }

  lemma OldsAre(p: Pattern, s: string, spans: seq<Span>, i: nat)
    requires spans != [] && Ordered(p, s, spans, i)
    ensures spans[0].start <= spans[0].end <= |s| && Ordered(p, s, spans[1..], spans[0].end)
    ensures Olds(p, s, spans, i)[0] == s[spans[0].start..spans[0].end]
    ensures Olds(p, s, spans, i)[1..] == Olds(p, s, spans[1..], spans[0].end)
  {
  }

  /** Every replacement of the chain lands on its own match exactly when no match's text begins earlier in the text
      rewritten so far. */
  lemma {:induction false} LandOnOwnExactlyWhen(p: Pattern, s: string, spans: seq<Span>, news: seq<string>, i: nat,
                                                before: string)
    requires |spans| == |news| && i <= |s| && Ordered(p, s, spans, i)
    ensures Landings(before + s[i..], Olds(p, s, spans, i), news) == OwnPlaces(p, s, spans, news, i, before)
            <==> OwnFirst(p, s, spans, news, i, before)
    decreases |spans|
  {
    if spans != [] {
      var m := spans[0];
      var front := before + s[i..m.start];
      OldsAre(p, s, spans, i);
      FrontOf(before, s, i, m.start);
      OccursHere(front, s, m.start, m.end);
      var rest := OwnPlaces(p, s, spans[1..], news[1..], m.end, front + news[0]);
      LandFirst(front + s[m.start..], Olds(p, s, spans, i), news, |front|, rest);
      if !OccursEarlier(front, s, m.start, m.end) {
        ReplaceOwn(front, s, m.start, m.end, news[0]);
        LandOnOwnExactlyWhen(p, s, spans[1..], news[1..], m.end, front + news[0]);
      }
    }
  }

  lemma LandFirst(content: string, olds: seq<string>, news: seq<string>, at: int, rest: seq<int>)
    requires |olds| == |news| > 0
    ensures Landings(content, olds, news) == [at] + rest
            <==> Index(content, olds[0]) == at
                 && Landings(ReplaceFirst(content, olds[0], news[0]), olds[1..], news[1..]) == rest
  {
    var all := Landings(content, olds, news);
    assert all[1..] == Landings(ReplaceFirst(content, olds[0], news[0]), olds[1..], news[1..]);
    assert ([at] + rest)[0] == at && ([at] + rest)[1..] == rest;
    assert all == [all[0]] + all[1..];
  }

  /** Then replacing first occurrences one after the other is replacing every match where it stands. */
  lemma {:induction false} SequentialIsSplice(p: Pattern, s: string, spans: seq<Span>, news: seq<string>, i: nat,
                                              before: string)
    requires |spans| == |news| && i <= |s| && Ordered(p, s, spans, i)
    requires OwnFirst(p, s, spans, news, i, before)
    ensures ReplaceEach(before + s[i..], Olds(p, s, spans, i), news) == before + Splice(p, s, spans, news, i)
    decreases |spans|
  {
    if spans != [] {
      var m := spans[0];
      var front := before + s[i..m.start];
      OldsAre(p, s, spans, i);
      FrontOf(before, s, i, m.start);
      ReplaceOwn(front, s, m.start, m.end, news[0]);
      SequentialIsSplice(p, s, spans[1..], news[1..], m.end, front + news[0]);
      var rest := Splice(p, s, spans[1..], news[1..], m.end);
      Regroup(before, s[i..m.start], news[0], rest);
    }
  }

  lemma FrontOf(before: string, s: string, i: nat, j: nat)
    requires i <= j <= |s|
    ensures before + s[i..] == before + s[i..j] + s[j..]
  {
  }

  lemma CutAfter(front: string, s: string, at: nat, end: nat)
    requires at <= end <= |s|
    ensures (front + s[at..])[..|front|] == front && (front + s[at..])[|front| + (end - at)..] == s[end..]
  {
  }

  lemma Regroup(a: string, b: string, c: string, d: string)
    ensures a + (b + c + d) == a + b + c + d
  {
  }

  // ---------- rendering ----------

  /** What looking up a placeholder gives: NewVariable fails; there is no value, or getting it fails; the
      value is a string; it is something else, with its JSON text, or without one. */
  datatype Lookup =
    | NoVariable(error: string)
    | Missing
    | Text(text: string)
    | Json(json: string)
    | NotJson(error: string)
  {
    predicate Good() {
      Missing? || Text? || Json?
    }

    function NewStr(): string
      requires Good()
    {
      match this
      case Missing => "N/A"
      case Text(t) => t
      case Json(j) => j
    }
  }

  datatype Rendered = Content(text: string) | Failed(error: string) | Panicked

  predicate AllGood(placeholders: seq<string>, lookup: string -> Lookup) {
    forall x | x in placeholders :: lookup(x).Good()
  }

  function News(placeholders: seq<string>, lookup: string -> Lookup): (r: seq<string>)
    requires AllGood(placeholders, lookup)
    ensures |r| == |placeholders|
  {
    if placeholders == [] then [] else [lookup(placeholders[0]).NewStr()] + News(placeholders[1..], lookup)
  }

  /** What renderTagContent's second loop makes of the content, the strings matched and the placeholders. */
  function RenderTags(content: string, olds: seq<string>, placeholders: seq<string>, lookup: string -> Lookup): Rendered
    decreases |placeholders|
  {
    if placeholders == [] then Content(content)
    else
      var value := lookup(placeholders[0]);
      if value.NoVariable? then Failed(value.error)
      else if olds == [] then Panicked
      else if value.NotJson? then Failed(value.error)
      else RenderTags(ReplaceFirst(content, olds[0], value.NewStr()), olds[1..], placeholders[1..], lookup)
  }

  function Script(group: string): string {
    ReplaceAll("result = " + group + "; result", "N/A", "NaN")
  }

  function RenderMaths(content: string, olds: seq<string>, groups: seq<string>, eval: string -> Option<string>):
      Rendered
    requires |olds| == |groups|
    decreases |olds|
  {
    if olds == [] then Content(content)
    else match eval(Script(groups[0]))
         case None => Failed("")
         case Some(value) => RenderMaths(ReplaceFirst(content, olds[0], value), olds[1..], groups[1..], eval)
  }

  function Groups(spans: seq<Span>): (r: seq<string>)
    ensures |r| == |spans|
  {
    if spans == [] then [] else [spans[0].group] + Groups(spans[1..])
  }

  /** GeneralParser: the matches of the template, and the placeholders of every template parsed so far. */
  class GeneralParser {
    var template: string
    var spans: seq<Span>
    var placeholders: seq<string>
    const eval: string -> Option<string>

    constructor (eval: string -> Option<string>)
      ensures this.eval == eval && Valid() && template == "" && placeholders == []
    {
      this.eval := eval;
      template, spans, placeholders := "", [], [];
      new;
      assert FindAll(Tag, "", 0) == [];
    }

    ghost predicate Valid()
      reads this
    {
      spans == FindAll(Tag, template, 0)
    }

    method Parse(template: string)
      modifies this
      ensures Valid() && this.template == template
      ensures placeholders == old(placeholders) + Groups(FindAll(Tag, template, 0))
    {
      this.template := template;
      spans := FindAll(Tag, template, 0);
      ghost var todo := spans;
      for i := 0 to |spans|
        invariant Valid() && this.template == template && todo == spans[i..]
        invariant placeholders + Groups(todo) == old(placeholders) + Groups(spans)
      {
        Assoc(placeholders, [spans[i].group], Groups(todo[1..]));
        placeholders := placeholders + [spans[i].group];
        todo := todo[1..];
      }
    }

    method RenderTagContent(lookup: Option<string -> Lookup>) returns (r: Rendered)
      requires Valid()
      ensures lookup.None? ==> r == Failed("no arguments")
      ensures Ordered(Tag, template, spans, 0)
      ensures lookup.Some? ==> r == RenderTags(template, Olds(Tag, template, spans, 0), placeholders, lookup.value)
    {
      FindAllIsOrdered(Tag, template, 0, 0);
      if lookup.None? { return Failed("no arguments"); }
      var content := template;
      var oldStrList := CollectOlds(Tag, template, spans);
      for i := 0 to |placeholders|
        invariant i <= |oldStrList|
        invariant RenderTags(content, oldStrList[i..], placeholders[i..], lookup.value)
                  == RenderTags(template, oldStrList, placeholders, lookup.value)
      {
        TagsFrom(content, oldStrList, placeholders, i, lookup.value);
        var value := lookup.value(placeholders[i]);
        if value.NoVariable? { return Failed(value.error); }
        if i >= |oldStrList| { return Panicked; }
        if value.NotJson? { return Failed(value.error); }
        content := ReplaceFirst(content, oldStrList[i], value.NewStr());
      }
      r := Content(content);
    }

    method RenderMathContent(inputContent: string) returns (r: Rendered)
      ensures Ordered(Math, inputContent, FindAll(Math, inputContent, 0), 0)
      ensures r == RenderMaths(inputContent, Olds(Math, inputContent, FindAll(Math, inputContent, 0), 0),
                               Groups(FindAll(Math, inputContent, 0)), eval)
    {
      var content := inputContent;
      var matches := FindAll(Math, inputContent, 0);
      FindAllIsOrdered(Math, inputContent, 0, 0);
      var oldStrList := CollectOlds(Math, inputContent, matches);
      for i := 0 to |matches|
        invariant RenderMaths(content, oldStrList[i..], Groups(matches[i..]), eval)
                  == RenderMaths(inputContent, oldStrList, Groups(matches), eval)
      {
        assert matches[i..][0] == matches[i] && matches[i..][1..] == matches[i + 1..];
        assert oldStrList[i..][0] == oldStrList[i] && oldStrList[i..][1..] == oldStrList[i + 1..];
        assert Groups(matches[i..])[1..] == Groups(matches[i + 1..]);
        var value := eval(Script(matches[i].group));
        if value.None? { return Failed(""); }
        content := ReplaceFirst(content, oldStrList[i], value.value);
      }
      r := Content(content);
    }

    /** Render: the tags, then the math expressions of the result. */
    method Render(lookup: Option<string -> Lookup>) returns (r: Rendered)
      requires Valid()
      ensures r == RenderResult(template, placeholders, lookup, eval)
    {
      r := RenderTagContent(lookup);
      if !r.Content? { return; }
      r := RenderMathContent(r.text);
    }
  }

  lemma {:induction false} TagsFrom(content: string, olds: seq<string>, placeholders: seq<string>, i: nat,
                                    lookup: string -> Lookup)
    requires i < |placeholders| && i <= |olds|
    ensures RenderTags(content, olds[i..], placeholders[i..], lookup) ==
            var value := lookup(placeholders[i]);
            if value.NoVariable? then Failed(value.error)
            else if i == |olds| then Panicked
            else if value.NotJson? then Failed(value.error)
            else RenderTags(ReplaceFirst(content, olds[i], value.NewStr()),
                            olds[i + 1..], placeholders[i + 1..], lookup)
  {
    assert placeholders[i..][0] == placeholders[i] && placeholders[i..][1..] == placeholders[i + 1..];
    if i < |olds| {
      assert olds[i..][0] == olds[i] && olds[i..][1..] == olds[i + 1..];
    }
  }

  method CollectOlds(p: Pattern, s: string, spans: seq<Span>) returns (olds: seq<string>)
    requires Ordered(p, s, spans, 0)
    ensures olds == Olds(p, s, spans, 0)
  {
    olds := [];
    ghost var at, todo := 0, spans;
    for i := 0 to |spans|
      invariant todo == spans[i..] && Ordered(p, s, todo, at)
      invariant olds + Olds(p, s, todo, at) == Olds(p, s, spans, 0)
    {
      OldsFirst(p, s, todo, at, olds);
      olds := olds + [s[spans[i].start..spans[i].end]];
      at, todo := spans[i].end, todo[1..];
    }
  }

  lemma {:induction false} OldsFirst(p: Pattern, s: string, todo: seq<Span>, at: nat, olds: seq<string>)
    requires todo != [] && Ordered(p, s, todo, at)
    ensures todo[0].start <= todo[0].end <= |s| && Ordered(p, s, todo[1..], todo[0].end)
    ensures olds + Olds(p, s, todo, at) == olds + [s[todo[0].start..todo[0].end]] + Olds(p, s, todo[1..], todo[0].end)
  {
    Assoc(olds, [s[todo[0].start..todo[0].end]], Olds(p, s, todo[1..], todo[0].end));
  }

  function RenderResult(template: string, placeholders: seq<string>, lookup: Option<string -> Lookup>,
                        eval: string -> Option<string>): Rendered
  {
    if lookup.None? then Failed("no arguments")
    else
      var spans := FindAll(Tag, template, 0);
      FindAllIsOrdered(Tag, template, 0, 0);
      var r := RenderTags(template, Olds(Tag, template, spans, 0), placeholders, lookup.value);
      if !r.Content? then r
      else
        var maths := FindAll(Math, r.text, 0);
        FindAllIsOrdered(Math, r.text, 0, 0);
        RenderMaths(r.text, Olds(Math, r.text, maths, 0), Groups(maths), eval)
  }

  // ---------- what rendering means ----------

  /** The tag pass gives a text exactly when every lookup does and no placeholder is left over from an
      earlier template; then it is the sequential replacement. */
  lemma {:induction false} TagsSucceedWhen(content: string, olds: seq<string>, placeholders: seq<string>,
                                           lookup: string -> Lookup)
    ensures RenderTags(content, olds, placeholders, lookup).Content?
            <==> AllGood(placeholders, lookup) && |placeholders| <= |olds|
    ensures AllGood(placeholders, lookup) && |placeholders| == |olds| ==>
            RenderTags(content, olds, placeholders, lookup)
            == Content(ReplaceEach(content, olds, News(placeholders, lookup)))
    decreases |placeholders|
  {
    if placeholders != [] {
      var value := lookup(placeholders[0]);
      assert placeholders == [placeholders[0]] + placeholders[1..];
      if value.Good() && olds != [] {
        TagsSucceedWhen(ReplaceFirst(content, olds[0], value.NewStr()), olds[1..], placeholders[1..], lookup);
        if AllGood(placeholders, lookup) {
          assert News(placeholders, lookup)[1..] == News(placeholders[1..], lookup);
        }
      }
    }
  }

  /** Otherwise the first placeholder that fails decides: its own error, or a panic if it is left over from an earlier
      template, which an unknown variable forestalls and nothing else does. */
  lemma {:induction false} FirstFailure(content: string, olds: seq<string>, placeholders: seq<string>,
                                        lookup: string -> Lookup, k: nat)
    requires k < |placeholders| && k <= |olds| && forall i | 0 <= i < k :: lookup(placeholders[i]).Good()
    ensures var r := RenderTags(content, olds, placeholders, lookup);
            match lookup(placeholders[k])
            case NoVariable(error) => r == Failed(error)
            case NotJson(error) => r == if k == |olds| then Panicked else Failed(error)
            case _ => k == |olds| ==> r == Panicked
    decreases k
  {
    if k > 0 {
      FirstFailure(ReplaceFirst(content, olds[0], lookup(placeholders[0]).NewStr()), olds[1..], placeholders[1..],
                   lookup, k - 1);
    }
  }

  predicate AllEvaluate(groups: seq<string>, eval: string -> Option<string>) {
    forall g | g in groups :: eval(Script(g)).Some?
  }

  function Values(groups: seq<string>, eval: string -> Option<string>): (r: seq<string>)
    requires AllEvaluate(groups, eval)
    ensures |r| == |groups|
  {
    if groups == [] then [] else [eval(Script(groups[0])).value] + Values(groups[1..], eval)
  }

  /** The math pass gives a text exactly when every script runs; then it is the sequential replacement. */
  lemma {:induction false} MathsSucceedWhen(content: string, olds: seq<string>, groups: seq<string>,
                                            eval: string -> Option<string>)
    requires |olds| == |groups|
    ensures RenderMaths(content, olds, groups, eval).Content? <==> AllEvaluate(groups, eval)
    ensures AllEvaluate(groups, eval) ==>
            RenderMaths(content, olds, groups, eval) == Content(ReplaceEach(content, olds, Values(groups, eval)))
    decreases |olds|
  {
    if olds != [] {
      assert groups == [groups[0]] + groups[1..];
      var value := eval(Script(groups[0]));
      if value.Some? {
        MathsSucceedWhen(ReplaceFirst(content, olds[0], value.value), olds[1..], groups[1..], eval);
        if AllEvaluate(groups, eval) {
          assert Values(groups, eval)[1..] == Values(groups[1..], eval);
        }
      }
    }
  }

  /** The template with every tag, as it stands, replaced by its value. */
  ghost function Filled(template: string, lookup: string -> Lookup): string
    requires AllGood(Groups(FindAll(Tag, template, 0)), lookup)
  {
    FindAllIsOrdered(Tag, template, 0, 0);
    Splice(Tag, template, FindAll(Tag, template, 0), News(Groups(FindAll(Tag, template, 0)), lookup), 0)
  }

  /** The text with every math expression, as it stands, replaced by its value. */
  ghost function Evaluated(text: string, eval: string -> Option<string>): string
    requires AllEvaluate(Groups(FindAll(Math, text, 0)), eval)
  {
    FindAllIsOrdered(Math, text, 0, 0);
    Splice(Math, text, FindAll(Math, text, 0), Values(Groups(FindAll(Math, text, 0)), eval), 0)
  }

  /** No tag's text begins earlier in the template rewritten so far: exactly then each replacement lands on its own tag
      (LandOnOwnExactlyWhen). */
  ghost predicate TagOwnFirst(template: string, lookup: string -> Lookup)
    requires AllGood(Groups(FindAll(Tag, template, 0)), lookup)
  {
    FindAllIsOrdered(Tag, template, 0, 0);
    OwnFirst(Tag, template, FindAll(Tag, template, 0), News(Groups(FindAll(Tag, template, 0)), lookup), 0, "")
  }

  ghost predicate MathOwnFirst(text: string, eval: string -> Option<string>)
    requires AllEvaluate(Groups(FindAll(Math, text, 0)), eval)
  {
    FindAllIsOrdered(Math, text, 0, 0);
    OwnFirst(Math, text, FindAll(Math, text, 0), Values(Groups(FindAll(Math, text, 0)), eval), 0, "")
  }

  /** A parser that has parsed one template renders every tag and then every math expression where it stands, if the
      values put in front of each do not bring in its own text. */
  lemma RenderIsPositional(template: string, lookup: string -> Lookup, eval: string -> Option<string>)
    requires AllGood(Groups(FindAll(Tag, template, 0)), lookup) && TagOwnFirst(template, lookup)
    ensures var filled := Filled(template, lookup);
            var r := RenderResult(template, Groups(FindAll(Tag, template, 0)), Some(lookup), eval);
            if AllEvaluate(Groups(FindAll(Math, filled, 0)), eval)
            then MathOwnFirst(filled, eval) ==> r == Content(Evaluated(filled, eval))
            else r == Failed("")
  {
    var spans := FindAll(Tag, template, 0);
    FindAllIsOrdered(Tag, template, 0, 0);
    var news := News(Groups(spans), lookup);
    TagsSucceedWhen(template, Olds(Tag, template, spans, 0), Groups(spans), lookup);
    SequentialIsSplice(Tag, template, spans, news, 0, "");
    Plain(template, Splice(Tag, template, spans, news, 0));
    MathIsPositional(Filled(template, lookup), eval);
  }

  lemma MathIsPositional(text: string, eval: string -> Option<string>)
    ensures Ordered(Math, text, FindAll(Math, text, 0), 0)
    ensures var maths := FindAll(Math, text, 0);
            var r := RenderMaths(text, Olds(Math, text, maths, 0), Groups(maths), eval);
            if AllEvaluate(Groups(maths), eval)
            then MathOwnFirst(text, eval) ==> r == Content(Evaluated(text, eval))
            else r == Failed("")
  {
    var maths := FindAll(Math, text, 0);
    FindAllIsOrdered(Math, text, 0, 0);
    MathsSucceedWhen(text, Olds(Math, text, maths, 0), Groups(maths), eval);
    MathsFailPlainly(text, Olds(Math, text, maths, 0), Groups(maths), eval);
    if AllEvaluate(Groups(maths), eval) && MathOwnFirst(text, eval) {
      SequentialIsSplice(Math, text, maths, Values(Groups(maths), eval), 0, "");
      Plain(text, Evaluated(text, eval));
    }
  }

  /** It is enough that neither result has an opening marker left in it. */
  lemma ClearRenderIsPositional(template: string, lookup: string -> Lookup, eval: string -> Option<string>)
    requires AllGood(Groups(FindAll(Tag, template, 0)), lookup) && !Occurs(Filled(template, lookup), "{{")
    ensures var filled := Filled(template, lookup);
            var r := RenderResult(template, Groups(FindAll(Tag, template, 0)), Some(lookup), eval);
            if AllEvaluate(Groups(FindAll(Math, filled, 0)), eval)
            then !Occurs(Evaluated(filled, eval), "{#") ==> r == Content(Evaluated(filled, eval))
            else r == Failed("")
  {
    var tags, filled := FindAll(Tag, template, 0), Filled(template, lookup);
    FindAllIsOrdered(Tag, template, 0, 0);
    Plain(template, filled);
    ClearSpliceClearFronts(Tag, template, tags, News(Groups(tags), lookup), 0, "");
    ClearFrontsOwnFirst(Tag, template, tags, News(Groups(tags), lookup), 0, "");
    RenderIsPositional(template, lookup, eval);
    if AllEvaluate(Groups(FindAll(Math, filled, 0)), eval) && !Occurs(Evaluated(filled, eval), "{#") {
      ClearMathOwnFirst(filled, eval);
    }
  }

  lemma ClearMathOwnFirst(text: string, eval: string -> Option<string>)
    requires AllEvaluate(Groups(FindAll(Math, text, 0)), eval) && !Occurs(Evaluated(text, eval), "{#")
    ensures MathOwnFirst(text, eval)
  {
    var maths := FindAll(Math, text, 0);
    FindAllIsOrdered(Math, text, 0, 0);
    Plain(text, Evaluated(text, eval));
    ClearSpliceClearFronts(Math, text, maths, Values(Groups(maths), eval), 0, "");
    ClearFrontsOwnFirst(Math, text, maths, Values(Groups(maths), eval), 0, "");
  }

  lemma Plain(a: string, b: string)
    ensures "" + a[0..] == a && "" + b == b
  {
  }

  lemma {:induction false} MathsFailPlainly(content: string, olds: seq<string>, groups: seq<string>,
                                            eval: string -> Option<string>)
    requires |olds| == |groups|
    ensures RenderMaths(content, olds, groups, eval).Content? || RenderMaths(content, olds, groups, eval) == Failed("")
    decreases |olds|
  {
    if olds != [] && eval(Script(groups[0])).Some? {
      MathsFailPlainly(ReplaceFirst(content, olds[0], eval(Script(groups[0])).value), olds[1..], groups[1..], eval);
    }
  }

  /** A parser is for one template: after a second Parse the tag pass succeeds exactly when the first template
      had no tag (and every lookup is good); otherwise rendering fails or runs past the strings matched. */
  lemma SecondParseSucceedsWhen(first: string, second: string, lookup: string -> Lookup)
    ensures Ordered(Tag, second, FindAll(Tag, second, 0), 0)
    ensures var spans := FindAll(Tag, second, 0);
            var placeholders := Groups(FindAll(Tag, first, 0)) + Groups(spans);
            RenderTags(second, Olds(Tag, second, spans, 0), placeholders, lookup).Content?
            <==> FindAll(Tag, first, 0) == [] && AllGood(Groups(spans), lookup)
  {
    var spans := FindAll(Tag, second, 0);
    FindAllIsOrdered(Tag, second, 0, 0);
    TagsSucceedWhen(second, Olds(Tag, second, spans, 0), Groups(FindAll(Tag, first, 0)) + Groups(spans), lookup);
  }

  /** The script is never changed by the replacement of N/A: the pattern admits no letter A, so an expression
      into which a missing value was filled is not matched at all. */
  lemma {:induction false} NothingToReplaceInScripts(text: string, m: Span)
    requires m in FindAll(Math, text, 0)
    ensures Script(m.group) == "result = " + m.group + "; result"
  {
    GroupsAreMath(text, 0, m);
    var script := "result = " + m.group + "; result";
    InNeither("result = ", m.group, 'A');
    InNeither("result = " + m.group, "; result", 'A');
    MissingChar(script, "N/A", 2);
    ReplaceAllNone(script, "N/A", "NaN");
  }

  lemma InNeither(a: string, b: string, c: char)
    requires c !in a && c !in b
    ensures c !in a + b
  {
  }

  lemma {:induction false} GroupsAreMath(text: string, i: nat, m: Span)
    requires i <= |text| && m in FindAll(Math, text, i)
    ensures forall c | c in m.group :: IsMathChar(c)
    decreases |text| - i
  {
    match MatchAt(Math, text, i)
    case Some(first) => if m != first { GroupsAreMath(text, first.end, m); }
    case None => GroupsAreMath(text, i + 1, m);
  }

  lemma ReplaceOne(content: string, was: string, now: string)
    ensures ReplaceEach(content, [was], [now]) == ReplaceFirst(content, was, now)
  {
  }

  lemma ReplaceTwo(content: string, a: string, b: string, x: string, y: string)
    ensures ReplaceEach(content, [a, b], [x, y]) == ReplaceFirst(ReplaceFirst(content, a, x), b, y)
  {
    assert [a, b][1..] == [b] && [x, y][1..] == [y];
    ReplaceOne(ReplaceFirst(content, a, x), b, y);
  }

  // ---------- a value that is a tag ----------

  function TagOf(c: char): string {
    "{{" + [c] + "}}"
  }

  lemma OneTag(s: string, i: nat, c: char)
    requires i + 5 <= |s| && s[i..i + 5] == TagOf(c) && IsTagChar(c)
    ensures MatchAt(Tag, s, i) == Some(Span(i, i + 5, [c]))
  {
    var t := s[i..i + 5];
    assert s[i] == t[0] && s[i + 1] == t[1] && s[i + 2] == t[2] && s[i + 3] == t[3] && s[i + 4] == t[4];
    assert s[i..i + 2] == "{{" && s[i + 3..i + 5] == "}}" && s[i + 2..i + 3] == [c];
    assert Skip(s, i + 2, IsSpace) == i + 2;
    assert Skip(s, i + 2, IsTagChar) == i + 3;
    assert Skip(s, i + 3, IsSpace) == i + 3;
  }

  lemma {:induction false} TwoTags(c: char, d: char)
    requires IsTagChar(c) && IsTagChar(d)
    ensures FindAll(Tag, TagOf(c) + TagOf(d), 0) == [Span(0, 5, [c]), Span(5, 10, [d])]
    ensures Groups(FindAll(Tag, TagOf(c) + TagOf(d), 0)) == [[c], [d]]
  {
    var s := TagOf(c) + TagOf(d);
    assert s[0..0 + 5] == TagOf(c) && s[5..5 + 5] == TagOf(d);
    OneTag(s, 0, c);
    OneTag(s, 5, d);
    MatchIsFirst(Tag, s, 0);
    MatchIsFirst(Tag, s, 5);
    assert FindAll(Tag, s, 10) == [];
    TwoGroups(Span(0, 5, [c]), Span(5, 10, [d]));
  }

  lemma TwoGroups(one: Span, two: Span)
    ensures [one] + ([two] + []) == [one, two] && Groups([one, two]) == [one.group, two.group]
  {
    assert [one, two][1..] == [two] && [two][1..] == [];
    assert Groups([two]) == [two.group];
  }

  lemma {:induction false} NoMaths(s: string, i: nat)
    requires '#' !in s && i <= |s|
    ensures FindAll(Math, s, i) == []
    decreases |s| - i
  {
    if i + 1 < |s| {
      NotHere(s, "{#", i, 1);
    }
    if i < |s| {
      NoMaths(s, i + 1);
    }
  }

  /** A match right at position i. */
  lemma SpanAt(p: Pattern, s: string, spans: seq<Span>, news: seq<string>, i: nat)
    requires spans != [] && |spans| == |news| && i <= |s| && Ordered(p, s, spans, i) && spans[0].start == i
    ensures i <= spans[0].end <= |s| && Ordered(p, s, spans[1..], spans[0].end)
    ensures Olds(p, s, spans, i) == [s[i..spans[0].end]] + Olds(p, s, spans[1..], spans[0].end)
    ensures Splice(p, s, spans, news, i) == news[0] + Splice(p, s, spans[1..], news[1..], spans[0].end)
  {
    NothingBefore(s, i, news[0]);
  }

  lemma NothingBefore(s: string, i: nat, t: string)
    requires i <= |s|
    ensures s[i..i] + t == t && s[|s|..] == ""
  {
  }

  lemma NoSpans(p: Pattern, s: string, i: nat)
    requires i == |s|
    ensures Olds(p, s, [], i) == [] && Splice(p, s, [], [], i) == ""
  {
  }

  lemma TwoSpans(s: string, one: Span, two: Span, y: string, x: string)
    requires one.start == 0 && one.end == two.start && two.end == |s| && Ordered(Tag, s, [one, two], 0)
    ensures one.end <= |s| && Olds(Tag, s, [one, two], 0) == [s[0..one.end]] + ([s[one.end..|s|]] + [])
    ensures Splice(Tag, s, [one, two], [y, x], 0) == y + (x + "")
  {
    assert [one, two][1..] == [two] && [two][1..] == [] && [y, x][1..] == [x] && [x][1..] == [];
    SpanAt(Tag, s, [one, two], [y, x], 0);
    SpanAt(Tag, s, [two], [x], one.end);
    NoSpans(Tag, s, |s|);
  }

  lemma CutTwo(a: string, b: string, x: string)
    ensures (a + b)[0..|a|] == a && (a + b)[|a|..|a + b|] == b && [a] + ([b] + []) == [a, b] && x + "" == x
  {
  }

  /** What the parser makes of two matches that fill the text, and what the text stands for. */
  lemma TwoSpansFilled(s: string, a: string, b: string, one: Span, two: Span, y: string, x: string)
    requires one.start == 0 && one.end == two.start == |a| && two.end == |s| && Ordered(Tag, s, [one, two], 0)
    requires s == a + b
    ensures Olds(Tag, s, [one, two], 0) == [a, b]
    ensures Splice(Tag, s, [one, two], [y, x], 0) == y + x
  {
    TwoSpans(s, one, two, y, x);
    CutTwo(a, b, x);
  }

  lemma TwoNews(c: char, d: char, lookup: string -> Lookup)
    requires lookup([c]).Good() && lookup([d]).Good()
    ensures AllGood([[c], [d]], lookup)
    ensures News([[c], [d]], lookup) == [lookup([c]).NewStr(), lookup([d]).NewStr()]
  {
    assert [[c], [d]][1..] == [[d]] && [[d]][1..] == [];
    assert News([[d]], lookup) == [lookup([d]).NewStr()];
  }

  lemma TwoTagsRendered(c: char, d: char, lookup: string -> Lookup)
    requires IsTagChar(c) && IsTagChar(d) && lookup([c]).Good() && lookup([d]).Good()
    ensures var template, y, x := TagOf(c) + TagOf(d), lookup([c]).NewStr(), lookup([d]).NewStr();
            var spans := FindAll(Tag, template, 0);
            && Ordered(Tag, template, spans, 0) && Olds(Tag, template, spans, 0) == [TagOf(c), TagOf(d)]
            && AllGood(Groups(spans), lookup) && News(Groups(spans), lookup) == [y, x]
            && Filled(template, lookup) == y + x
  {
    var template := TagOf(c) + TagOf(d);
    FindAllIsOrdered(Tag, template, 0, 0);
    TwoTags(c, d);
    TwoNews(c, d, lookup);
    TwoSpansFilled(template, TagOf(c), TagOf(d), Span(0, 5, [c]), Span(5, 10, [d]),
                   lookup([c]).NewStr(), lookup([d]).NewStr());
  }

  /** A value that is a later tag takes the replacement meant for that tag: if the value of c is the tag of d, the tags
      of c and d become the value of d and then the tag of d, where each value in its place gives the reverse. */
  lemma ValueWithTagIsMisplaced(c: char, d: char, x: string, lookup: string -> Lookup, eval: string -> Option<string>)
    requires IsTagChar(c) && IsTagChar(d) && '#' !in x
    requires lookup([c]) == Lookup.Text(TagOf(d)) && lookup([d]) == Lookup.Text(x)
    ensures var template := TagOf(c) + TagOf(d);
            && AllGood(Groups(FindAll(Tag, template, 0)), lookup)
            && RenderResult(template, Groups(FindAll(Tag, template, 0)), Some(lookup), eval) == Content(x + TagOf(d))
            && Filled(template, lookup) == TagOf(d) + x
  {
    var template := TagOf(c) + TagOf(d);
    TwoTagsRendered(c, d, lookup);
    NoHash(x, d);
    SwapRendered(template, TagOf(c), TagOf(d), x, lookup, eval);
  }

  lemma NoHash(x: string, d: char)
    requires '#' !in x && IsTagChar(d)
    ensures '#' !in x + TagOf(d)
  {
    var t := TagOf(d);
    assert forall i | 0 <= i < |t| :: t[i] == (if i == 2 then d else if i < 2 then '{' else '}');
    InNeither(x, t, '#');
  }

  lemma SwapRendered(template: string, a: string, b: string, x: string, lookup: string -> Lookup,
                     eval: string -> Option<string>)
    requires Ordered(Tag, template, FindAll(Tag, template, 0), 0) && template == a + b && '#' !in x + b
    requires Olds(Tag, template, FindAll(Tag, template, 0), 0) == [a, b]
    requires AllGood(Groups(FindAll(Tag, template, 0)), lookup)
    requires News(Groups(FindAll(Tag, template, 0)), lookup) == [b, x]
    ensures RenderResult(template, Groups(FindAll(Tag, template, 0)), Some(lookup), eval) == Content(x + b)
  {
    SwappedBy(a, b, x);
    TagsOnly(template, lookup, eval, x + b);
  }

  /** Without a math expression in it, what the tag pass leaves is the result. */
  lemma TagsOnly(template: string, lookup: string -> Lookup, eval: string -> Option<string>, text: string)
    requires Ordered(Tag, template, FindAll(Tag, template, 0), 0) && '#' !in text
    requires AllGood(Groups(FindAll(Tag, template, 0)), lookup)
    requires var spans := FindAll(Tag, template, 0);
             ReplaceEach(template, Olds(Tag, template, spans, 0), News(Groups(spans), lookup)) == text
    ensures RenderResult(template, Groups(FindAll(Tag, template, 0)), Some(lookup), eval) == Content(text)
  {
    var spans := FindAll(Tag, template, 0);
    TagsSucceedWhen(template, Olds(Tag, template, spans, 0), Groups(spans), lookup);
    NoMaths(text, 0);
    FindAllIsOrdered(Math, text, 0, 0);
  }

  lemma SwappedBy(a: string, b: string, x: string)
    ensures ReplaceEach(a + b, [a, b], [b, x]) == x + b
  {
    ReplaceTwo(a + b, a, b, b, x);
    ReplaceLeading(a, b, b);
    ReplaceLeading(b, b, x);
  }

  /** For one, the template {{a}}{{b}}, the value of a being {{b}} and that of b being x. */
  lemma MisplacedExample(eval: string -> Option<string>)
    ensures var lookup := (g: string) => if g == "a" then Lookup.Text("{{b}}") else Lookup.Text("x");
            && AllGood(Groups(FindAll(Tag, "{{a}}{{b}}", 0)), lookup)
            && RenderResult("{{a}}{{b}}", ["a", "b"], Some(lookup), eval) == Content("x{{b}}")
            && Filled("{{a}}{{b}}", lookup) == "{{b}}x" != "x{{b}}"
  {
    var lookup := (g: string) => if g == "a" then Lookup.Text("{{b}}") else Lookup.Text("x");
    assert TagOf('a') == "{{a}}" && TagOf('b') == "{{b}}" && "{{a}}" + "{{b}}" == "{{a}}{{b}}";
    assert "x" + "{{b}}" == "x{{b}}" && "{{b}}" + "x" == "{{b}}x" && "{{b}}x"[0] != "x{{b}}"[0];
    TwoTags('a', 'b');
    ValueWithTagIsMisplaced('a', 'b', "x", lookup, eval);
  }

  // ---------- one tag in plain text ----------

  /** The text that stands for what a placeholder is looked up as. */
  function Shown(value: Lookup): string
    requires value.Good()
  {
    if value.Text? then value.text else if value.Json? then value.json else "N/A"
  }

  /** A tag with plain text around it is found, wherever it stands, and nothing but it gives way to the value of its
      word: a string as it is, another value as its JSON text, a missing one as N/A. */
  lemma TagIsFilled(before: string, word: string, after: string, lookup: string -> Lookup,
                    eval: string -> Option<string>)
    requires '{' !in before + after && '#' !in before + after && word != "" && forall c | c in word :: IsTagChar(c)
    requires lookup(word).Good() && '#' !in Shown(lookup(word))
    ensures var template := before + ("{{" + word + "}}") + after;
            && Groups(FindAll(Tag, template, 0)) == [word]
            && RenderResult(template, [word], Some(lookup), eval) == Content(before + Shown(lookup(word)) + after)
  {
    var tag := "{{" + word + "}}";
    var m := Span(|before|, |before| + |tag|, word);
    TagAlone(before, word, after, Shown(lookup(word)));
    OneSpan(before + tag + after, m, tag, lookup, eval, before + Shown(lookup(word)) + after);
  }

  lemma TagAlone(before: string, word: string, after: string, value: string)
    requires '{' !in before + after && '#' !in before + after && word != "" && forall c | c in word :: IsTagChar(c)
    requires '#' !in value
    ensures var tag := "{{" + word + "}}";
            var template := before + tag + after;
            && FindAll(Tag, template, 0) == [Span(|before|, |before| + |tag|, word)]
            && template[|before|..|before| + |tag|] == tag && '#' !in before + value + after
            && ReplaceEach(template, [tag], [value]) == before + value + after
  {
    var tag := "{{" + word + "}}";
    TagStands(before, word, after);
    Cut(before, tag, after);
    FirstReplaced(before, tag, after, value);
    NoHashAround(before, value, after);
  }

  lemma Cut(before: string, tag: string, after: string)
    ensures (before + tag + after)[|before|..|before| + |tag|] == tag
  {
  }

  lemma {:induction false} TagStands(before: string, word: string, after: string)
    requires '{' !in before + after && word != "" && forall c | c in word :: IsTagChar(c)
    ensures var tag := "{{" + word + "}}";
            FindAll(Tag, before + tag + after, 0) == [Span(|before|, |before| + |tag|, word)]
  {
    var tag := "{{" + word + "}}";
    var s := before + tag + after;
    var m := Span(|before|, |before| + |tag|, word);
    TagIsAt(before, word, after);
    forall k | 0 <= k < |before| ensures MatchAt(Tag, s, k).None? {
      NothingInFront(before, tag, after, k);
    }
    forall k | m.end <= k <= |s| ensures MatchAt(Tag, s, k).None? {
      NothingAfter(before, tag, after, k);
    }
    assert NoneFrom(Tag, s, 0, |before|) && NoneFrom(Tag, s, m.end, |s| + 1);
    assert [m][1..] == [] && IsLeftmost(Tag, s, [], m.end);
    FindAllExactlyWhen(Tag, s, [m], 0);
  }

  lemma NothingInFront(before: string, tag: string, after: string, k: nat)
    requires '{' !in before + after && k < |before|
    ensures MatchAt(Tag, before + tag + after, k).None?
  {
    var s := before + tag + after;
    assert s[k] == before[k] == (before + after)[k];
    NotHere(s, "{{", k, 0);
  }

  lemma NothingAfter(before: string, tag: string, after: string, k: nat)
    requires '{' !in before + after && |before| + |tag| <= k <= |before| + |tag| + |after|
    ensures MatchAt(Tag, before + tag + after, k).None?
  {
    var s := before + tag + after;
    if k < |s| {
      assert s[k] == after[k - |before| - |tag|] == (before + after)[k - |tag|];
      NotHere(s, "{{", k, 0);
    }
  }

  lemma TagIsAt(before: string, word: string, after: string)
    requires word != "" && forall c | c in word :: IsTagChar(c)
    ensures var tag, i := "{{" + word + "}}", |before|;
            MatchAt(Tag, before + tag + after, i) == Some(Span(i, i + |tag|, word))
  {
    var tag, i := "{{" + word + "}}", |before|;
    var s, b := before + tag + after, i + 2 + |word|;
    TagCut(before, word, after);
    forall j | i + 2 <= j < b ensures IsTagChar(s[j]) {
      assert s[j] == s[i + 2..b][j - i - 2] == word[j - i - 2];
    }
    TagIsMatch(s, Span(i, i + |tag|, word), i, i + 2, b, b);
  }

  lemma TagCut(before: string, word: string, after: string)
    ensures var s, i := before + ("{{" + word + "}}") + after, |before|;
            && s[i..i + 2] == "{{" && s[i + 2..i + 2 + |word|] == word
            && s[i + 2 + |word|..i + 4 + |word|] == "}}"
  {
  }

  /** A template with one tag, whose replacement gives a text without a math expression. */
  lemma OneSpan(s: string, m: Span, tag: string, lookup: string -> Lookup, eval: string -> Option<string>, text: string)
    requires m.start <= m.end <= |s| && s[m.start..m.end] == tag && FindAll(Tag, s, 0) == [m]
    requires lookup(m.group).Good() && '#' !in text && ReplaceEach(s, [tag], [Shown(lookup(m.group))]) == text
    ensures Groups(FindAll(Tag, s, 0)) == [m.group]
    ensures RenderResult(s, [m.group], Some(lookup), eval) == Content(text)
  {
    FindAllIsOrdered(Tag, s, 0, 0);
    OneOld(s, m);
    OneValue(m.group, lookup);
    TagsOnly(s, lookup, eval, text);
  }

  lemma OneOld(s: string, m: Span)
    requires m.start <= m.end <= |s| && Ordered(Tag, s, [m], 0)
    ensures Olds(Tag, s, [m], 0) == [s[m.start..m.end]] && Groups([m]) == [m.group]
  {
    assert [m][1..] == [];
  }

  lemma OneValue(word: string, lookup: string -> Lookup)
    requires lookup(word).Good()
    ensures AllGood([word], lookup) && News([word], lookup) == [Shown(lookup(word))]
  {
    assert [word][1..] == [];
  }

  lemma FirstReplaced(before: string, tag: string, after: string, value: string)
    requires '{' !in before + after && |tag| > 0 && tag[0] == '{'
    ensures ReplaceEach(before + tag + after, [tag], [value]) == before + value + after
  {
    var s := before + tag + after;
    forall j | 0 <= j < |before| ensures !OccursAt(s, tag, j) {
      assert s[j] == before[j] == (before + after)[j];
      NotHere(s, tag, j, 0);
    }
    assert s[|before|..|before| + |tag|] == tag;
    FirstIndexIs(s, tag, |before|);
    assert s[..|before|] == before && s[|before| + |tag|..] == after;
    ReplaceOne(s, tag, value);
  }

  lemma NoHashAround(before: string, value: string, after: string)
    requires '#' !in before + after && '#' !in value
    ensures '#' !in before + value + after
  {
    forall k | 0 <= k < |before + value + after| ensures (before + value + after)[k] != '#' {
      if k < |before| {
        assert (before + value + after)[k] == (before + after)[k];
      } else if k >= |before| + |value| {
        assert (before + value + after)[k] == (before + after)[k - |value|];
      }
    }
  }
}
