/** Rendering of notification templates (core/notification/service_v2.go): the variables of a template are
    collected into a map and then replaced one after the other, in whatever order the map yields them. */
module Notification {
  import opened Text
  import opened Wrappers

  datatype Variable = Variable(category: string, name: string)
  {
    /** NotificationVariable.GetKey */
    function Key(): string {
      "${" + category + ":" + name + "}"
    }

    /** The key of the map in parseTemplateVariables. */
    function MapKey(): string {
      category + ":" + name
    }

    predicate Valid() {
      category != "" && name != "" && IsWord(category) && IsWord(name)
    }
  }

  predicate IsWord(s: string) {
    forall c | c in s :: IsWordChar(c)
  }

  /** The length of the longest run of word characters at the start of s. */
  function WordLength(s: string): (n: nat)
    ensures n <= |s| && IsWord(s[..n]) && (n < |s| ==> !IsWordChar(s[n]))
  {
    if s == "" || !IsWordChar(s[0]) then 0
    else
      var n := 1 + WordLength(s[1..]);
      assert s[..n] == [s[0]] + s[1..][..n - 1];
      n
  }

  lemma {:induction false} KeyCut(s: string, a: nat, b: nat)
    requires "${" <= s && 3 + a + b < |s| && s[2 + a] == ':' && s[3 + a + b] == '}'
    ensures Variable(s[2..2 + a], s[3 + a..3 + a + b]).Key() == s[..4 + a + b]
  {
  }

  /** The match of \$\{(\w+):(\w+)} at the start of s, if there is one. */
  function MatchHere(s: string): (m: Option<Variable>)
    ensures m.Some? ==> m.value.Valid() && m.value.Key() <= s
  {
    if !("${" <= s) then None
    else
      var a := WordLength(s[2..]);
      var rest := s[2 + a..];
      if a == 0 || !(":" <= rest) then None
      else
        var b := WordLength(rest[1..]);
        if b == 0 || !("}" <= rest[1 + b..]) then None
        else
          KeyCut(s, a, b);
          assert s[2..][..a] == s[2..2 + a] && rest[1..][..b] == s[3 + a..3 + a + b];
          Some(Variable(s[2..2 + a], s[3 + a..3 + a + b]))
  }

  // ---------- a template in pieces ----------

  datatype Piece = Plain(c: char) | Var(v: Variable)

  /** The template as the regular expression sees it: leftmost matches, and the characters between. */
  function Pieces(s: string): seq<Piece>
    decreases |s|
  {
    if s == "" then []
    else match MatchHere(s)
         case Some(v) => [Var(v)] + Pieces(s[|v.Key()|..])
         case None => [Plain(s[0])] + Pieces(s[1..])
  }

  function Flat(ps: seq<Piece>): string {
    if ps == [] then ""
    else (if ps[0].Plain? then [ps[0].c] else ps[0].v.Key()) + Flat(ps[1..])
  }

  lemma {:induction false} FlatCons(p: Piece, ps: seq<Piece>)
    ensures Flat([p] + ps) == (if p.Plain? then [p.c] else p.v.Key()) + Flat(ps)
  {
  }

  lemma {:induction false} FlatPieces(s: string)
    ensures Flat(Pieces(s)) == s
    decreases |s|
  {
    if s != "" {
      match MatchHere(s)
      case Some(v) =>
        var rest := s[|v.Key()|..];
        FlatPieces(rest);
        FlatCons(Var(v), Pieces(rest));
        assert s == v.Key() + rest;
      case None =>
        FlatPieces(s[1..]);
        FlatCons(Plain(s[0]), Pieces(s[1..]));
    }
  }

  /** The variables of a template. */
  function VariablesOf(ps: seq<Piece>): set<Variable> {
    set p | p in ps && p.Var? :: p.v
  }

  lemma {:induction false} PiecesAreValid(s: string)
    ensures forall p | p in Pieces(s) && p.Var? :: p.v.Valid()
    decreases |s|
  {
    if s != "" {
      match MatchHere(s)
      case Some(v) => PiecesAreValid(s[|v.Key()|..]);
      case None => PiecesAreValid(s[1..]);
    }
  }

  ghost predicate VarsValid(ps: seq<Piece>) {
    forall p | p in ps && p.Var? :: p.v.Valid()
  }

  /** The reference: every variable replaced where it stands; one without a value is left as it is. */
  function Simultaneous(ps: seq<Piece>, value: Variable -> Option<string>): string {
    if ps == [] then ""
    else
      var here := match ps[0]
        case Plain(c) => [c]
        case Var(v) => if value(v).Some? then value(v).value else v.Key();
      here + Simultaneous(ps[1..], value)
  }

  /** strings.ReplaceAll for one variable after the other. */
  function ReplaceChain(content: string, order: seq<Variable>, value: Variable -> Option<string>): string
    decreases |order|
  {
    if order == [] then content
    else
      var v := order[0];
      ReplaceChain(if value(v).Some? then ReplaceAll(content, v.Key(), value(v).value) else content, order[1..], value)
  }

  // ---------- one replacement ----------

  lemma {:induction false} OccursShift(first: string, rest: string, was: string, j: nat)
    ensures OccursAt(first + rest, was, |first| + j) <==> OccursAt(rest, was, j)
  {
  }

  lemma {:induction false} IndexInRest(first: string, rest: string, was: string)
    requires forall j | 0 <= j < |first| :: !OccursAt(first + rest, was, j)
    ensures Index(first + rest, was) == if Index(rest, was) == -1 then -1 else |first| + Index(rest, was)
  {
    var i := Index(first + rest, was);
    if i != -1 {
      OccursShift(first, rest, was, i - |first|);
      assert OccursAt(rest, was, i - |first|);
    }
    var k := Index(rest, was);
    if k != -1 {
      OccursShift(first, rest, was, k);
      assert OccursAt(first + rest, was, |first| + k);
    }
  }

  /** Nothing starting in the first part: the replacement happens in the rest. */
  lemma {:induction false} ReplaceInRest(first: string, rest: string, was: string, now: string)
    requires was != "" && forall j | 0 <= j < |first| :: !OccursAt(first + rest, was, j)
    ensures ReplaceAll(first + rest, was, now) == first + ReplaceAll(rest, was, now)
  {
    IndexInRest(first, rest, was);
    var i := Index(rest, was);
    if i == -1 {
      ReplaceAllNone(first + rest, was, now);
      ReplaceAllNone(rest, was, now);
    } else {
      CutRest(first, rest, i, |was|);
      ReplaceAllStep(first + rest, was, now, |first| + i, first + rest[..i], rest[i + |was|..]);
      ReplaceAllStep(rest, was, now, i, rest[..i], rest[i + |was|..]);
      Assoc4(first, rest[..i], now, ReplaceAll(rest[i + |was|..], was, now));
    }
  }

  lemma {:induction false} CutRest(first: string, rest: string, i: nat, n: nat)
    requires i + n <= |rest|
    ensures (first + rest)[..|first| + i] == first + rest[..i]
    ensures (first + rest)[|first| + i + n..] == rest[i + n..]
  {
  }

  lemma {:induction false} ReplaceAllStep(s: string, was: string, now: string, i: nat, before: string, after: string)
    requires was != "" && Index(s, was) == i && i + |was| <= |s| && s[..i] == before && s[i + |was|..] == after
    ensures ReplaceAll(s, was, now) == before + now + ReplaceAll(after, was, now)
  {
  }

  lemma Assoc4(a: string, b: string, c: string, d: string)
    ensures a + b + c + d == a + (b + c + d)
  {
  }

  lemma {:induction false} ReplaceAtFront(was: string, rest: string, now: string)
    requires was != ""
    ensures ReplaceAll(was + rest, was, now) == now + ReplaceAll(rest, was, now)
  {
  }

  // ---------- keys ----------

  /** In a key, the dollar sign is only in front and the closing brace only at the end. */
  lemma {:induction false} KeyShape(v: Variable)
    requires v.Valid()
    ensures |v.Key()| >= 6 && v.Key()[0] == '$' && v.Key()[|v.Key()| - 1] == '}'
    ensures forall j | 1 <= j < |v.Key()| - 1 :: v.Key()[j] != '$' && v.Key()[j] != '}'
  {
    var k := v.Key();
    forall j | 1 <= j < |k| - 1 ensures k[j] != '$' && k[j] != '}' {
      if j == 1 || j == 2 + |v.category| {
      } else if j < 2 + |v.category| {
        assert k[j] == v.category[j - 2] && k[j] in v.category;
      } else {
        assert k[j] == v.name[j - 3 - |v.category|] && k[j] in v.name;
      }
    }
  }

  lemma {:induction false} KeyEnds(v: Variable)
    ensures |v.Key()| >= 4 && v.Key()[0] == '$' && v.Key()[|v.Key()| - 1] == '}'
    ensures v.Key()[2..|v.Key()| - 1] == v.MapKey()
  {
  }

  lemma {:induction false} ClosesAtTheEnd(v: Variable, i: nat)
    requires v.Valid() && 1 <= i < |v.Key()| && v.Key()[i] == '}'
    ensures i == |v.Key()| - 1
  {
    KeyShape(v);
  }

  /** Text that starts with one key starts with no other. */
  lemma {:induction false} KeysApart(v: Variable, w: Variable, rest: string)
    requires v.Valid() && w.Valid() && v.Key() <= w.Key() + rest
    ensures v == w
  {
    KeyEnds(v);
    KeyEnds(w);
    var k, l := v.Key(), w.Key();
    var s := l + rest;
    assert s[|k| - 1] == '}' && s[|l| - 1] == '}';
    if |k| <= |l| {
      ClosesAtTheEnd(w, |k| - 1);
    } else {
      ClosesAtTheEnd(v, |l| - 1);
    }
    assert k == s[..|k|] == l;
    MapKeysApart(v, w, k[2..|k| - 1]);
  }

  /** Neither category nor name contains the colon between them. */
  lemma {:induction false} OneColon(v: Variable, i: nat)
    requires v.Valid() && i < |v.MapKey()| && v.MapKey()[i] == ':'
    ensures i == |v.category|
  {
    forall j | 0 <= j < |v.MapKey()| && j != |v.category| ensures v.MapKey()[j] != ':' {
      if j < |v.category| {
        assert v.MapKey()[j] == v.category[j] && v.category[j] in v.category;
      } else {
        assert v.MapKey()[j] == v.name[j - 1 - |v.category|] && v.MapKey()[j] in v.name;
      }
    }
  }

  lemma {:induction false} MapKeysApart(v: Variable, w: Variable, key: string)
    requires v.Valid() && w.Valid() && key == v.MapKey() == w.MapKey()
    ensures v == w
  {
    var a := |v.category|;
    assert key[a] == ':';
    OneColon(w, a);
    assert v.category == key[..a] == w.category && v.name == key[a + 1..] == w.name;
  }

  // ---------- the match of a key ----------

  lemma {:induction false} WordLengthIs(w: string, rest: string)
    requires IsWord(w) && (rest == "" || !IsWordChar(rest[0]))
    ensures WordLength(w + rest) == |w|
  {
    if w == "" {
      assert w + rest == rest;
    } else {
      assert (w + rest)[1..] == w[1..] + rest;
      assert w[0] in w;
      WordLengthIs(w[1..], rest);
    }
  }

  lemma KeyParts(v: Variable, rest: string)
    ensures var s, a, b := v.Key() + rest, |v.category|, |v.name|;
            && "${" <= s && |s| >= 4 + a + b && s[|v.Key()|..] == rest
            && s[2..] == v.category + (":" + (v.name + ("}" + rest)))
            && s[2 + a..] == ":" + (v.name + ("}" + rest))
            && s[2 + a..][1..] == v.name + ("}" + rest)
            && s[2 + a..][1 + b..] == "}" + rest
  {
  }

  lemma {:induction false} MatchOfKey(v: Variable, rest: string)
    requires v.Valid()
    ensures MatchHere(v.Key() + rest) == Some(v)
  {
    KeyParts(v, rest);
    WordLengthIs(v.category, ":" + (v.name + ("}" + rest)));
    WordLengthIs(v.name, "}" + rest);
    assert MatchHere(v.Key() + rest).Some?;
    KeysApart(MatchHere(v.Key() + rest).value, v, rest);
  }

  // ---------- one variable replaced everywhere ----------

  function AsPieces(s: string): seq<Piece> {
    if s == "" then [] else [Plain(s[0])] + AsPieces(s[1..])
  }

  /** A variable replaced in its own places. */
  function Replaced(ps: seq<Piece>, v: Variable, now: string): seq<Piece> {
    if ps == [] then []
    else (if ps[0] == Var(v) then AsPieces(now) else [ps[0]]) + Replaced(ps[1..], v, now)
  }

  lemma {:induction false} FlatConcat(a: seq<Piece>, b: seq<Piece>)
    ensures Flat(a + b) == Flat(a) + Flat(b)
  {
    if a == [] {
      assert a + b == b;
    } else {
      assert (a + b)[1..] == a[1..] + b;
      FlatConcat(a[1..], b);
    }
  }

  lemma FlatOne(p: Piece)
    ensures Flat([p]) == if p.Plain? then [p.c] else p.v.Key()
  {
  }

  lemma {:induction false} FlatAsPieces(s: string)
    ensures Flat(AsPieces(s)) == s && |AsPieces(s)| == |s|
    ensures forall p | p in AsPieces(s) :: p.Plain?
  {
    if s != "" {
      FlatAsPieces(s[1..]);
    }
  }

  lemma FlatFirst(ps: seq<Piece>)
    requires ps != []
    ensures Flat(ps) == Flat([ps[0]]) + Flat(ps[1..])
  {
    FlatConcat([ps[0]], ps[1..]);
    assert [ps[0]] + ps[1..] == ps;
  }

  /** No key of v begins at a character outside variables. */
  predicate NoStray(ps: seq<Piece>, v: Variable) {
    ps == [] || ((ps[0].Plain? ==> !(v.Key() <= Flat(ps))) && NoStray(ps[1..], v))
  }

  /** Within a piece begins no key of another variable, unless at a character. */
  lemma {:induction false} NotInFirst(p: Piece, rest: string, v: Variable)
    requires v.Valid() && p != Var(v) && (p.Var? ==> p.v.Valid())
    requires p.Plain? ==> !(v.Key() <= [p.c] + rest)
    ensures forall j | 0 <= j < |Flat([p])| :: !OccursAt(Flat([p]) + rest, v.Key(), j)
  {
    var first := Flat([p]);
    FlatOne(p);
    assert first == if p.Plain? then [p.c] else p.v.Key();
    KeyShape(v);
    forall j | 0 <= j < |first| ensures !OccursAt(first + rest, v.Key(), j) {
      if OccursAt(first + rest, v.Key(), j) {
        assert (first + rest)[j..j + |v.Key()|][0] == first[j];
        if p.Var? { KeyShape(p.v); }
        assert j == 0;
        assert v.Key() <= first + rest;
        if p.Var? { KeysApart(v, p.v, rest); }
      }
    }
  }

  /** If no key of the variable is astray, ReplaceAll replaces exactly the variable's own places. */
  lemma {:induction false} ReplaceAllIsReplaced(ps: seq<Piece>, v: Variable, now: string)
    requires VarsValid(ps) && v.Valid() && NoStray(ps, v)
    ensures ReplaceAll(Flat(ps), v.Key(), now) == Flat(Replaced(ps, v, now))
  {
    if ps == [] {
      KeyShape(v);
    } else {
      ReplaceAllIsReplaced(ps[1..], v, now);
      if ps[0] == Var(v) {
        ReplacedAtOwn(ps, v, now);
      } else {
        ReplacedPast(ps, v, now);
      }
    }
  }

  lemma {:induction false} ReplacedAtOwn(ps: seq<Piece>, v: Variable, now: string)
    requires ps != [] && ps[0] == Var(v)
    ensures ReplaceAll(Flat(ps), v.Key(), now) == now + ReplaceAll(Flat(ps[1..]), v.Key(), now)
    ensures Flat(Replaced(ps, v, now)) == now + Flat(Replaced(ps[1..], v, now))
  {
    ReplaceAtFront(v.Key(), Flat(ps[1..]), now);
    FlatAsPieces(now);
    FlatConcat(AsPieces(now), Replaced(ps[1..], v, now));
  }

  lemma NothingInFirst(ps: seq<Piece>, v: Variable)
    requires ps != [] && ps[0] != Var(v) && v.Valid() && (ps[0].Var? ==> ps[0].v.Valid())
    requires ps[0].Plain? ==> !(v.Key() <= Flat(ps))
    ensures v.Key() != "" && Flat(ps) == Flat([ps[0]]) + Flat(ps[1..])
    ensures forall j | 0 <= j < |Flat([ps[0]])| :: !OccursAt(Flat([ps[0]]) + Flat(ps[1..]), v.Key(), j)
  {
    FlatFirst(ps);
    FlatOne(ps[0]);
    KeyEnds(v);
    NotInFirst(ps[0], Flat(ps[1..]), v);
  }

  lemma {:induction false} ReplacedPast(ps: seq<Piece>, v: Variable, now: string)
    requires ps != [] && ps[0] != Var(v) && v.Valid() && (ps[0].Var? ==> ps[0].v.Valid())
    requires ps[0].Plain? ==> !(v.Key() <= Flat(ps))
    ensures ReplaceAll(Flat(ps), v.Key(), now) == Flat([ps[0]]) + ReplaceAll(Flat(ps[1..]), v.Key(), now)
    ensures Flat(Replaced(ps, v, now)) == Flat([ps[0]]) + Flat(Replaced(ps[1..], v, now))
  {
    NothingInFirst(ps, v);
    ReplaceInRest(Flat([ps[0]]), Flat(ps[1..]), v.Key(), now);
    FlatConcat([ps[0]], Replaced(ps[1..], v, now));
  }

  // ---------- a key astray ----------

  lemma FirstChar(p: Piece, rest: string)
    ensures Flat([p]) != "" && (Flat([p]) + rest)[0] == if p.Plain? then p.c else '$'
  {
    FlatOne(p);
    if p.Var? { KeyEnds(p.v); }
  }

  /** Text without a dollar sign at the front consists of characters, not of variables. */
  lemma {:induction false} FrontIsPlain(ps: seq<Piece>, k: string)
    requires '$' !in k && k <= Flat(ps)
    ensures |k| <= |ps| && ps[..|k|] == AsPieces(k)
  {
    if k != "" {
      assert ps != [] && k[0] in k;
      FlatFirst(ps);
      FlatOne(ps[0]);
      FirstChar(ps[0], Flat(ps[1..]));
      assert forall c | c in k[1..] :: c in k;
      FrontIsPlain(ps[1..], k[1..]);
      assert ps[..|k|] == [ps[0]] + ps[1..][..|k| - 1];
    }
  }

  /** So a key that begins at a character is made of characters throughout. */
  lemma {:induction false} StrayIsPlain(ps: seq<Piece>, v: Variable)
    requires v.Valid() && ps != [] && ps[0].Plain? && v.Key() <= Flat(ps)
    ensures |v.Key()| <= |ps| && ps == AsPieces(v.Key()) + ps[|v.Key()|..]
  {
    var key := v.Key();
    KeyShape(v);
    FlatFirst(ps);
    FlatOne(ps[0]);
    assert key == ['$'] + key[1..] && Flat(ps)[1..] == Flat(ps[1..]);
    assert forall j | 0 <= j < |key[1..]| :: key[1..][j] != '$';
    FrontIsPlain(ps[1..], key[1..]);
    assert ps[..|key|] == [ps[0]] + ps[1..][..|key| - 1];
    assert AsPieces(key) == [Plain(key[0])] + AsPieces(key[1..]);
  }

  lemma {:induction false} ReplacedConcat(a: seq<Piece>, b: seq<Piece>, v: Variable, now: string)
    ensures Replaced(a + b, v, now) == Replaced(a, v, now) + Replaced(b, v, now)
  {
    if a == [] {
      assert a + b == b;
    } else {
      assert (a + b)[1..] == a[1..] + b;
      ReplacedConcat(a[1..], b, v, now);
    }
  }

  lemma {:induction false} ReplacedPlain(s: string, v: Variable, now: string)
    ensures Replaced(AsPieces(s), v, now) == AsPieces(s)
  {
    if s != "" {
      ReplacedPlain(s[1..], v, now);
      assert AsPieces(s)[1..] == AsPieces(s[1..]);
    }
  }

  /** What happens where a stray key begins, and what should. */
  lemma {:induction false} ReplacedAtStray(ps: seq<Piece>, v: Variable, now: string)
    requires v.Valid() && ps != [] && ps[0].Plain? && v.Key() <= Flat(ps)
    ensures |v.Key()| <= |ps|
    ensures ReplaceAll(Flat(ps), v.Key(), now) == now + ReplaceAll(Flat(ps[|v.Key()|..]), v.Key(), now)
    ensures Flat(Replaced(ps, v, now)) == v.Key() + Flat(Replaced(ps[|v.Key()|..], v, now))
  {
    var key := v.Key();
    StrayIsPlain(ps, v);
    var rest := ps[|key|..];
    FlatConcat(AsPieces(key), rest);
    FlatAsPieces(key);
    ReplaceAtFront(key, Flat(rest), now);
    ReplacedConcat(AsPieces(key), rest, v, now);
    ReplacedPlain(key, v, now);
    FlatConcat(AsPieces(key), Replaced(rest, v, now));
  }

  /** ReplaceAll may hit more places than the own ones, never fewer. */
  lemma {:induction false} MoreIsReplaced(ps: seq<Piece>, v: Variable, now: string)
    requires VarsValid(ps) && v.Valid()
    ensures |now| >= |v.Key()| ==> |ReplaceAll(Flat(ps), v.Key(), now)| >= |Flat(Replaced(ps, v, now))|
    ensures |now| <= |v.Key()| ==> |ReplaceAll(Flat(ps), v.Key(), now)| <= |Flat(Replaced(ps, v, now))|
    decreases |ps|
  {
    if ps == [] {
      KeyShape(v);
    } else if ps[0] == Var(v) {
      ReplacedAtOwn(ps, v, now);
      MoreIsReplaced(ps[1..], v, now);
    } else if ps[0].Plain? && v.Key() <= Flat(ps) {
      KeyEnds(v);
      ReplacedAtStray(ps, v, now);
      MoreIsReplaced(ps[|v.Key()|..], v, now);
    } else {
      ReplacedPast(ps, v, now);
      MoreIsReplaced(ps[1..], v, now);
    }
  }

  /** A stray key shows in the text, unless it is replaced by itself. */
  lemma {:induction false} StrayShows(ps: seq<Piece>, v: Variable, now: string)
    requires VarsValid(ps) && v.Valid() && !NoStray(ps, v) && now != v.Key()
    ensures ReplaceAll(Flat(ps), v.Key(), now) != Flat(Replaced(ps, v, now))
  {
    if ps[0].Plain? && v.Key() <= Flat(ps) {
      KeyEnds(v);
      ReplacedAtStray(ps, v, now);
      MoreIsReplaced(ps[|v.Key()|..], v, now);
      DifferentFronts(now, v.Key(), ReplaceAll(Flat(ps[|v.Key()|..]), v.Key(), now),
                      Flat(Replaced(ps[|v.Key()|..], v, now)));
    } else {
      if ps[0] == Var(v) {
        ReplacedAtOwn(ps, v, now);
      } else {
        ReplacedPast(ps, v, now);
      }
      StrayShows(ps[1..], v, now);
      SameFront(if ps[0] == Var(v) then now else Flat([ps[0]]), ReplaceAll(Flat(ps[1..]), v.Key(), now),
                Flat(Replaced(ps[1..], v, now)));
    }
  }

  lemma DifferentFronts(a: string, b: string, c: string, d: string)
    requires a != b
    requires |a| >= |b| ==> |c| >= |d|
    requires |a| <= |b| ==> |c| <= |d|
    ensures a + c != b + d
  {
    if |a| == |b| {
      assert (a + c)[..|a|] == a && (b + d)[..|a|] == b;
    }
  }

  lemma SameFront<T>(a: seq<T>, c: seq<T>, d: seq<T>)
    ensures a + c == a + d <==> c == d
  {
    assert (a + c)[|a|..] == c && (a + d)[|a|..] == d;
  }

  /** One replacement gives the text with the variable's own places replaced exactly when no key of it is astray, or it
      is replaced by its own key. */
  lemma {:induction false} ReplacesOwnExactlyWhen(ps: seq<Piece>, v: Variable, now: string)
    requires VarsValid(ps) && v.Valid()
    ensures ReplaceAll(Flat(ps), v.Key(), now) == Flat(Replaced(ps, v, now)) <==> NoStray(ps, v) || now == v.Key()
  {
    if NoStray(ps, v) {
      ReplaceAllIsReplaced(ps, v, now);
    } else if now != v.Key() {
      StrayShows(ps, v, now);
    } else {
      KeyByItself(ps, v);
    }
  }

  lemma {:induction false} KeyByItself(ps: seq<Piece>, v: Variable)
    requires VarsValid(ps) && v.Valid()
    ensures ReplaceAll(Flat(ps), v.Key(), v.Key()) == Flat(ps) == Flat(Replaced(ps, v, v.Key()))
    decreases |ps|
  {
    var key := v.Key();
    if ps == [] {
      KeyShape(v);
    } else if ps[0] == Var(v) {
      ReplacedAtOwn(ps, v, key);
      KeyByItself(ps[1..], v);
    } else if ps[0].Plain? && key <= Flat(ps) {
      KeyEnds(v);
      StrayIsPlain(ps, v);
      FlatConcat(AsPieces(key), ps[|key|..]);
      FlatAsPieces(key);
      ReplacedAtStray(ps, v, key);
      KeyByItself(ps[|key|..], v);
    } else {
      FlatFirst(ps);
      ReplacedPast(ps, v, key);
      KeyByItself(ps[1..], v);
    }
  }

  /** The variable stands at position j of the text. */
  predicate StandsAt(ps: seq<Piece>, v: Variable, j: int) {
    ps != [] && if j < |Flat([ps[0]])| then j == 0 && ps[0] == Var(v) else StandsAt(ps[1..], v, j - |Flat([ps[0]])|)
  }

  /** The key occurs only where the variable stands. */
  ghost predicate OwnPlacesOnly(ps: seq<Piece>, v: Variable) {
    forall j | OccursAt(Flat(ps), v.Key(), j) :: StandsAt(ps, v, j)
  }

  /** So it does as far as occurrences that begin within the first piece go. */
  ghost predicate OwnFrontOnly(ps: seq<Piece>, v: Variable)
    requires ps != []
  {
    forall j | 0 <= j < |Flat([ps[0]])| && OccursAt(Flat(ps), v.Key(), j) :: j == 0 && ps[0] == Var(v)
  }

  /** No key is astray, in terms of places. */
  lemma {:induction false} NoStrayExactlyWhen(ps: seq<Piece>, v: Variable)
    requires VarsValid(ps) && v.Valid()
    ensures NoStray(ps, v) <==> OwnPlacesOnly(ps, v)
  {
    if ps == [] {
      KeyShape(v);
    } else {
      NoStrayExactlyWhen(ps[1..], v);
      FrontExactlyWhen(ps, v);
      if OwnPlacesOnly(ps, v) {
        OnlyInParts(ps, v);
      } else if OwnFrontOnly(ps, v) {
        OnlyInWhole(ps, v);
      }
    }
  }

  lemma {:induction false} FrontExactlyWhen(ps: seq<Piece>, v: Variable)
    requires ps != [] && v.Valid() && (ps[0].Var? ==> ps[0].v.Valid())
    ensures (ps[0].Plain? ==> !(v.Key() <= Flat(ps))) <==> OwnFrontOnly(ps, v)
  {
    FlatFirst(ps);
    FlatOne(ps[0]);
    if ps[0] == Var(v) {
      KeyShape(v);
      forall j | 0 <= j < |v.Key()| && OccursAt(Flat(ps), v.Key(), j) ensures j == 0 {
        assert Flat(ps)[j] == Flat(ps)[j..j + |v.Key()|][0];
        assert Flat(ps)[j] == v.Key()[j];
      }
    } else if ps[0].Var? || !(v.Key() <= Flat(ps)) {
      NothingInFirst(ps, v);
    } else {
      assert OccursAt(Flat(ps), v.Key(), 0);
    }
  }

  lemma {:induction false} OnlyInParts(ps: seq<Piece>, v: Variable)
    requires ps != [] && OwnPlacesOnly(ps, v)
    ensures OwnFrontOnly(ps, v) && OwnPlacesOnly(ps[1..], v)
  {
    var first := Flat([ps[0]]);
    FlatFirst(ps);
    forall j | 0 <= j < |first| && OccursAt(Flat(ps), v.Key(), j) ensures j == 0 && ps[0] == Var(v) {
      assert StandsAt(ps, v, j);
    }
    forall j | OccursAt(Flat(ps[1..]), v.Key(), j) ensures StandsAt(ps[1..], v, j) {
      OccursShift(first, Flat(ps[1..]), v.Key(), j);
      assert StandsAt(ps, v, |first| + j);
    }
  }

  lemma {:induction false} OnlyInWhole(ps: seq<Piece>, v: Variable)
    requires ps != [] && OwnFrontOnly(ps, v) && !OwnPlacesOnly(ps, v)
    ensures !OwnPlacesOnly(ps[1..], v)
  {
    var first := Flat([ps[0]]);
    FlatFirst(ps);
    var j :| OccursAt(Flat(ps), v.Key(), j) && !StandsAt(ps, v, j);
    OccursShift(first, Flat(ps[1..]), v.Key(), j - |first|);
    assert OccursAt(Flat(ps[1..]), v.Key(), j - |first|) && !StandsAt(ps[1..], v, j - |first|);
  }

  lemma {:induction false} ReplacedVariables(ps: seq<Piece>, v: Variable, now: string)
    ensures VariablesOf(Replaced(ps, v, now)) == VariablesOf(ps) - {v}
    ensures VarsValid(ps) ==> VarsValid(Replaced(ps, v, now))
  {
    if ps != [] {
      ReplacedVariables(ps[1..], v, now);
      FlatAsPieces(now);
      assert ps == [ps[0]] + ps[1..];
      VariablesOfBoth([ps[0]], ps[1..]);
      VariablesOfBoth(if ps[0] == Var(v) then AsPieces(now) else [ps[0]], Replaced(ps[1..], v, now));
    }
  }

  lemma VariablesOfBoth(a: seq<Piece>, b: seq<Piece>)
    ensures VariablesOf(a + b) == VariablesOf(a) + VariablesOf(b)
    ensures VarsValid(a + b) <==> VarsValid(a) && VarsValid(b)
  {
    forall p ensures p in a + b <==> p in a || p in b {
    }
  }

  // ---------- all of them ----------

  lemma {:induction false} SimultaneousConcat(a: seq<Piece>, b: seq<Piece>, value: Variable -> Option<string>)
    ensures Simultaneous(a + b, value) == Simultaneous(a, value) + Simultaneous(b, value)
  {
    if a == [] {
      assert a + b == b;
    } else {
      assert (a + b)[1..] == a[1..] + b;
      SimultaneousConcat(a[1..], b, value);
    }
  }

  lemma {:induction false} SimultaneousPlain(s: string, value: Variable -> Option<string>)
    ensures Simultaneous(AsPieces(s), value) == s
  {
    if s != "" {
      SimultaneousPlain(s[1..], value);
    }
  }

  /** Replacing one variable first changes nothing about the whole. */
  lemma {:induction false} SimultaneousReplaced(ps: seq<Piece>, v: Variable, value: Variable -> Option<string>)
    requires value(v).Some?
    ensures Simultaneous(Replaced(ps, v, value(v).value), value) == Simultaneous(ps, value)
  {
    if ps != [] {
      var now := value(v).value;
      SimultaneousReplaced(ps[1..], v, value);
      SimultaneousPlain(now, value);
      SimultaneousConcat(if ps[0] == Var(v) then AsPieces(now) else [ps[0]], Replaced(ps[1..], v, now), value);
    }
  }

  lemma {:induction false} NothingLeft(ps: seq<Piece>, value: Variable -> Option<string>)
    requires forall p | p in ps && p.Var? :: value(p.v).None?
    ensures Simultaneous(ps, value) == Flat(ps)
  {
    if ps != [] {
      NothingLeft(ps[1..], value);
    }
  }

  /** A replacement that changes the variable's own places only. */
  predicate LandsOnOwn(ps: seq<Piece>, v: Variable, value: Variable -> Option<string>) {
    value(v).Some? ==> NoStray(ps, v) || value(v).value == v.Key()
  }

  /** The pieces after a variable has had its turn. */
  function Next(ps: seq<Piece>, v: Variable, value: Variable -> Option<string>): seq<Piece> {
    if value(v).Some? then Replaced(ps, v, value(v).value) else ps
  }

  predicate Lands(ps: seq<Piece>, order: seq<Variable>, value: Variable -> Option<string>)
    decreases |order|
  {
    order == [] || (LandsOnOwn(ps, order[0], value) && Lands(Next(ps, order[0], value), order[1..], value))
  }

  /** The text after each step of the chain. */
  function Texts(content: string, order: seq<Variable>, value: Variable -> Option<string>): seq<string>
    decreases |order|
  {
    if order == [] then []
    else
      var v := order[0];
      var next := if value(v).Some? then ReplaceAll(content, v.Key(), value(v).value) else content;
      [next] + Texts(next, order[1..], value)
  }

  /** The same with the variables replaced in their own places. */
  function OwnTexts(ps: seq<Piece>, order: seq<Variable>, value: Variable -> Option<string>): seq<string>
    decreases |order|
  {
    if order == [] then []
    else [Flat(Next(ps, order[0], value))] + OwnTexts(Next(ps, order[0], value), order[1..], value)
  }

  lemma {:induction false} NextExactlyWhen(ps: seq<Piece>, v: Variable, value: Variable -> Option<string>)
    requires VarsValid(ps) && v.Valid()
    ensures var next := if value(v).Some? then ReplaceAll(Flat(ps), v.Key(), value(v).value) else Flat(ps);
            next == Flat(Next(ps, v, value)) <==> LandsOnOwn(ps, v, value)
    ensures VarsValid(Next(ps, v, value))
    ensures VariablesOf(Next(ps, v, value)) == if value(v).Some? then VariablesOf(ps) - {v} else VariablesOf(ps)
  {
    if value(v).Some? {
      ReplacesOwnExactlyWhen(ps, v, value(v).value);
      ReplacedVariables(ps, v, value(v).value);
    }
  }

  /** Every step of the chain replaces the variable's own places and no other exactly when none finds a key astray. */
  lemma {:induction false} LandOnOwnExactlyWhen(ps: seq<Piece>, order: seq<Variable>, value: Variable -> Option<string>)
    requires VarsValid(ps) && forall v | v in order :: v.Valid()
    ensures Texts(Flat(ps), order, value) == OwnTexts(ps, order, value) <==> Lands(ps, order, value)
    decreases |order|
  {
    if order != [] {
      var v, own := order[0], Next(ps, order[0], value);
      var next := if value(v).Some? then ReplaceAll(Flat(ps), v.Key(), value(v).value) else Flat(ps);
      NextExactlyWhen(ps, v, value);
      SameHeads(next, Texts(next, order[1..], value), Flat(own), OwnTexts(own, order[1..], value));
      if next == Flat(own) {
        LandOnOwnExactlyWhen(own, order[1..], value);
      }
    }
  }

  lemma SameHeads<T>(a: T, b: seq<T>, c: T, d: seq<T>)
    ensures [a] + b == [c] + d <==> a == c && b == d
  {
    assert ([a] + b)[0] == a && ([a] + b)[1..] == b && ([c] + d)[0] == c && ([c] + d)[1..] == d;
  }

  /** Then the chain over an order that covers the variables with a value is the simultaneous substitution. */
  lemma {:induction false} ChainIsSimultaneous(ps: seq<Piece>, order: seq<Variable>, value: Variable -> Option<string>)
    requires VarsValid(ps) && (forall v | v in order :: v.Valid()) && Lands(ps, order, value)
    requires forall v | v in VariablesOf(ps) && value(v).Some? :: v in order
    ensures ReplaceChain(Flat(ps), order, value) == Simultaneous(ps, value)
    decreases |order|
  {
    if order == [] {
      forall p | p in ps && p.Var? ensures value(p.v).None? {
        assert p.v in VariablesOf(ps);
      }
      NothingLeft(ps, value);
    } else {
      var v := order[0];
      NextExactlyWhen(ps, v, value);
      if value(v).Some? { SimultaneousReplaced(ps, v, value); }
      ChainIsSimultaneous(Next(ps, v, value), order[1..], value);
    }
  }

  // ---------- every order ----------

  /** The variables, each once. */
  ghost predicate IsOrder(order: seq<Variable>, variables: set<Variable>) {
    (forall v :: v in order <==> v in variables) && Distinct(order)
  }

  ghost predicate Distinct(order: seq<Variable>) {
    forall i, j | 0 <= i < j < |order| :: order[i] != order[j]
  }

  /** All variables but one replaced by their values. */
  function AllBut(ps: seq<Piece>, v: Variable, value: Variable -> Option<string>): seq<Piece> {
    if ps == [] then []
    else (if ps[0].Var? && ps[0].v != v && value(ps[0].v).Some? then AsPieces(value(ps[0].v).value) else [ps[0]])
         + AllBut(ps[1..], v, value)
  }

  /** With all other variables filled in, the key of a variable with a value occurs only where the variable stands (or
      is its value). */
  ghost predicate OwnKeysOnly(ps: seq<Piece>, value: Variable -> Option<string>) {
    forall v | v in VariablesOf(ps) :: LandsOnOwn(AllBut(ps, v, value), v, value)
  }

  lemma {:induction false} AllButConcat(a: seq<Piece>, b: seq<Piece>, v: Variable, value: Variable -> Option<string>)
    ensures AllBut(a + b, v, value) == AllBut(a, v, value) + AllBut(b, v, value)
  {
    if a == [] {
      assert a + b == b;
    } else {
      assert (a + b)[1..] == a[1..] + b;
      AllButConcat(a[1..], b, v, value);
    }
  }

  lemma {:induction false} AllButPlain(s: string, v: Variable, value: Variable -> Option<string>)
    ensures AllBut(AsPieces(s), v, value) == AsPieces(s)
  {
    if s != "" {
      AllButPlain(s[1..], v, value);
      assert AsPieces(s)[1..] == AsPieces(s[1..]);
    }
  }

  /** Replacing another variable first makes no difference to that. */
  lemma {:induction false} AllButReplaced(ps: seq<Piece>, w: Variable, v: Variable, value: Variable -> Option<string>)
    requires v != w && value(w).Some?
    ensures AllBut(Replaced(ps, w, value(w).value), v, value) == AllBut(ps, v, value)
  {
    if ps != [] {
      var now := value(w).value;
      var first := if ps[0] == Var(w) then AsPieces(now) else [ps[0]];
      AllButReplaced(ps[1..], w, v, value);
      AllButConcat(first, Replaced(ps[1..], w, now), v, value);
      AllButPlain(now, v, value);
      AllButOne(ps[0], v, value);
    }
  }

  lemma AllButOne(p: Piece, v: Variable, value: Variable -> Option<string>)
    ensures AllBut([p], v, value)
            == if p.Var? && p.v != v && value(p.v).Some? then AsPieces(value(p.v).value) else [p]
  {
    assert [p][1..] == [];
  }

  lemma {:induction false} NoStraySuffix(a: seq<Piece>, b: seq<Piece>, v: Variable)
    requires NoStray(a + b, v)
    ensures NoStray(b, v)
  {
    if a == [] {
      assert a + b == b;
    } else {
      assert (a + b)[1..] == a[1..] + b;
      NoStraySuffix(a[1..], b, v);
    }
  }

  /** A key that is astray stays so, whatever other variables are filled in: it touches none of them. */
  lemma {:induction false} StrayStays(ps: seq<Piece>, v: Variable, value: Variable -> Option<string>)
    requires VarsValid(ps) && v.Valid() && NoStray(AllBut(ps, v, value), v)
    ensures NoStray(ps, v)
  {
    if ps != [] {
      var first := AllBut([ps[0]], v, value);
      AllButOne(ps[0], v, value);
      NoStraySuffix(first, AllBut(ps[1..], v, value), v);
      StrayStays(ps[1..], v, value);
      if ps[0].Plain? && v.Key() <= Flat(ps) {
        StrayFilled(ps, v, value);
      }
    }
  }

  lemma {:induction false} StrayFilled(ps: seq<Piece>, v: Variable, value: Variable -> Option<string>)
    requires v.Valid() && ps != [] && ps[0].Plain? && v.Key() <= Flat(ps)
    ensures !NoStray(AllBut(ps, v, value), v)
  {
    var key := v.Key();
    KeyEnds(v);
    StrayIsPlain(ps, v);
    var rest := ps[|key|..];
    AllButConcat(AsPieces(key), rest, v, value);
    AllButPlain(key, v, value);
    FlatConcat(AsPieces(key), AllBut(rest, v, value));
    FlatAsPieces(key);
    assert (AsPieces(key) + AllBut(rest, v, value))[0] == Plain(key[0]);
  }

  /** It is enough for any order, or part of one. */
  lemma {:induction false} OwnKeysLand(ps: seq<Piece>, order: seq<Variable>, value: Variable -> Option<string>)
    requires VarsValid(ps) && OwnKeysOnly(ps, value)
    requires Distinct(order) && forall v | v in order :: v in VariablesOf(ps)
    ensures Lands(ps, order, value)
    decreases |order|
  {
    if order != [] {
      var v := order[0];
      assert v in order && Var(v) in ps;
      if NoStray(AllBut(ps, v, value), v) { StrayStays(ps, v, value); }
      NextExactlyWhen(ps, v, value);
      var next := Next(ps, v, value);
      forall w | w in VariablesOf(next) ensures LandsOnOwn(AllBut(next, w, value), w, value) {
        if value(v).Some? { AllButReplaced(ps, v, w, value); }
      }
      forall w | w in order[1..] ensures w in VariablesOf(next) {
        assert w in order && w != v;
      }
      OwnKeysLand(next, order[1..], value);
    }
  }

  /** The last variable of an order meets the text with all others filled in. */
  lemma {:induction false} LastLands(ps: seq<Piece>, others: seq<Variable>, v: Variable,
                                     value: Variable -> Option<string>)
    requires VarsValid(ps) && v.Valid() && forall w | w in others :: w.Valid()
    requires Lands(ps, others + [v], value) && v !in others
    requires forall w | w in VariablesOf(ps) && w != v && value(w).Some? :: w in others
    ensures LandsOnOwn(AllBut(ps, v, value), v, value)
    decreases |others|
  {
    if others == [] {
      assert others + [v] == [v];
      NothingFilled(ps, v, value);
    } else {
      var w := others[0];
      assert (others + [v])[0] == w && (others + [v])[1..] == others[1..] + [v];
      NextExactlyWhen(ps, w, value);
      LastLands(Next(ps, w, value), others[1..], v, value);
      if value(w).Some? { AllButReplaced(ps, w, v, value); }
    }
  }

  lemma {:induction false} NothingFilled(ps: seq<Piece>, v: Variable, value: Variable -> Option<string>)
    requires forall w | w in VariablesOf(ps) && w != v :: value(w).None?
    ensures AllBut(ps, v, value) == ps
  {
    if ps != [] {
      assert ps == [ps[0]] + ps[1..];
      VariablesOfBoth([ps[0]], ps[1..]);
      assert ps[0].Var? ==> ps[0].v in VariablesOf(ps);
      NothingFilled(ps[1..], v, value);
    }
  }

  lemma SomeOrder(variables: set<Variable>) returns (order: seq<Variable>)
    ensures IsOrder(order, variables)
    decreases |variables|
  {
    if variables == {} {
      order := [];
    } else {
      var v :| v in variables;
      order := SomeOrder(variables - {v});
      order := order + [v];
    }
  }

  /** In every order all replacements change their variable's own places only, exactly when, with all other variables
      filled in, the key of each one occurs only where it stands. */
  lemma {:induction false} EveryOrderLandsExactlyWhen(ps: seq<Piece>, value: Variable -> Option<string>)
    requires VarsValid(ps)
    ensures (forall order | IsOrder(order, VariablesOf(ps)) :: Lands(ps, order, value)) <==> OwnKeysOnly(ps, value)
  {
    if OwnKeysOnly(ps, value) {
      forall order | IsOrder(order, VariablesOf(ps)) ensures Lands(ps, order, value) {
        OwnKeysLand(ps, order, value);
      }
    }
    if forall order | IsOrder(order, VariablesOf(ps)) :: Lands(ps, order, value) {
      forall v | v in VariablesOf(ps) ensures LandsOnOwn(AllBut(ps, v, value), v, value) {
        var others := SomeOrder(VariablesOf(ps) - {v});
        LastInOrder(others, v, VariablesOf(ps));
        LastLands(ps, others, v, value);
      }
    }
  }

  lemma LastInOrder(others: seq<Variable>, v: Variable, variables: set<Variable>)
    requires v in variables && IsOrder(others, variables - {v})
    ensures IsOrder(others + [v], variables)
  {
  }

  /** Then the text is the same for all orders. */
  lemma {:induction false} EveryOrderIsSimultaneous(ps: seq<Piece>, order: seq<Variable>,
                                                    value: Variable -> Option<string>)
    requires VarsValid(ps) && OwnKeysOnly(ps, value) && IsOrder(order, VariablesOf(ps))
    ensures ReplaceChain(Flat(ps), order, value) == Simultaneous(ps, value)
  {
    OwnKeysLand(ps, order, value);
    forall v | v in order ensures v.Valid() {
      assert v in VariablesOf(ps);
    }
    ChainIsSimultaneous(ps, order, value);
  }

  // ---------- when no key can come to stand elsewhere ----------

  /** No dollar sign is followed by an opening brace in t; open says that one stands right in front of t. */
  predicate TextOk(t: string, open: bool) {
    t == "" || (!(open && t[0] == '{') && TextOk(t[1..], t[0] == '$'))
  }

  /** A dollar sign stands right in front of what follows t. */
  predicate OpenAfter(t: string, open: bool) {
    if t == "" then open else OpenAfter(t[1..], t[0] == '$')
  }

  /** A template that, with every variable replaced by its value, has an opening ${ only where a variable without a
      value is left. */
  predicate Safe(ps: seq<Piece>, value: Variable -> Option<string>, open: bool) {
    ps == [] ||
    match ps[0]
    case Plain(c) => !(open && c == '{') && Safe(ps[1..], value, c == '$')
    case Var(v) =>
      && v.Valid()
      && if value(v).None? then Safe(ps[1..], value, false)
         else TextOk(value(v).value, open) && Safe(ps[1..], value, OpenAfter(value(v).value, open))
  }

  lemma {:induction false} TextOkExactlyWhen(t: string, open: bool)
    ensures TextOk(t, open) <==> !Occurs(t, "${") && !(open && "{" <= t)
  {
    if t != "" {
      TextOkExactlyWhen(t[1..], t[0] == '$');
      OpeningFirst(t);
    }
  }

  lemma {:induction false} OpeningFirst(t: string)
    requires t != ""
    ensures Occurs(t, "${") <==> Occurs(t[1..], "${") || (t[0] == '$' && "{" <= t[1..])
  {
    assert t == [t[0]] + t[1..];
    if Occurs(t, "${") {
      var i :| 0 <= i <= |t| && OccursAt(t, "${", i);
      if i > 0 {
        OccursShift([t[0]], t[1..], "${", i - 1);
        assert OccursAt(t[1..], "${", i - 1);
      } else {
        assert t[0] == t[0..2][0] && t[1] == t[0..2][1];
      }
    }
    if Occurs(t[1..], "${") {
      var i :| 0 <= i <= |t[1..]| && OccursAt(t[1..], "${", i);
      OccursShift([t[0]], t[1..], "${", i);
      assert OccursAt(t, "${", i + 1);
    }
    if t[0] == '$' && "{" <= t[1..] {
      assert t[0..2] == "${";
      assert OccursAt(t, "${", 0);
    }
  }

  lemma {:induction false} TextOkConcat(a: string, b: string, open: bool)
    ensures TextOk(a + b, open) <==> TextOk(a, open) && TextOk(b, OpenAfter(a, open))
    ensures OpenAfter(a + b, open) == OpenAfter(b, OpenAfter(a, open))
  {
    if a == "" {
      assert a + b == b;
    } else {
      assert (a + b)[1..] == a[1..] + b;
      TextOkConcat(a[1..], b, a[0] == '$');
    }
  }

  /** If all variables are valid and have values, it is a matter of the final text: no ${ must occur in it. */
  lemma {:induction false} SafeExactlyWhen(ps: seq<Piece>, value: Variable -> Option<string>, open: bool)
    requires forall p | p in ps && p.Var? :: p.v.Valid() && value(p.v).Some?
    ensures Safe(ps, value, open) <==> TextOk(Simultaneous(ps, value), open)
    ensures Safe(ps, value, false) <==> !Occurs(Simultaneous(ps, value), "${")
  {
    ScanIsSafe(ps, value, open);
    ScanIsSafe(ps, value, false);
    TextOkExactlyWhen(Simultaneous(ps, value), false);
  }

  lemma {:induction false} ScanIsSafe(ps: seq<Piece>, value: Variable -> Option<string>, open: bool)
    requires forall p | p in ps && p.Var? :: p.v.Valid() && value(p.v).Some?
    ensures Safe(ps, value, open) <==> TextOk(Simultaneous(ps, value), open)
  {
    if ps != [] {
      var here := if ps[0].Plain? then [ps[0].c] else value(ps[0].v).value;
      ScanIsSafe(ps[1..], value, OpenAfter(here, open));
      TextOkConcat(here, Simultaneous(ps[1..], value), open);
      if ps[0].Plain? { OneChar(ps[0].c, open); }
    }
  }

  lemma OneChar(c: char, open: bool)
    ensures TextOk([c], open) <==> !(open && c == '{')
    ensures OpenAfter([c], open) <==> c == '$'
  {
    assert [c][1..] == "";
  }

  /** It is enough that the dollar sign opens variables only, and no value contains one. */
  lemma {:induction false} NoDollarIsSafe(ps: seq<Piece>, value: Variable -> Option<string>)
    requires forall p | p in ps && p.Plain? :: p.c != '$'
    requires forall p | p in ps && p.Var? :: p.v.Valid() && (value(p.v).Some? ==> '$' !in value(p.v).value)
    ensures Safe(ps, value, false)
  {
    if ps != [] {
      NoDollarIsSafe(ps[1..], value);
      if ps[0].Var? && value(ps[0].v).Some? {
        NoDollarInText(value(ps[0].v).value);
      }
    }
  }

  lemma {:induction false} NoDollarInText(t: string)
    requires '$' !in t
    ensures TextOk(t, false) && !OpenAfter(t, false)
  {
    if t != "" {
      NoDollarInText(t[1..]);
    }
  }

  lemma {:induction false} SafeText(t: string, ps: seq<Piece>, value: Variable -> Option<string>, open: bool)
    requires TextOk(t, open) && Safe(ps, value, OpenAfter(t, open))
    ensures Safe(AsPieces(t) + ps, value, open)
  {
    if t == "" {
      assert AsPieces(t) + ps == ps;
    } else {
      assert (AsPieces(t) + ps)[1..] == AsPieces(t[1..]) + ps;
      SafeText(t[1..], ps, value, t[0] == '$');
    }
  }

  /** Filling in variables leaves a safe template safe. */
  lemma {:induction false} SafeFilled(ps: seq<Piece>, v: Variable, value: Variable -> Option<string>, open: bool)
    requires Safe(ps, value, open)
    ensures Safe(AllBut(ps, v, value), value, open)
  {
    if ps != [] {
      var next := match ps[0]
        case Plain(c) => c == '$'
        case Var(w) => if value(w).None? then false else OpenAfter(value(w).value, open);
      SafeFilled(ps[1..], v, value, next);
      if ps[0].Var? && ps[0].v != v && value(ps[0].v).Some? {
        SafeText(value(ps[0].v).value, AllBut(ps[1..], v, value), value, open);
      } else {
        assert ([ps[0]] + AllBut(ps[1..], v, value))[1..] == AllBut(ps[1..], v, value);
      }
    }
  }

  /** Pieces in which no dollar sign is followed by an opening brace, except in variables. */
  predicate Neat(ps: seq<Piece>) {
    ps == [] || ((ps[0] == Plain('$') && |ps| > 1 ==> ps[1] != Plain('{')) && Neat(ps[1..]))
  }

  lemma {:induction false} SafeIsNeat(ps: seq<Piece>, value: Variable -> Option<string>, open: bool)
    requires Safe(ps, value, open)
    ensures Neat(ps) && VarsValid(ps) && (open && ps != [] ==> ps[0] != Plain('{'))
  {
    if ps != [] {
      match ps[0]
      case Plain(c) => SafeIsNeat(ps[1..], value, c == '$');
      case Var(v) => SafeIsNeat(ps[1..], value, if value(v).None? then false else OpenAfter(value(v).value, open));
    }
  }

  lemma {:induction false} NeatHasNoStray(ps: seq<Piece>, v: Variable)
    requires Neat(ps) && v.Valid()
    ensures NoStray(ps, v)
  {
    if ps != [] {
      NeatHasNoStray(ps[1..], v);
      if ps[0].Plain? && v.Key() <= Flat(ps) {
        StrayIsPlain(ps, v);
        KeyEnds(v);
        assert v.Key()[0] == '$' && v.Key()[1] == '{';
        PlainAt(v.Key(), ps[|v.Key()|..]);
      }
    }
  }

  lemma PlainAt(s: string, ps: seq<Piece>)
    requires |s| > 1
    ensures var all := AsPieces(s) + ps; |all| > 1 && all[0] == Plain(s[0]) && all[1] == Plain(s[1])
  {
    assert AsPieces(s) == [Plain(s[0])] + ([Plain(s[1])] + AsPieces(s[1..][1..]));
    assert AsPieces(s) + ps == [Plain(s[0])] + ([Plain(s[1])] + (AsPieces(s[1..][1..]) + ps));
  }

  /** In a safe template each key occurs only where its variable stands. */
  lemma {:induction false} SafeHasOwnKeysOnly(ps: seq<Piece>, value: Variable -> Option<string>)
    requires Safe(ps, value, false)
    ensures OwnKeysOnly(ps, value)
  {
    SafeIsNeat(ps, value, false);
    forall v | v in VariablesOf(ps) && value(v).Some? ensures NoStray(AllBut(ps, v, value), v) {
      SafeFilled(ps, v, value, false);
      SafeIsNeat(AllBut(ps, v, value), value, false);
      NeatHasNoStray(AllBut(ps, v, value), v);
    }
  }

  // ---------- when values do not matter ----------

  /** The regular expression finds every key, so none is astray in the template itself. */
  lemma {:induction false} TemplateHasNoStray(s: string, v: Variable)
    requires v.Valid()
    ensures NoStray(Pieces(s), v)
    decreases |s|
  {
    if s != "" {
      match MatchHere(s)
      case Some(w) =>
        TemplateHasNoStray(s[|w.Key()|..], v);
        assert ([Var(w)] + Pieces(s[|w.Key()|..]))[1..] == Pieces(s[|w.Key()|..]);
      case None =>
        TemplateHasNoStray(s[1..], v);
        FlatPieces(s);
        if v.Key() <= s {
          assert s == v.Key() + s[|v.Key()|..];
          MatchOfKey(v, s[|v.Key()|..]);
        }
        assert ([Plain(s[0])] + Pieces(s[1..]))[1..] == Pieces(s[1..]);
    }
  }

  /** A template with a single variable that has a value is rendered as it stands, whatever the value. */
  lemma {:induction false} OneVariableHasOwnKeysOnly(s: string, v: Variable, value: Variable -> Option<string>)
    requires v in VariablesOf(Pieces(s))
    requires forall w | w in VariablesOf(Pieces(s)) && w != v :: value(w).None?
    ensures OwnKeysOnly(Pieces(s), value)
  {
    PiecesAreValid(s);
    NothingFilled(Pieces(s), v, value);
    TemplateHasNoStray(s, v);
  }

  /** So a template that is one key takes any value, one that is not safe as well: ${task:cmd} takes echo ${HOME}. */
  lemma {:induction false} OneKeyTakesAnyValue(v: Variable, value: Variable -> Option<string>)
    requires v.Valid() && value(v).Some?
    ensures Pieces(v.Key()) == [Var(v)] && OwnKeysOnly([Var(v)], value)
    ensures Safe([Var(v)], value, false) <==> !Occurs(value(v).value, "${")
  {
    PiecesOfKey(v, "");
    assert v.Key() + "" == v.Key() && [Var(v)] + [] == [Var(v)] && [Var(v)][1..] == [];
    OneVariableHasOwnKeysOnly(v.Key(), v, value);
    TextOkExactlyWhen(value(v).value, false);
  }

  // ---------- the service ----------

  /** The entity of each category that the caller passed, as the text of its fields; alert and metric among them. */
  type VariableData = map<string, string -> string>

  /** The names the switch of geContentWithVariables knows, by category. */
  function KnownNames(category: string): set<string> {
    if category == "task" then
      {"id", "status", "cmd", "param", "error", "pid", "type", "mode", "priority", "created_ts", "created_by",
       "updated_ts", "updated_by"}
    else if category == "task_stat" then
      {"start_ts", "end_ts", "wait_duration", "runtime_duration", "total_duration", "result_count"}
    else if category == "spider" then
      {"id", "name", "description", "mode", "cmd", "param", "priority", "created_ts", "created_by", "updated_ts",
       "updated_by"}
    else if category == "node" then
      {"id", "key", "name", "is_master", "ip", "mac", "hostname", "description", "status", "enabled", "active",
       "active_at", "available_runners", "max_runners", "created_ts", "created_by", "updated_ts", "updated_by"}
    else if category == "schedule" then
      {"id", "name", "description", "cron", "cmd", "param", "mode", "priority", "enabled", "created_ts", "created_by",
       "updated_ts", "updated_by"}
    else if category == "alert" then
      {"id", "name", "description", "enabled", "metric_name", "operator", "lasting_seconds", "target_value", "level"}
    else {}
  }

  const CATEGORIES := {"task", "task_stat", "spider", "node", "schedule", "alert", "metric"}

  /** The text that replaces a variable, if it is replaced: N/A, whatever the name, when the entity is missing;
      nothing for an unknown category, or an unknown name of any but the metric category. */
  function ValueOf(v: Variable, vd: VariableData): Option<string> {
    if v.category !in CATEGORIES then None
    else if v.category == "metric" then Some(if "metric" in vd then vd["metric"](v.name) else "N/A")
    else if v.category !in vd then (if v.category == "alert" then None else Some("N/A"))
    else if v.name in KnownNames(v.category) then Some(vd[v.category](v.name))
    else None
  }

  /** The one case without a nil check: a known field of a missing alert. */
  predicate Panics(v: Variable, vd: VariableData) {
    v.category == "alert" && "alert" !in vd && v.name in KnownNames("alert")
  }

  /** The body of the loop in geContentWithVariables; None when a missing alert is dereferenced. */
  method ReplaceVariable(content: string, v: Variable, vd: VariableData) returns (r: Option<string>)
    requires v.Valid()
    ensures r == if Panics(v, vd) then None
                 else if ValueOf(v, vd).Some? then Some(ReplaceAll(content, v.Key(), ValueOf(v, vd).value))
                 else Some(content)
  {
    KeyEnds(v);
    r := Some(content);
    if v.category == "alert" {
      if v.name in KnownNames("alert") {
        if "alert" !in vd { return None; }
        r := Some(ReplaceAll(content, v.Key(), vd["alert"](v.name)));
      }
    } else if v.category == "metric" {
      r := Some(ReplaceAll(content, v.Key(), if "metric" in vd then vd["metric"](v.name) else "N/A"));
    } else if v.category in CATEGORIES {
      if v.category !in vd {
        r := Some(ReplaceAll(content, v.Key(), "N/A"));
      } else if v.name in KnownNames(v.category) {
        r := Some(ReplaceAll(content, v.Key(), vd[v.category](v.name)));
      }
    }
  }

  /** geContentWithVariables */
  method GeContentWithVariables(template: string, variables: seq<Variable>, vd: VariableData)
      returns (content: Option<string>)
    requires forall v | v in variables :: v.Valid()
    ensures content.None? <==> exists v | v in variables :: Panics(v, vd)
    ensures content.Some? ==> content.value == ReplaceChain(template, variables, v => ValueOf(v, vd))
  {
    var text := template;
    for i := 0 to |variables|
      invariant forall j | 0 <= j < i :: !Panics(variables[j], vd)
      invariant ReplaceChain(text, variables[i..], v => ValueOf(v, vd))
                == ReplaceChain(template, variables, v => ValueOf(v, vd))
    {
      assert variables[i..][0] == variables[i] && variables[i..][1..] == variables[i + 1..];
      var next := ReplaceVariable(text, variables[i], vd);
      if next.None? { return None; }
      text := next.value;
    }
    content := Some(text);
  }

  /** The map of parseTemplateVariables: the variables of the template, each under its key. */
  method CollectVariables(template: string) returns (variablesMap: map<string, Variable>)
    ensures forall k | k in variablesMap ::
              variablesMap[k].MapKey() == k && variablesMap[k] in VariablesOf(Pieces(template))
    ensures forall v | v in VariablesOf(Pieces(template)) ::
              v.Valid() && v.MapKey() in variablesMap && variablesMap[v.MapKey()] == v
  {
    var matches := Pieces(template);
    PiecesAreValid(template);
    variablesMap := map[];
    for i := 0 to |matches|
      invariant forall k | k in variablesMap :: variablesMap[k].MapKey() == k && Var(variablesMap[k]) in matches
      invariant forall j | 0 <= j < i && matches[j].Var? :: matches[j].v.MapKey() in variablesMap
    {
      if matches[i].Var? {
        var v := matches[i].v;
        if v.MapKey() !in variablesMap {
          variablesMap := variablesMap[v.MapKey() := v];
        }
      }
    }
    forall v | v in VariablesOf(matches)
      ensures v.Valid() && v.MapKey() in variablesMap && variablesMap[v.MapKey()] == v
    {
      assert Var(v) in matches;
      MapKeysApart(variablesMap[v.MapKey()], v, v.MapKey());
    }
  }

  /** parseTemplateVariables: the distinct variables of the template, in an order of the map's choosing. */
  method ParseTemplateVariables(template: string) returns (variables: seq<Variable>)
    ensures IsOrder(variables, VariablesOf(Pieces(template))) && forall v | v in variables :: v.Valid()
  {
    var variablesMap := CollectVariables(template);
    variables := [];
    var todo := variablesMap.Keys;
    while todo != {}
      invariant todo <= variablesMap.Keys
      invariant forall v | v in variables :: v.MapKey() in variablesMap.Keys - todo && variablesMap[v.MapKey()] == v
      invariant forall k | k in variablesMap.Keys - todo :: variablesMap[k] in variables
      invariant forall i, j | 0 <= i < j < |variables| :: variables[i] != variables[j]
      decreases |todo|
    {
      var k :| k in todo;
      variables := variables + [variablesMap[k]];
      todo := todo - {k};
    }
  }

  /** getContent for one template: a panic, or the chain of replacements in some order of the variables. That is the
      simultaneous substitution if all replacements land on their own places in this order; they do in every order if
      each key occurs only where its variable stands, with all others filled in. */
  method Render(template: string, vd: VariableData) returns (content: Option<string>, ghost order: seq<Variable>)
    ensures IsOrder(order, VariablesOf(Pieces(template)))
    ensures content == if exists v | v in VariablesOf(Pieces(template)) :: Panics(v, vd) then None
                       else Some(ReplaceChain(template, order, v => ValueOf(v, vd)))
    ensures content.Some? && Lands(Pieces(template), order, v => ValueOf(v, vd)) ==>
            content == Some(Simultaneous(Pieces(template), v => ValueOf(v, vd)))
    ensures OwnKeysOnly(Pieces(template), v => ValueOf(v, vd)) ==>
            Lands(Pieces(template), order, v => ValueOf(v, vd))
  {
    var variables := ParseTemplateVariables(template);
    order := variables;
    content := GeContentWithVariables(template, variables, vd);
    FlatPieces(template);
    PiecesAreValid(template);
    if Lands(Pieces(template), order, v => ValueOf(v, vd)) {
      ChainIsSimultaneous(Pieces(template), variables, v => ValueOf(v, vd));
    }
    if OwnKeysOnly(Pieces(template), v => ValueOf(v, vd)) {
      OwnKeysLand(Pieces(template), variables, v => ValueOf(v, vd));
    }
  }

  // ---------- a template that is not safe ----------

  predicate DiffersAt(s: string, w: string, j: nat, k: nat) {
    k < |w| && j + k < |s| && s[j + k] != w[k]
  }

  /** Text in which no key starts: wherever there is a dollar sign, some later character is not the one of the key. */
  lemma {:induction false} ReplacePast(first: string, rest: string, v: Variable, now: string)
    requires v.Valid() && NoKeyIn(first, v)
    ensures ReplaceAll(first + rest, v.Key(), now) == first + ReplaceAll(rest, v.Key(), now)
  {
    var key := v.Key();
    KeyShape(v);
    forall j | 0 <= j < |first| ensures !OccursAt(first + rest, key, j) {
      if first[j] == '$' {
        var k :| 0 <= k < |first| && DiffersAt(first, key, j, k);
        NotHere(first + rest, key, j, k);
      } else {
        NotHere(first + rest, key, j, 0);
      }
    }
    ReplaceInRest(first, rest, key, now);
  }

  const SPIDER := Variable("spider", "name")
  const TASK := Variable("task", "id")

  lemma {:induction false} ExampleKeys()
    ensures SPIDER.Valid() && TASK.Valid()
    ensures SPIDER.Key() == "${spider:name}" && TASK.Key() == "${task:id}"
  {
  }

  predicate NoKeyIn(first: string, v: Variable) {
    forall j | 0 <= j < |first| && first[j] == '$' :: exists k | 0 <= k < |first| :: DiffersAt(first, v.Key(), j, k)
  }

  /** One key in a text, and what becomes of it. */
  lemma {:induction false} ReplaceTheOne(first: string, last: string, v: Variable, now: string)
    requires v.Valid() && NoKeyIn(first, v) && NoKeyIn(last, v)
    ensures ReplaceAll(first + (v.Key() + last), v.Key(), now) == first + (now + last)
  {
    ReplacePast(first, v.Key() + last, v, now);
    ReplaceAtFront(v.Key(), last, now);
    ReplacePast(last, "", v, now);
    assert last + "" == last;
  }

  lemma {:induction false} ExampleTexts()
    ensures NoKeyIn("${task:", SPIDER) && NoKeyIn("}${task:id}", SPIDER) && NoKeyIn("${task:${spider:name}}", TASK)
  {
    ExampleKeys();
    assert DiffersAt("${task:", SPIDER.Key(), 0, 2);
    assert DiffersAt("}${task:id}", SPIDER.Key(), 1, 2);
    assert DiffersAt("${task:${spider:name}}", TASK.Key(), 0, 7);
    assert DiffersAt("${task:${spider:name}}", TASK.Key(), 7, 2);
  }

  /** The same texts, put together in different ways. */
  lemma {:induction false} ExampleSplits(x: string)
    ensures "}" + TASK.Key() == "}${task:id}"
    ensures "${task:" + ("id" + "}${task:id}") == TASK.Key() + (TASK.Key() + "")
    ensures "${task:${spider:name}}" + (TASK.Key() + "") == "${task:" + (SPIDER.Key() + ("}" + TASK.Key()))
    ensures "${task:${spider:name}}" + (x + "") == "${task:" + (SPIDER.Key() + ("}" + x))
    ensures "${task:" + ("id" + ("}" + x)) == TASK.Key() + x
    ensures x + (x + "") == x + x
  {
    ExampleKeys();
  }

  /** A key is found where it stands. */
  lemma {:induction false} PiecesOfKey(v: Variable, rest: string)
    requires v.Valid()
    ensures Pieces(v.Key() + rest) == [Var(v)] + Pieces(rest)
  {
    KeyParts(v, rest);
    MatchOfKey(v, rest);
  }

  lemma {:induction false} NoMatch(s: string)
    requires s != "" && MatchHere(s).None?
    ensures Pieces(s) == [Plain(s[0])] + Pieces(s[1..])
  {
  }

  lemma NoDollarNoMatch(s: string)
    requires s != "" && s[0] != '$'
    ensures MatchHere(s).None?
  {
  }

  /** Text without a dollar sign. */
  lemma {:induction false} PiecesOfText(t: string, rest: string)
    requires '$' !in t
    ensures Pieces(t + rest) == AsPieces(t) + Pieces(rest)
  {
    if t == "" {
      assert t + rest == rest;
    } else {
      assert t[0] in t && (t + rest)[1..] == t[1..] + rest;
      NoDollarNoMatch(t + rest);
      NoMatch(t + rest);
      PiecesOfText(t[1..], rest);
      PlainFirst(t, Pieces(rest));
    }
  }

  lemma PlainFirst(t: string, ps: seq<Piece>)
    requires t != ""
    ensures AsPieces(t) + ps == [Plain(t[0])] + (AsPieces(t[1..]) + ps)
  {
  }

  lemma KeyInside(v: Variable, t: string, rest: string)
    requires v.Valid() && v.Key() <= t + rest && t != "" && "$" <= rest
    ensures |v.Key()| <= |t| && t[|v.Key()| - 1] == '}'
  {
    var key := v.Key();
    KeyShape(v);
    assert |key| > |t| ==> key[|t|] == (t + rest)[|t|] == '$';
    assert (t + rest)[|key| - 1] == key[|key| - 1];
  }

  /** A dollar sign without a closing brace before the next dollar sign opens nothing. */
  lemma {:induction false} NothingOpened(t: string, rest: string)
    requires t != "" && '}' !in t && "$" <= rest
    ensures MatchHere(t + rest).None?
  {
    if MatchHere(t + rest).Some? { KeyInside(MatchHere(t + rest).value, t, rest); }
  }

  lemma {:induction false} PiecesOfStray(s: string, rest: string)
    requires s != "" && '$' !in s[1..] && '}' !in s && "$" <= rest
    ensures Pieces(s + rest) == AsPieces(s) + Pieces(rest)
  {
    NothingOpened(s, rest);
    NoMatch(s + rest);
    assert (s + rest)[1..] == s[1..] + rest;
    PiecesOfText(s[1..], rest);
    PlainFirst(s, Pieces(rest));
  }

  lemma {:induction false} StrayText()
    ensures '$' !in "${task:"[1..] && '}' !in "${task:" && '$' !in "}"
  {
  }

  lemma {:induction false} ExamplePieces()
    ensures VariablesOf(Pieces("${task:" + (SPIDER.Key() + ("}" + TASK.Key())))) == {SPIDER, TASK}
  {
    ExampleKeys();
    StrayText();
    PiecesOfStray("${task:", SPIDER.Key() + ("}" + TASK.Key()));
    PiecesOfKey(SPIDER, "}" + TASK.Key());
    PiecesOfText("}", TASK.Key());
    PiecesOfKey(TASK, "");
    assert TASK.Key() + "" == TASK.Key();
    AllPlain("${task:", "}");
    OnlyVariables(AsPieces("${task:"), AsPieces("}"));
  }

  lemma AllPlain(s: string, t: string)
    ensures forall p | p in AsPieces(s) + AsPieces(t) :: p.Plain?
  {
    FlatAsPieces(s);
    FlatAsPieces(t);
  }

  lemma OnlyVariables(a: seq<Piece>, b: seq<Piece>)
    requires forall p | p in a + b :: p.Plain?
    ensures VariablesOf(a + ([Var(SPIDER)] + (b + ([Var(TASK)] + [])))) == {SPIDER, TASK}
  {
    var all := a + ([Var(SPIDER)] + (b + ([Var(TASK)] + [])));
    forall p | p in a ensures p.Plain? { assert p in a + b; }
    forall p | p in b ensures p.Plain? { assert p in a + b; }
    assert all[|a|] == Var(SPIDER) && all[|a| + 1 + |b|] == Var(TASK);
    assert Var(SPIDER) in all && Var(TASK) in all;
  }

  lemma TwoOrders(template: string)
    requires VariablesOf(Pieces(template)) == {SPIDER, TASK}
    ensures IsOrder([SPIDER, TASK], VariablesOf(Pieces(template)))
            && IsOrder([TASK, SPIDER], VariablesOf(Pieces(template)))
  {
  }

  /** A dollar sign that opens no variable can come to open one: in ${task:${spider:name}}${task:id}, with a spider
      named id, the order of the map decides how often the id of the task is filled in. */
  lemma {:induction false} StrayDollarDependsOnOrder(x: string, value: Variable -> Option<string>)
    requires '$' !in x
    requires value(SPIDER) == Some("id") && value(TASK) == Some(x)
    ensures var template := "${task:" + (SPIDER.Key() + ("}" + TASK.Key()));
            && IsOrder([SPIDER, TASK], VariablesOf(Pieces(template)))
            && IsOrder([TASK, SPIDER], VariablesOf(Pieces(template)))
            && ReplaceChain(template, [SPIDER, TASK], value) == x + x
            && ReplaceChain(template, [TASK, SPIDER], value) == TASK.Key() + x
  {
    var template := "${task:" + (SPIDER.Key() + ("}" + TASK.Key()));
    ExamplePieces();
    TwoOrders(template);
    ExampleChains(template, x, value);
  }

  lemma {:induction false} ExampleChains(template: string, x: string, value: Variable -> Option<string>)
    requires '$' !in x && template == "${task:" + (SPIDER.Key() + ("}" + TASK.Key()))
    requires value(SPIDER) == Some("id") && value(TASK) == Some(x)
    ensures ReplaceChain(template, [SPIDER, TASK], value) == x + x
    ensures ReplaceChain(template, [TASK, SPIDER], value) == TASK.Key() + x
  {
    ExampleKeys();
    ExampleTexts();
    ExampleSplits(x);
    ChainOfTwo(template, SPIDER, TASK, value);
    ReplaceTheOne("${task:", "}${task:id}", SPIDER, "id");
    ReplaceAtFront(TASK.Key(), TASK.Key() + "", x);
    ReplaceAtFront(TASK.Key(), "", x);
    ChainOfTwo(template, TASK, SPIDER, value);
    ReplaceTheOne("${task:${spider:name}}", "", TASK, x);
    ReplaceTheOne("${task:", "}" + x, SPIDER, "id");
  }

  lemma {:induction false} ChainOfTwo(content: string, v: Variable, w: Variable, value: Variable -> Option<string>)
    requires value(v).Some? && value(w).Some?
    ensures ReplaceChain(content, [v, w], value)
            == ReplaceAll(ReplaceAll(content, v.Key(), value(v).value), w.Key(), value(w).value)
  {
    var once := ReplaceAll(content, v.Key(), value(v).value);
    var twice := ReplaceAll(once, w.Key(), value(w).value);
    assert [v, w][1..] == [w] && [w][1..] == [];
    assert ReplaceChain(twice, [], value) == twice;
    assert ReplaceChain(once, [w], value) == twice;
  }

  // ---------- the known variables ----------

  /** Every name the service knows is a word, so the variable is one that the regular expression finds. */
  lemma KnownNamesAreWords(v: Variable)
    requires v.name in KnownNames(v.category)
    ensures v.Valid()
  {
    match v.category
    case "task" => TaskNamesAreWords(v.name);
    case "task_stat" => TaskStatNamesAreWords(v.name);
    case "spider" => SpiderNamesAreWords(v.name);
    case "node" => NodeNamesAreWords(v.name);
    case "schedule" => ScheduleNamesAreWords(v.name);
    case "alert" => AlertNamesAreWords(v.name);
  }

  lemma CommonNamesAreWords(name: string)
    ensures name in {"id", "name", "description", "enabled", "cmd", "param", "mode", "priority"} ==> IsWord(name)
    ensures name in {"created_ts", "created_by", "updated_ts", "updated_by"} ==> IsWord(name)
  {
  }

  lemma LongNamesAreWords(name: string)
    ensures name in {"available_runners", "max_runners", "is_master", "hostname", "active_at"} ==> IsWord(name)
    ensures name in {"metric_name", "operator", "lasting_seconds", "target_value"} ==> IsWord(name)
  {
  }

  lemma TaskNamesAreWords(name: string)
    requires name in KnownNames("task")
    ensures name != "" && IsWord(name) && IsWord("task")
  {
    CommonNamesAreWords(name);
  }

  lemma TaskStatNamesAreWords(name: string)
    requires name in KnownNames("task_stat")
    ensures name != "" && IsWord(name) && IsWord("task_stat")
  {
  }

  lemma SpiderNamesAreWords(name: string)
    requires name in KnownNames("spider")
    ensures name != "" && IsWord(name) && IsWord("spider")
  {
    CommonNamesAreWords(name);
  }

  lemma NodeNamesAreWords(name: string)
    requires name in KnownNames("node")
    ensures name != "" && IsWord(name) && IsWord("node")
  {
    CommonNamesAreWords(name);
    LongNamesAreWords(name);
  }

  lemma ScheduleNamesAreWords(name: string)
    requires name in KnownNames("schedule")
    ensures name != "" && IsWord(name) && IsWord("schedule")
  {
    CommonNamesAreWords(name);
  }

  lemma AlertNamesAreWords(name: string)
    requires name in KnownNames("alert")
    ensures name != "" && IsWord(name) && IsWord("alert")
  {
    CommonNamesAreWords(name);
    LongNamesAreWords(name);
  }

  /** What stands in the rendered text for a variable. */
  function Filling(v: Variable, vd: VariableData): string {
    if ValueOf(v, vd).Some? then ValueOf(v, vd).value else v.Key()
  }

  /** What a missing entity leaves is N/A, whatever the name; a missing alert panics for a name that is known. A name
      that is not known stays as it is, but for metrics, which take every name. */
  lemma FillingIs(v: Variable, vd: VariableData)
    ensures v.category in {"task", "task_stat", "spider", "node", "schedule", "metric"} && v.category !in vd ==>
              Filling(v, vd) == "N/A"
    ensures v.category in vd && (v.name in KnownNames(v.category) || v.category == "metric") ==>
              Filling(v, vd) == vd[v.category](v.name)
    ensures v.category in vd && v.category != "metric" && v.name !in KnownNames(v.category) ==>
              Filling(v, vd) == v.Key()
    ensures v.category == "alert" && v.category !in vd ==> Filling(v, vd) == v.Key()
    ensures v.category !in {"task", "task_stat", "spider", "node", "schedule", "alert", "metric"} ==>
              Filling(v, vd) == v.Key()
    ensures Panics(v, vd) <==> v.category == "alert" && v.category !in vd && v.name in KnownNames("alert")
  {
  }

  /** One variable in plain text: its key is found, and nothing but it gives way. */
  lemma {:induction false} VariableIsShown(before: string, v: Variable, after: string, vd: VariableData)
    requires v.Valid() && '$' !in before && '$' !in after
    ensures VariablesOf(Pieces(before + (v.Key() + after))) == {v}
    ensures ReplaceChain(before + (v.Key() + after), [v], w => ValueOf(w, vd)) == before + (Filling(v, vd) + after)
  {
    OneKeyIn(before, v, after);
    ShownIs(before, v, after, w => ValueOf(w, vd));
  }

  lemma {:induction false} ShownIs(before: string, v: Variable, after: string, value: Variable -> Option<string>)
    requires v.Valid() && '$' !in before && '$' !in after
    ensures ReplaceChain(before + (v.Key() + after), [v], value) ==
            before + ((if value(v).Some? then value(v).value else v.Key()) + after)
  {
    if value(v).Some? {
      ReplaceTheOne(before, after, v, value(v).value);
    }
    assert [v][1..] == [];
  }

  lemma {:induction false} OneKeyIn(before: string, v: Variable, after: string)
    requires v.Valid() && '$' !in before && '$' !in after
    ensures VariablesOf(Pieces(before + (v.Key() + after))) == {v}
  {
    PiecesOfText(before, v.Key() + after);
    PiecesOfKey(v, after);
    PiecesOfText(after, "");
    assert after + "" == after;
    AllPlain(before, after);
    OnlyVariable(AsPieces(before), v, AsPieces(after));
  }

  lemma OnlyVariable(a: seq<Piece>, v: Variable, b: seq<Piece>)
    requires forall p | p in a + b :: p.Plain?
    ensures VariablesOf(a + ([Var(v)] + (b + []))) == {v}
  {
    var all := a + ([Var(v)] + (b + []));
    forall p | p in a ensures p.Plain? { assert p in a + b; }
    forall p | p in b ensures p.Plain? { assert p in a + b; }
    assert all[|a|] == Var(v);
  }
}
