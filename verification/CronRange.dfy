/** The compiler of one field of a cron expression (core/utils/cron.go): a range such as 1-5/2 becomes a word
    with one bit for each value, and the top bit for a star. */
module CronRange {
  import opened Arithmetic
  import opened Wrappers

  datatype Result<T> = Ok(value: T) | Err(error: Error)

  datatype Error =
    | NotANumber(text: string)
    | Negative(text: string)
    | TooManyHyphens
    | TooManySlashes
    | BelowMinimum(start: nat)
    | AboveMaximum(end: nat)
    | BeginningBeyondEnd(start: nat, end: nat)
    | StepNotPositive

  /** cronBounds; names is nil for the fields without names. */
  datatype Bounds = Bounds(min: nat, max: nat, names: Option<map<string, nat>>)

  const INT_BOUND: int := 0x8000_0000_0000_0000
  const UINT_BOUND: int := 0x1_0000_0000_0000_0000
  const STAR: nat := 63

  // ---------- uint64 as its bits, the lowest first ----------

  type Word = w: seq<bool> | |w| == 64 witness seq(64, _ => false)

  const ZERO: Word := seq(64, _ => false)
  const MAX_UINT64: Word := seq(64, _ => true)
  const ONE: Word := ZERO[0 := true]

  function Or(m: Word, n: Word): Word {
    seq(64, i requires 0 <= i < 64 => m[i] || n[i])
  }

  function And(m: Word, n: Word): Word {
    seq(64, i requires 0 <= i < 64 => m[i] && n[i])
  }

  function Not(m: Word): Word {
    seq(64, i requires 0 <= i < 64 => !m[i])
  }

  /** m << n; a count of 64 or more leaves nothing. */
  function ShiftLeft(m: Word, n: nat): Word {
    seq(64, i requires 0 <= i < 64 => n <= i && m[i - n])
  }

  const STAR_BIT: Word := ShiftLeft(ONE, STAR)

  // ---------- getBits ----------

  /** The values of a range: every step-th one from start to end, and a mark for a star. */
  datatype Range = Range(start: nat, end: nat, step: nat, star: bool)
  {
    predicate Has(k: nat) {
      step > 0 && start <= k <= end && (k - start) % step == 0
    }

    /** The meaning of a mask. */
    predicate DenotedBy(mask: Word) {
      forall k: nat | k < 64 :: mask[k] <==> (Has(k) || (k == STAR && star))
    }
  }

  lemma {:induction false} MultiplesStep(a: nat, d: nat, step: nat)
    requires step > 0 && a % step == 0 && 0 < d <= step
    ensures (a + d) % step == 0 <==> d == step
  {
    var q := a / step;
    assert a == step * q;
    if d == step {
      QuotientIs(a + d, step, q + 1, 0);
    } else {
      QuotientIs(a + d, step, q, d);
    }
  }

  /** The bits of the values below i. */
  ghost predicate FilledTo(bits: Word, min: nat, step: nat, i: nat)
    requires step > 0
  {
    forall k: nat | k < 64 :: bits[k] <==> (k < i && InStep(min, step, k))
  }

  predicate InStep(min: nat, step: nat, k: nat)
    requires step > 0
  {
    min <= k && (k - min) % step == 0
  }

  lemma {:induction false} NextInStep(min: nat, step: nat, i: nat, k: nat)
    requires step > 0 && InStep(min, step, i) && i < k <= i + step
    ensures InStep(min, step, k) <==> k == i + step
  {
    MultiplesStep(i - min, k - i, step);
  }

  lemma {:induction false} FillOne(bits: Word, min: nat, step: nat, i: nat)
    requires step > 0 && i < 64 && FilledTo(bits, min, step, i) && InStep(min, step, i)
    ensures FilledTo(Or(bits, ShiftLeft(ONE, i)), min, step, i + step) && InStep(min, step, i + step)
  {
    NextInStep(min, step, i, i + step);
    forall k: nat | k < 64 ensures Or(bits, ShiftLeft(ONE, i))[k] <==> (k < i + step && InStep(min, step, k)) {
      assert ShiftLeft(ONE, i)[k] <==> k == i;
      if i < k < i + step { NextInStep(min, step, i, k); }
    }
  }

  lemma {:induction false} AllFilled(bits: Word, min: nat, max: nat, step: nat, i: nat)
    requires step > 0 && max < i && FilledTo(bits, min, step, i)
    requires forall k: nat | max < k < i :: !InStep(min, step, k)
    ensures Range(min, max, step, false).DenotedBy(bits)
  {
  }

  lemma {:induction false} ShiftsFill(min: nat, max: nat)
    requires max < 64
    ensures Range(min, max, 1, false).DenotedBy(And(Not(ShiftLeft(MAX_UINT64, max + 1)), ShiftLeft(MAX_UINT64, min)))
  {
  }

  /** getBits: the shifts of the fast path and the loop set the same bits. */
  method GetBits(min: nat, max: nat, step: nat) returns (bits: Word)
    requires max < 64 && 1 <= step < INT_BOUND
    ensures Range(min, max, step, false).DenotedBy(bits)
  {
    if step == 1 {
      ShiftsFill(min, max);
      return And(Not(ShiftLeft(MAX_UINT64, max + 1)), ShiftLeft(MAX_UINT64, min));
    }
    bits := ZERO;
    var i := min;
    while i <= max
      invariant InStep(min, step, i) && FilledTo(bits, min, step, i)
      invariant forall k: nat | max < k < i :: !InStep(min, step, k)
    {
      FillOne(bits, min, step, i);
      forall k: nat | max < k < i + step ensures !InStep(min, step, k) {
        NextInStep(min, step, i, k);
      }
      bits := Or(bits, ShiftLeft(ONE, i));
      i := (i + step) % UINT_BOUND;
    }
    AllFilled(bits, min, max, step, i);
  }

  // ---------- strings.Split on one character ----------

  function Split(s: string, c: char): (pieces: seq<string>)
    ensures |pieces| >= 1
    ensures forall p | p in pieces :: c !in p
  {
    if s == "" then [""]
    else
      var rest := Split(s[1..], c);
      if s[0] == c then [""] + rest else [[s[0]] + rest[0]] + rest[1..]
  }

  function Join(pieces: seq<string>, c: char): string
    requires |pieces| >= 1
  {
    if |pieces| == 1 then pieces[0] else pieces[0] + [c] + Join(pieces[1..], c)
  }

  lemma {:induction false} JoinSplit(s: string, c: char)
    ensures Join(Split(s, c), c) == s
  {
    if s != "" {
      var rest := Split(s[1..], c);
      JoinSplit(s[1..], c);
      if s[0] == c {
        assert Split(s, c)[1..] == rest;
      } else {
        assert Split(s, c)[1..] == rest[1..];
      }
    }
  }

  lemma {:induction false} SplitPlain(s: string, c: char)
    requires c !in s
    ensures Split(s, c) == [s]
  {
    if s != "" {
      SplitPlain(s[1..], c);
      assert [s[0]] + s[1..] == s;
    }
  }

  lemma {:induction false} SplitFirst(s: string, c: char, rest: string)
    requires c !in s
    ensures Split(s + [c] + rest, c) == [s] + Split(rest, c)
  {
    var t := s + [c] + rest;
    if s == "" {
      assert t[1..] == rest;
    } else {
      assert t[1..] == s[1..] + [c] + rest;
      SplitFirst(s[1..], c, rest);
      assert [s[0]] + s[1..] == s;
      assert ([s[1..]] + Split(rest, c))[1..] == Split(rest, c);
    }
  }

  // ---------- strconv.Atoi ----------

  predicate IsDigit(c: char) {
    '0' <= c <= '9'
  }

  function ValueOf(c: char): nat
    requires IsDigit(c)
  {
    c as int - '0' as int
  }

  function Digit(n: nat): (c: char)
    requires n < 10
    ensures IsDigit(c) && ValueOf(c) == n
  {
    (n + '0' as int) as char
  }

  predicate AllDigits(s: string) {
    forall i | 0 <= i < |s| :: IsDigit(s[i])
  }

  function Digits(s: string): nat
    requires AllDigits(s)
  {
    if s == "" then 0 else 10 * Digits(s[..|s| - 1]) + ValueOf(s[|s| - 1])
  }

  function Atoi(s: string): Option<int> {
    var signed := s != "" && (s[0] == '+' || s[0] == '-');
    var digits := if signed then s[1..] else s;
    if digits == "" || !AllDigits(digits) then None
    else
      var n: int := if s[0] == '-' then -(Digits(digits) as int) else Digits(digits);
      if -INT_BOUND <= n < INT_BOUND then Some(n) else None
  }

  function Decimal(n: nat): (s: string)
    ensures s != "" && AllDigits(s)
  {
    if n < 10 then [Digit(n)] else Decimal(n / 10) + [Digit(n % 10)]
  }

  lemma {:induction false} DigitsOfDecimal(n: nat)
    ensures Digits(Decimal(n)) == n
  {
    var s := Decimal(n);
    if n >= 10 {
      DigitsOfDecimal(n / 10);
      assert s[..|s| - 1] == Decimal(n / 10);
    } else {
      assert s[..|s| - 1] == "";
    }
  }

  lemma {:induction false} AtoiOfDecimal(n: nat)
    requires n < INT_BOUND
    ensures Atoi(Decimal(n)) == Some(n)
  {
    DigitsOfDecimal(n);
    assert IsDigit(Decimal(n)[0]);
  }

  // ---------- numbers and names ----------

  /** unicode.ToLower, as far as the result can be a letter of a name. */
  function Lower(c: char): char {
    if 'A' <= c <= 'Z' then (c as int - 'A' as int + 'a' as int) as char
    else if c == '\U{0130}' then 'i'
    else if c == '\U{212A}' then 'k'
    else c
  }

  function ToLower(s: string): string {
    seq(|s|, i requires 0 <= i < |s| => Lower(s[i]))
  }

  function MustParseInt(s: string): Result<nat> {
    match Atoi(s)
    case None => Err(NotANumber(s))
    case Some(n) => if n < 0 then Err(Negative(s)) else Ok(n)
  }

  function ParseIntOrName(s: string, names: Option<map<string, nat>>): Result<nat> {
    if names.Some? && ToLower(s) in names.value then Ok(names.value[ToLower(s)]) else MustParseInt(s)
  }

  // ---------- getRange ----------

  predicate IsStar(s: string) {
    s == "*" || s == "?"
  }

  /** What an expression says, as the documentation has it: a star, a number or a pair of numbers, then a step. */
  datatype Expression = Expression(low: string, highs: seq<string>, steps: seq<string>)
  {
    predicate WellFormed() {
      && '-' !in low && '/' !in low
      && (forall p | p in highs :: '-' !in p && '/' !in p)
      && (forall p | p in steps :: '/' !in p)
    }

    function Text(): string {
      Join([Join([low] + highs, '-')] + steps, '/')
    }
  }

  /** The reference: the range of an expression, or the first thing wrong with it. A star ignores what follows its
      hyphens; a single number or star with a step reaches to the maximum. */
  function Meaning(e: Expression, b: Bounds): Result<Range> {
    var ends: Result<(nat, nat)> :=
      if IsStar(e.low) then Ok((b.min, b.max))
      else
        var start := ParseIntOrName(e.low, b.names);
        if start.Err? then Err(start.error)
        else if e.highs == [] then Ok((start.value, if |e.steps| == 1 then b.max else start.value))
        else if |e.highs| > 1 then Err(TooManyHyphens)
        else
          var end := ParseIntOrName(e.highs[0], b.names);
          if end.Err? then Err(end.error) else Ok((start.value, end.value));
    if ends.Err? then Err(ends.error)
    else if |e.steps| > 1 then Err(TooManySlashes)
    else
      var (start, end) := ends.value;
      var step := if e.steps == [] then Ok(1) else MustParseInt(e.steps[0]);
      if step.Err? then Err(step.error)
      else if start < b.min then Err(BelowMinimum(start))
      else if end > b.max then Err(AboveMaximum(end))
      else if start > end then Err(BeginningBeyondEnd(start, end))
      else if step.value == 0 then Err(StepNotPositive)
      else Ok(Range(start, end, step.value, IsStar(e.low) && step.value == 1))
  }

  /** How getRange takes an expression apart. */
  function Parts(expr: string): (e: Expression)
    ensures '-' !in e.low
  {
    var rangeAndStep := Split(expr, '/');
    var lowAndHigh := Split(rangeAndStep[0], '-');
    Expression(lowAndHigh[0], lowAndHigh[1..], rangeAndStep[1..])
  }

  /** A mask with just the values meant, or the error. */
  ghost predicate Compiles(expr: string, b: Bounds, r: Result<Word>) {
    match Meaning(Parts(expr), b)
    case Ok(range) => r.Ok? && range.DenotedBy(r.value)
    case Err(error) => r == Err(error)
  }

  /** getRange */
  method GetRange(expr: string, b: Bounds) returns (r: Result<Word>)
    requires b.max < STAR
    ensures Compiles(expr, b, r)
  {
    var rangeAndStep := Split(expr, '/');
    var lowAndHigh := Split(rangeAndStep[0], '-');
    var singleDigit := |lowAndHigh| == 1;
    var start, end, step: nat;
    var extra := ZERO;
    if IsStar(lowAndHigh[0]) {
      start, end, extra := b.min, b.max, STAR_BIT;
    } else {
      var low := ParseIntOrName(lowAndHigh[0], b.names);
      if low.Err? { return Err(low.error); }
      start := low.value;
      if |lowAndHigh| == 1 {
        end := start;
      } else if |lowAndHigh| == 2 {
        var high := ParseIntOrName(lowAndHigh[1], b.names);
        if high.Err? { return Err(high.error); }
        end := high.value;
      } else {
        return Err(TooManyHyphens);
      }
    }
    if |rangeAndStep| == 1 {
      step := 1;
    } else if |rangeAndStep| == 2 {
      var number := MustParseInt(rangeAndStep[1]);
      if number.Err? { return Err(number.error); }
      step := number.value;
      if singleDigit { end := b.max; }
      if step > 1 { extra := ZERO; }
    } else {
      return Err(TooManySlashes);
    }
    if start < b.min { return Err(BelowMinimum(start)); }
    if end > b.max { return Err(AboveMaximum(end)); }
    if start > end { return Err(BeginningBeyondEnd(start, end)); }
    if step == 0 { return Err(StepNotPositive); }
    var bits := GetBits(start, end, step);
    r := Ok(Or(bits, extra));
  }

  /** all */
  method All(b: Bounds) returns (bits: Word)
    requires b.min <= b.max < STAR
    ensures Meaning(Parts("*"), b) == Ok(Range(b.min, b.max, 1, true))
    ensures Meaning(Parts("*"), b).value.DenotedBy(bits)
  {
    SplitPlain("*", '/');
    SplitPlain("*", '-');
    bits := GetBits(b.min, b.max, 1);
    bits := Or(bits, STAR_BIT);
  }

  // ---------- what the masks mean ----------

  /** There is one mask for a range, so all(r) is getRange("*", r). */
  lemma {:induction false} OneMask(g: Range, m: Word, n: Word)
    requires g.DenotedBy(m) && g.DenotedBy(n)
    ensures m == n
  {
    forall k: nat | k < 64 ensures m[k] == n[k] {
    }
  }

  /** A mask holds the start, no value outside the bounds, and the star bit just for a star that is not thinned out. */
  lemma {:induction false} MaskIsInsideBounds(e: Expression, b: Bounds, mask: Word)
    requires b.max < STAR && Meaning(e, b).Ok? && Meaning(e, b).value.DenotedBy(mask)
    ensures exists k: nat | k < STAR :: mask[k]
    ensures forall k: nat | k < STAR && mask[k] :: b.min <= k <= b.max
    ensures mask[STAR] <==> IsStar(e.low) && (e.steps == [] || Atoi(e.steps[0]) == Some(1))
  {
    var g := Meaning(e, b).value;
    assert g.Has(g.start);
    assert mask[g.start];
    assert !g.Has(STAR);
  }

  // ---------- the grammar ----------

  /** Every text is an expression, in one way. */
  lemma {:induction false} TextOfParts(expr: string)
    ensures Parts(expr).WellFormed() && Parts(expr).Text() == expr
  {
    var rangeAndStep := Split(expr, '/');
    var lowAndHigh := Split(rangeAndStep[0], '-');
    JoinSplit(expr, '/');
    JoinSplit(rangeAndStep[0], '-');
    assert [lowAndHigh[0]] + lowAndHigh[1..] == lowAndHigh;
    assert [rangeAndStep[0]] + rangeAndStep[1..] == rangeAndStep;
    PiecesKeepOut(rangeAndStep[0], '-', '/');
  }

  lemma {:induction false} PartsOfText(e: Expression)
    requires e.WellFormed()
    ensures Parts(e.Text()) == e
  {
    var range := Join([e.low] + e.highs, '-');
    JoinKeepsOut([e.low] + e.highs, '-', '/');
    SplitJoin([range] + e.steps, '/');
    SplitJoin([e.low] + e.highs, '-');
  }

  lemma {:induction false} SplitJoin(pieces: seq<string>, c: char)
    requires |pieces| >= 1 && forall p | p in pieces :: c !in p
    ensures Split(Join(pieces, c), c) == pieces
  {
    if |pieces| == 1 {
      SplitPlain(pieces[0], c);
    } else {
      SplitJoin(pieces[1..], c);
      SplitFirst(pieces[0], c, Join(pieces[1..], c));
    }
  }

  lemma {:induction false} PiecesKeepOut(s: string, c: char, d: char)
    requires d !in s
    ensures forall p | p in Split(s, c) :: d !in p
  {
    if s != "" {
      PiecesKeepOut(s[1..], c, d);
    }
  }

  lemma {:induction false} JoinKeepsOut(pieces: seq<string>, c: char, d: char)
    requires |pieces| >= 1 && c != d && forall p | p in pieces :: d !in p
    ensures d !in Join(pieces, c)
  {
    if |pieces| > 1 {
      JoinKeepsOut(pieces[1..], c, d);
    }
  }

  // ---------- what each form compiles to ----------

  /** A number or a name, with its value. */
  ghost predicate Reads(text: string, v: nat, b: Bounds) {
    '-' !in text && '/' !in text && !IsStar(text) && ParseIntOrName(text, b.names) == Ok(v)
  }

  /** Bit k of the mask says whether k is one of every step-th value from low to high. */
  ghost predicate EveryFrom(r: Result<Word>, low: nat, high: nat, step: nat)
    requires step > 0
  {
    r.Ok? && forall k: nat | k < 64 :: r.value[k] <==> low <= k <= high && (k - low) % step == 0
  }

  /** A value sets its own bit alone. */
  lemma {:induction false} NumberAlone(text: string, v: nat, b: Bounds, r: Result<Word>)
    requires Reads(text, v, b) && b.max < STAR && Compiles(text, b, r)
    ensures if v < b.min then r == Err(BelowMinimum(v))
            else if v > b.max then r == Err(AboveMaximum(v))
            else r.Ok? && forall k: nat | k < 64 :: r.value[k] <==> k == v
  {
    TextOfOne(text);
    PartsOfText(Expression(text, [], []));
  }

  /** value/step: every step-th value from there to the maximum. */
  lemma {:induction false} NumberWithStep(text: string, v: nat, step: nat, b: Bounds, r: Result<Word>)
    requires Reads(text, v, b) && step < INT_BOUND && b.max < STAR
    requires Compiles(text + "/" + Decimal(step), b, r)
    ensures if v < b.min then r == Err(BelowMinimum(v))
            else if v > b.max then r == Err(BeginningBeyondEnd(v, b.max))
            else if step == 0 then r == Err(StepNotPositive)
            else EveryFrom(r, v, b.max, step)
  {
    TextOfNumber(text, Decimal(step));
    DigitsOnly(step);
    PartsOfText(Expression(text, [], [Decimal(step)]));
    AtoiOfDecimal(step);
  }

  /** low-high: all values between. */
  lemma {:induction false} SpanAlone(low: string, v: nat, high: string, w: nat, b: Bounds, r: Result<Word>)
    requires Reads(low, v, b) && Reads(high, w, b) && b.max < STAR && Compiles(low + "-" + high, b, r)
    ensures if v < b.min then r == Err(BelowMinimum(v))
            else if w > b.max then r == Err(AboveMaximum(w))
            else if v > w then r == Err(BeginningBeyondEnd(v, w))
            else r.Ok? && forall k: nat | k < 64 :: r.value[k] <==> v <= k <= w
  {
    TextOfPair(low, high);
    PartsOfText(Expression(low, [high], []));
  }

  /** low-high/step: every step-th value between. */
  lemma {:induction false} SpanWithStep(low: string, v: nat, high: string, w: nat, step: nat, b: Bounds,
                                        r: Result<Word>)
    requires Reads(low, v, b) && Reads(high, w, b) && step < INT_BOUND && b.max < STAR
    requires Compiles(low + "-" + high + "/" + Decimal(step), b, r)
    ensures if v < b.min then r == Err(BelowMinimum(v))
            else if w > b.max then r == Err(AboveMaximum(w))
            else if v > w then r == Err(BeginningBeyondEnd(v, w))
            else if step == 0 then r == Err(StepNotPositive)
            else EveryFrom(r, v, w, step)
  {
    TextOfSpan(low, high, Decimal(step));
    DigitsOnly(step);
    PartsOfText(Expression(low, [high], [Decimal(step)]));
    AtoiOfDecimal(step);
  }

  /** Either star: all values, and the star bit. */
  lemma {:induction false} StarAlone(star: string, b: Bounds, r: Result<Word>)
    requires (star == "*" || star == "?") && b.min <= b.max < STAR && Compiles(star, b, r)
    ensures r.Ok? && forall k: nat | k < 64 :: r.value[k] <==> b.min <= k <= b.max || k == 63
  {
    TextOfOne(star);
    PartsOfText(Expression(star, [], []));
  }

  /** Either star with a step: every step-th value, and the star bit if that leaves none out. */
  lemma {:induction false} StarWithStep(star: string, step: nat, b: Bounds, r: Result<Word>)
    requires (star == "*" || star == "?") && step < INT_BOUND && b.min <= b.max < STAR
    requires Compiles(star + "/" + Decimal(step), b, r)
    ensures if step == 0 then r == Err(StepNotPositive)
            else r.Ok? && forall k: nat | k < 64 ::
              r.value[k] <==> (b.min <= k <= b.max && (k - b.min) % step == 0) || (step == 1 && k == 63)
  {
    TextOfNumber(star, Decimal(step));
    DigitsOnly(step);
    PartsOfText(Expression(star, [], [Decimal(step)]));
    AtoiOfDecimal(step);
  }

  lemma DigitsOnly(n: nat)
    ensures '-' !in Decimal(n) && '/' !in Decimal(n)
  {
    var s := Decimal(n);
    assert forall i | 0 <= i < |s| :: IsDigit(s[i]);
  }

  // ---------- texts that are refused ----------

  /** Neither a number nor a name. */
  ghost predicate Unreadable(text: string, b: Bounds) {
    Atoi(text).None? && (b.names.Some? ==> ToLower(text) !in b.names.value)
  }

  /** The ends can be read: a star, whatever follows its hyphens, or one value, or two. */
  ghost predicate EndsRead(e: Expression, b: Bounds) {
    || IsStar(e.low)
    || (&& |e.highs| <= 1 && (exists v :: Reads(e.low, v, b))
        && (forall high | high in e.highs :: exists w :: ParseIntOrName(high, b.names) == Ok(w)))
  }

  /** What is wrong is reported from left to right: the first value, the hyphens, the second value, the slashes, the
      step; only then are the values compared. */
  lemma {:induction false} Refused(e: Expression, b: Bounds, r: Result<Word>)
    requires e.WellFormed() && Compiles(e.Text(), b, r)
    ensures !IsStar(e.low) && Unreadable(e.low, b) ==> r == Err(NotANumber(e.low))
    ensures (exists v :: Reads(e.low, v, b)) && |e.highs| > 1 ==> r == Err(TooManyHyphens)
    ensures (exists v :: Reads(e.low, v, b)) && |e.highs| == 1 && Unreadable(e.highs[0], b) ==>
              r == Err(NotANumber(e.highs[0]))
    ensures EndsRead(e, b) && |e.steps| > 1 ==> r == Err(TooManySlashes)
    ensures EndsRead(e, b) && |e.steps| == 1 && Atoi(e.steps[0]).None? ==> r == Err(NotANumber(e.steps[0]))
    ensures EndsRead(e, b) && |e.steps| == 1 && Atoi(e.steps[0]).Some? && Atoi(e.steps[0]).value < 0 ==>
              r == Err(Negative(e.steps[0]))
  {
    PartsOfText(e);
  }

  /** No other text is a number: a sign in front of digits is allowed, anything else is not. */
  lemma {:induction false} AtoiOfSigned(n: int)
    requires 0 <= n < INT_BOUND
    ensures Atoi("+" + Decimal(n)) == Some(n)
    ensures Atoi("-" + Decimal(n)) == Some(-n)
  {
    DigitsOfDecimal(n);
    assert ("+" + Decimal(n))[1..] == Decimal(n) && ("-" + Decimal(n))[1..] == Decimal(n);
  }

  lemma {:induction false} AtoiOfOthers(s: string, i: nat)
    requires i < |s| && !IsDigit(s[i]) && (i == 0 ==> (s[0] != '+' && s[0] != '-') || |s| == 1)
    ensures Atoi(s).None? && Atoi("").None?
  {
    var signed := s[0] == '+' || s[0] == '-';
    var digits := if signed then s[1..] else s;
    var j := if signed then i - 1 else i;
    assert j >= 0 ==> !IsDigit(digits[j]);
    assert j < 0 ==> digits == "";
  }

  /** A part of a range has no hyphen, so it is no negative number. */
  lemma {:induction false} NoPartIsNegative(s: string, n: int)
    requires '-' !in s && Atoi(s) == Some(n)
    ensures n >= 0
  {
    var digits := if s[0] == '+' then s[1..] else s;
    assert s[0] != '-' && n == Digits(digits);
  }

  lemma {:induction false} TextOfOne(low: string)
    ensures Expression(low, [], []).Text() == low
  {
    var e := Expression(low, [], []);
    assert [e.low] + e.highs == [low] && [Join([low], '-')] + e.steps == [low];
  }

  lemma {:induction false} TextOfPair(low: string, high: string)
    ensures Expression(low, [high], []).Text() == low + "-" + high
  {
    var e := Expression(low, [high], []);
    assert [e.low] + e.highs == [low, high] && [low, high][1..] == [high];
    assert Join([low, high], '-') == low + ['-'] + high;
    assert [Join([low, high], '-')] + e.steps == [Join([low, high], '-')];
  }

  lemma {:induction false} TextOfSpan(low: string, high: string, step: string)
    ensures Expression(low, [high], [step]).Text() == low + "-" + high + "/" + step
  {
    var e := Expression(low, [high], [step]);
    assert [e.low] + e.highs == [low, high];
    assert [low, high][1..] == [high];
    assert Join([low, high], '-') == low + ['-'] + high;
    var range := low + ['-'] + high;
    assert [range] + e.steps == [range, step];
    assert [range, step][1..] == [step];
    assert Join([range, step], '/') == range + ['/'] + step;
  }

  lemma {:induction false} TextOfNumber(low: string, step: string)
    ensures Expression(low, [], [step]).Text() == low + "/" + step
  {
    var e := Expression(low, [], [step]);
    assert [e.low] + e.highs == [low];
    assert [Join([low], '-')] + e.steps == [low, step];
    assert [low, step][1..] == [step];
    assert Join([low, step], '/') == low + ['/'] + step;
  }

  /** A number is read as itself: no name is a number, so it is not taken for one. */
  lemma {:induction false} NumberIsItself(n: nat, b: Bounds)
    requires b.names.Some? ==> forall k | k in b.names.value :: !AllDigits(k)
    requires n < INT_BOUND
    ensures Reads(Decimal(n), n, b)
  {
    var s := Decimal(n);
    AtoiOfDecimal(n);
    DigitsOnly(n);
    assert IsDigit(s[0]);
    assert AllDigits(s);
    assert ToLower(s) == s;
  }

  // ---------- the six fields ----------

  const MONTHS: map<string, nat> := map["jan" := 1, "feb" := 2, "mar" := 3, "apr" := 4, "may" := 5, "jun" := 6,
                                        "jul" := 7, "aug" := 8, "sep" := 9, "oct" := 10, "nov" := 11, "dec" := 12]
  const DAYS: map<string, nat> := map["sun" := 0, "mon" := 1, "tue" := 2, "wed" := 3, "thu" := 4, "fri" := 5,
                                      "sat" := 6]

  const FIELDS: seq<Bounds> :=
    [Bounds(0, 59, None), Bounds(0, 59, None), Bounds(0, 23, None), Bounds(1, 31, None),
     Bounds(1, 12, Some(MONTHS)), Bounds(0, 6, Some(DAYS))]

  /** The fields of a cron expression leave the star bit free, and their names are no numbers and within bounds. */
  lemma {:induction false} FieldsAreProper(b: Bounds)
    requires b in FIELDS
    ensures b.min <= b.max < STAR
    ensures b.names.Some? ==> forall k | k in b.names.value :: !AllDigits(k) && b.min <= b.names.value[k] <= b.max
  {
    if b.names.Some? {
      forall k | k in b.names.value ensures !AllDigits(k) {
        assert !IsDigit(k[0]);
      }
    }
  }

  const MONTH_NAMES := ["jan", "feb", "mar", "apr", "may", "jun", "jul", "aug", "sep", "oct", "nov", "dec"]
  const DAY_NAMES := ["sun", "mon", "tue", "wed", "thu", "fri", "sat"]

  /** The names of the months stand for 1 to 12 and those of the days for 0 to 6, in this order and in any case. */
  lemma {:induction false} NamesAreRead(text: string, i: nat)
    ensures i < 12 && ToLower(text) == MONTH_NAMES[i] ==> Reads(text, i + 1, FIELDS[4])
    ensures i < 7 && ToLower(text) == DAY_NAMES[i] ==> Reads(text, i, FIELDS[5])
  {
    if i < 12 && ToLower(text) == MONTH_NAMES[i] {
      NameHasLetters(text, MONTH_NAMES[i]);
    }
    if i < 7 && ToLower(text) == DAY_NAMES[i] {
      NameHasLetters(text, DAY_NAMES[i]);
    }
  }

  lemma NameHasLetters(text: string, name: string)
    requires ToLower(text) == name && |name| == 3 && forall c | c in name :: 'a' <= c <= 'z'
    ensures '-' !in text && '/' !in text && !IsStar(text)
  {
    forall i | 0 <= i < |text| ensures text[i] != '-' && text[i] != '/' {
      assert Lower(text[i]) == ToLower(text)[i] == name[i] && name[i] in name;
    }
  }

  /** A capital letter counts as the small one. */
  lemma LowerIs(c: char)
    ensures 'A' <= c <= 'Z' ==> 'a' <= Lower(c) <= 'z' && Lower(c) - 'a' == c - 'A'
    ensures 'a' <= c <= 'z' || IsDigit(c) ==> Lower(c) == c
  {
  }

  /** Seconds and minutes, hours, days of the month, months, days of the week. */
  lemma FieldsCover()
    ensures |FIELDS| == 6 && FIELDS[0] == FIELDS[1] && FIELDS[0].min == FIELDS[2].min == FIELDS[5].min == 0
    ensures FIELDS[0].max + 1 == 60 && FIELDS[2].max + 1 == 24 && FIELDS[5].max + 1 == |DAY_NAMES|
    ensures FIELDS[3].min == FIELDS[4].min == 1 && FIELDS[3].max == 31 && FIELDS[4].max == |MONTH_NAMES|
    ensures forall k | 0 <= k < 4 :: FIELDS[k].names.None?
  {
  }
}
