/** Translation of a filter into a mongo query (core/utils/filter.go). */
module Filter {
  import opened Text
  import opened Wrappers

  datatype Result<T> = Ok(value: T) | Err

  // ---------- conditions and queries ----------

  /** entity.Condition; Value stands for whatever the values are. */
  datatype Condition<Value> = Condition(key: string, op: string, value: Value)

  /** One entry of a bson query: a value to be equal to, or an operator document. */
  datatype Clause<Value> =
    | Equals(value: Value)
    | Ne(value: Value)
    | Regex(value: Value, options: string)
    | Not(clause: Clause<Value>)
    | In(value: Value)
    | Nin(value: Value)
    | Gt(value: Value)
    | Gte(value: Value)
    | Lt(value: Value)
    | Lte(value: Value)

  type Query<Value> = map<string, Clause<Value>>

  /** How the database compares a field, which may be missing, with a value. */
  datatype Semantics<!Value> = Semantics(
    equal: (Option<Value>, Value) -> bool,
    matches: (Option<Value>, Value, bool) -> bool,
    member: (Option<Value>, Value) -> bool,
    greater: (Option<Value>, Value) -> bool,
    greaterOrEqual: (Option<Value>, Value) -> bool,
    less: (Option<Value>, Value) -> bool,
    lessOrEqual: (Option<Value>, Value) -> bool)

  type Document<Value> = map<string, Value>

  function Field<Value>(doc: Document<Value>, key: string): Option<Value> {
    if key in doc then Some(doc[key]) else None
  }

  predicate Satisfies<Value>(s: Semantics<Value>, c: Clause<Value>, f: Option<Value>) {
    match c
    case Equals(v) => s.equal(f, v)
    case Ne(v) => !s.equal(f, v)
    case Regex(v, options) => s.matches(f, v, options == "i")
    case Not(d) => !Satisfies(s, d, f)
    case In(v) => s.member(f, v)
    case Nin(v) => !s.member(f, v)
    case Gt(v) => s.greater(f, v)
    case Gte(v) => s.greaterOrEqual(f, v)
    case Lt(v) => s.less(f, v)
    case Lte(v) => s.lessOrEqual(f, v)
  }

  /** A document matches a query if it satisfies all of its entries. */
  ghost predicate Selects<Value>(s: Semantics<Value>, q: Query<Value>, doc: Document<Value>) {
    forall key | key in q :: Satisfies(s, q[key], Field(doc, key))
  }

  // ---------- what the operators mean ----------

  const NOT_SET := "ns"

  const OPS := {"ns", "c", "nc", "r", "eq", "ne", "in", "nin", "gt", "lt", "gte", "lte", "s"}

  /** The condition itself. Contains, regex and search all take the value for a regular expression and ignore case;
      not-contains takes it for one, too, but does not ignore case. What that means for a value without special
      characters is said below. */
  predicate Holds<Value>(s: Semantics<Value>, c: Condition<Value>, doc: Document<Value>)
    requires c.op in OPS
  {
    var f := Field(doc, c.key);
    if c.op == "eq" then s.equal(f, c.value)
    else if c.op == "ne" then !s.equal(f, c.value)
    else if c.op == "c" || c.op == "r" || c.op == "s" then s.matches(f, c.value, true)
    else if c.op == "nc" then !s.matches(f, c.value, false)
    else if c.op == "in" then s.member(f, c.value)
    else if c.op == "nin" then !s.member(f, c.value)
    else if c.op == "gt" then s.greater(f, c.value)
    else if c.op == "gte" then s.greaterOrEqual(f, c.value)
    else if c.op == "lt" then s.less(f, c.value)
    else if c.op == "lte" then s.lessOrEqual(f, c.value)
    else true
  }

  // ---------- FilterToQuery ----------

  /** The position of the last condition on a key that is set; -1 if there is none. */
  function LastOn<Value>(conditions: seq<Condition<Value>>, key: string): (i: int)
    ensures -1 <= i < |conditions|
    ensures i >= 0 ==> conditions[i].key == key && conditions[i].op != NOT_SET
    ensures forall j | i < j < |conditions| :: conditions[j].key == key ==> conditions[j].op == NOT_SET
  {
    if conditions == [] then -1
    else
      var n := |conditions| - 1;
      if conditions[n].key == key && conditions[n].op != NOT_SET then n else LastOn(conditions[..n], key)
  }

  /** The entry for one condition is satisfied where the condition holds. */
  ghost predicate Translates<Value(!new)>(clause: Clause<Value>, c: Condition<Value>) {
    && c.op in OPS
    && forall s: Semantics<Value>, doc: Document<Value> ::
         Satisfies(s, clause, Field(doc, c.key)) <==> Holds(s, c, doc)
  }

  /** A query with just the last condition of each key. */
  ghost predicate Reflects<Value(!new)>(q: Query<Value>, conditions: seq<Condition<Value>>) {
    && (forall key :: key in q <==> LastOn(conditions, key) >= 0)
    && (forall key | key in q :: Translates(q[key], conditions[LastOn(conditions, key)]))
  }

  /** The switch for one condition. */
  method AddCondition<Value(!new)>(q: Query<Value>, c: Condition<Value>) returns (r: Result<Query<Value>>)
    ensures r.Err? <==> c.op !in OPS
    ensures r.Ok? && c.op == NOT_SET ==> r.value == q
    ensures r.Ok? && c.op != NOT_SET ==> exists clause :: Translates(clause, c) && r.value == q[c.key := clause]
  {
    var clause: Clause<Value>;
    match c.op {
      case "ns" => return Ok(q);
      case "eq" => clause := Equals(c.value);
      case "ne" => clause := Ne(c.value);
      case "c" => clause := Regex(c.value, "i");
      case "r" => clause := Regex(c.value, "i");
      case "s" => clause := Regex(c.value, "i");
      case "nc" => clause := Not(Regex(c.value, ""));
      case "in" => clause := In(c.value);
      case "nin" => clause := Nin(c.value);
      case "gt" => clause := Gt(c.value);
      case "gte" => clause := Gte(c.value);
      case "lt" => clause := Lt(c.value);
      case "lte" => clause := Lte(c.value);
      case _ => return Err;
    }
    assert Translates(clause, c);
    r := Ok(q[c.key := clause]);
  }

  lemma {:induction false} ReflectsOneMore<Value(!new)>(q: Query<Value>, conditions: seq<Condition<Value>>,
                                                        c: Condition<Value>, clause: Clause<Value>)
    requires Reflects(q, conditions) && Translates(clause, c)
    ensures Reflects(if c.op == NOT_SET then q else q[c.key := clause], conditions + [c])
  {
  }

  /** FilterToQuery; no filter gives no query. */
  method FilterToQuery<Value(!new)>(f: Option<seq<Condition<Value>>>) returns (r: Result<Option<Query<Value>>>)
    ensures f.None? ==> r == Ok(None)
    ensures f.Some? ==> (r.Err? <==> exists c | c in f.value :: c.op !in OPS)
    ensures f.Some? && r.Ok? ==> r.value.Some? && Reflects(r.value.value, f.value)
  {
    if f.None? { return Ok(None); }
    var conditions, q: Query<Value> := f.value, map[];
    for i := 0 to |conditions|
      invariant forall j | 0 <= j < i :: conditions[j].op in OPS
      invariant Reflects(q, conditions[..i])
    {
      var c := conditions[i];
      var next := AddCondition(q, c);
      if next.Err? { return Err; }
      assert conditions[..i + 1] == conditions[..i] + [c];
      NextReflects(q, conditions[..i], c, next.value);
      q := next.value;
    }
    assert conditions[..|conditions|] == conditions;
    r := Ok(Some(q));
  }

  lemma {:induction false} SkipsOneMore<Value(!new)>(q: Query<Value>, conditions: seq<Condition<Value>>,
                                                     c: Condition<Value>)
    requires Reflects(q, conditions) && c.op == NOT_SET
    ensures Reflects(q, conditions + [c])
  {
  }

  lemma NextReflects<Value(!new)>(q: Query<Value>, conditions: seq<Condition<Value>>, c: Condition<Value>,
                                  next: Query<Value>)
    requires Reflects(q, conditions) && (c.op == NOT_SET ==> next == q)
    requires c.op != NOT_SET ==> exists clause :: Translates(clause, c) && next == q[c.key := clause]
    ensures Reflects(next, conditions + [c])
  {
    if c.op != NOT_SET {
      var clause :| Translates(clause, c) && next == q[c.key := clause];
      ReflectsOneMore(q, conditions, c, clause);
    } else {
      SkipsOneMore(q, conditions, c);
    }
  }

  // ---------- what a query selects ----------

  /** A document matches exactly when, for each key, the last condition that is set on it holds. */
  lemma {:induction false} SelectsByLastConditions<Value(!new)>(s: Semantics<Value>, q: Query<Value>,
                                                                conditions: seq<Condition<Value>>, doc: Document<Value>)
    requires Reflects(q, conditions) && forall c | c in conditions :: c.op in OPS
    ensures Selects(s, q, doc)
            <==> forall i | 0 <= i < |conditions| && i == LastOn(conditions, conditions[i].key) ::
                   Holds(s, conditions[i], doc)
  {
    forall key | key in q
      ensures var i := LastOn(conditions, key); Satisfies(s, q[key], Field(doc, key)) <==> Holds(s, conditions[i], doc)
    {
      assert Translates(q[key], conditions[LastOn(conditions, key)]);
    }
    forall i | 0 <= i < |conditions| && i == LastOn(conditions, conditions[i].key) ensures conditions[i].key in q {
    }
    forall key | key in q ensures var i := LastOn(conditions, key); i == LastOn(conditions, conditions[i].key) {
    }
  }

  /** A condition that is set, but comes before another one on its key. */
  predicate Overridden<Value>(conditions: seq<Condition<Value>>, i: nat)
    requires i < |conditions|
  {
    conditions[i].op != NOT_SET && i != LastOn(conditions, conditions[i].key)
  }

  /** All conditions hold exactly when the query matches and the overridden ones hold as well; with distinct keys, the
      query is the conjunction of the conditions. */
  lemma {:induction false} SelectsTheConjunction<Value(!new)>(s: Semantics<Value>, q: Query<Value>,
                                                              conditions: seq<Condition<Value>>, doc: Document<Value>)
    requires Reflects(q, conditions) && forall c | c in conditions :: c.op in OPS
    ensures (forall c | c in conditions :: Holds(s, c, doc))
            <==> Selects(s, q, doc)
                 && forall i | 0 <= i < |conditions| && Overridden(conditions, i) :: Holds(s, conditions[i], doc)
    ensures (forall i, j | 0 <= i < j < |conditions| :: conditions[i].key != conditions[j].key)
            ==> forall i | 0 <= i < |conditions| :: !Overridden(conditions, i)
  {
    SelectsByLastConditions(s, q, conditions, doc);
    forall i | 0 <= i < |conditions|
      ensures Holds(s, conditions[i], doc) || Overridden(conditions, i) || i == LastOn(conditions, conditions[i].key)
    {
    }
  }

  lemma {:induction false} OnlyCondition<Value(!new)>(s: Semantics<Value>, q: Query<Value>, c: Condition<Value>,
                                                      doc: Document<Value>)
    requires Reflects(q, [c]) && c.op in OPS && c.op != NOT_SET
    ensures Selects(s, q, doc) <==> Holds(s, c, doc)
  {
    assert LastOn([c], c.key) == 0;
    SelectsByLastConditions(s, q, [c], doc);
  }

  /** What each operator selects by itself. Regex and search are the same as contains; a condition that is not set
      selects every document. */
  lemma {:induction false} EachOperator<Value(!new)>(s: Semantics<Value>, q: Query<Value>, key: string, op: string,
                                                     v: Value, doc: Document<Value>)
    requires Reflects(q, [Condition(key, op, v)])
    ensures op == "eq" ==> (Selects(s, q, doc) <==> s.equal(Field(doc, key), v))
    ensures op == "ne" ==> (Selects(s, q, doc) <==> !s.equal(Field(doc, key), v))
    ensures op == "in" ==> (Selects(s, q, doc) <==> s.member(Field(doc, key), v))
    ensures op == "nin" ==> (Selects(s, q, doc) <==> !s.member(Field(doc, key), v))
    ensures op == "gt" ==> (Selects(s, q, doc) <==> s.greater(Field(doc, key), v))
    ensures op == "gte" ==> (Selects(s, q, doc) <==> s.greaterOrEqual(Field(doc, key), v))
    ensures op == "lt" ==> (Selects(s, q, doc) <==> s.less(Field(doc, key), v))
    ensures op == "lte" ==> (Selects(s, q, doc) <==> s.lessOrEqual(Field(doc, key), v))
    ensures op == "c" || op == "r" || op == "s" ==> (Selects(s, q, doc) <==> s.matches(Field(doc, key), v, true))
    ensures op == "nc" ==> (Selects(s, q, doc) <==> !s.matches(Field(doc, key), v, false))
    ensures op == "ns" ==> q == map[] && Selects(s, q, doc)
  {
    if op in OPS && op != "ns" {
      OnlyCondition(s, q, Condition(key, op, v), doc);
    }
  }

  /** From and to on one key: only the later bound is kept. */
  lemma {:induction false} LowerBoundIsLost<Value(!new)>(s: Semantics<Value>, q: Query<Value>, key: string, from: Value,
                                                         to: Value, doc: Document<Value>)
    requires Reflects(q, [Condition(key, "gte", from), Condition(key, "lte", to)])
    ensures Selects(s, q, doc) <==> s.lessOrEqual(Field(doc, key), to)
  {
    var conditions := [Condition(key, "gte", from), Condition(key, "lte", to)];
    assert LastOn(conditions, key) == 1;
    SelectsByLastConditions(s, q, conditions, doc);
    assert Holds(s, conditions[1], doc) <==> s.lessOrEqual(Field(doc, key), to);
  }

  // ---------- contains and not-contains on text ----------

  const METACHARACTERS := "\\.+*?()|[]{}^$"

  /** A regular expression that stands for itself. */
  predicate Literal(v: string) {
    forall c | c in v :: c < 128 as char && c !in METACHARACTERS
  }

  predicate IsAscii(s: string) {
    forall c | c in s :: c < 128 as char
  }

  function LowerChar(c: char): char {
    if 'A' <= c <= 'Z' then c + 32 as char else c
  }

  function Lower(s: string): (r: string)
    ensures |r| == |s| && forall i | 0 <= i < |s| :: r[i] == LowerChar(s[i])
  {
    if s == "" then "" else [LowerChar(s[0])] + Lower(s[1..])
  }

  /** On ASCII text, the database finds a regular expression without special characters where it occurs. */
  ghost predicate ReadsLiterals(s: Semantics<string>) {
    forall f: Option<string>, v: string | Literal(v) && (f.Some? ==> IsAscii(f.value)) ::
      && (s.matches(f, v, false) <==> f.Some? && Occurs(f.value, v))
      && (s.matches(f, v, true) <==> f.Some? && Occurs(Lower(f.value), Lower(v)))
  }

  ghost predicate IsAsciiField(doc: Document<string>, key: string) {
    key in doc ==> IsAscii(doc[key])
  }

  /** "c" means contains, ignoring case. */
  lemma {:induction false} ContainsIgnoresCase(s: Semantics<string>, q: Query<string>, key: string, v: string,
                                               doc: Document<string>)
    requires ReadsLiterals(s) && Literal(v) && IsAsciiField(doc, key) && Reflects(q, [Condition(key, "c", v)])
    ensures Selects(s, q, doc) <==> key in doc && Occurs(Lower(doc[key]), Lower(v))
  {
    OnlyCondition(s, q, Condition(key, "c", v), doc);
  }

  /** "nc" means does not contain, in exactly this case. */
  lemma {:induction false} NotContainsMindsCase(s: Semantics<string>, q: Query<string>, key: string, v: string,
                                                doc: Document<string>)
    requires ReadsLiterals(s) && Literal(v) && IsAsciiField(doc, key) && Reflects(q, [Condition(key, "nc", v)])
    ensures Selects(s, q, doc) <==> !(key in doc && Occurs(doc[key], v))
  {
    OnlyCondition(s, q, Condition(key, "nc", v), doc);
  }

  lemma LowerOccurs(s: string, v: string)
    requires Occurs(s, v)
    ensures Occurs(Lower(s), Lower(v))
  {
    var i :| 0 <= i <= |s| && OccursAt(s, v, i);
    forall k | 0 <= k < |v| ensures Lower(s)[i..i + |v|][k] == Lower(v)[k] {
      assert s[i + k] == s[i..i + |v|][k] == v[k];
    }
    assert OccursAt(Lower(s), Lower(v), i);
  }

  /** So "nc" is not the negation of "c": every document satisfies one of them, and both are satisfied by exactly those
      in which the value occurs in another case only. */
  lemma {:induction false} NotContainsIsNoNegation(s: Semantics<string>, contains: Query<string>,
                                                   lacks: Query<string>, key: string, v: string, doc: Document<string>)
    requires ReadsLiterals(s) && Literal(v) && IsAsciiField(doc, key)
    requires Reflects(contains, [Condition(key, "c", v)]) && Reflects(lacks, [Condition(key, "nc", v)])
    ensures Selects(s, contains, doc) || Selects(s, lacks, doc)
    ensures Selects(s, contains, doc) && Selects(s, lacks, doc)
            <==> key in doc && Occurs(Lower(doc[key]), Lower(v)) && !Occurs(doc[key], v)
  {
    ContainsIgnoresCase(s, contains, key, v, doc);
    NotContainsMindsCase(s, lacks, key, v, doc);
    if key in doc && Occurs(doc[key], v) {
      LowerOccurs(doc[key], v);
    }
  }

  lemma {:induction false} AbcIsLiteral()
    ensures Literal("abc") && IsAscii("ABC")
  {
  }

  lemma {:induction false} AbcOccurs()
    ensures !Occurs("ABC", "abc") && Occurs(Lower("ABC"), Lower("abc"))
  {
    MissingChar("ABC", "abc", 0);
    LowerWhole("ABC", "abc");
  }

  lemma {:induction false} LowerWhole(s: string, v: string)
    requires |s| == |v| && forall i | 0 <= i < |s| :: LowerChar(s[i]) == LowerChar(v[i])
    ensures Occurs(Lower(s), Lower(v))
  {
    assert Lower(s) == Lower(v);
    assert OccursAt(Lower(s), Lower(v), 0);
  }

  /** For one, the text ABC and the value abc. */
  lemma {:induction false} BothSelectAbc(s: Semantics<string>, contains: Query<string>, lacks: Query<string>,
                                         key: string, text: string, v: string)
    requires ReadsLiterals(s) && text == "ABC" && v == "abc"
    requires Reflects(contains, [Condition(key, "c", v)]) && Reflects(lacks, [Condition(key, "nc", v)])
    ensures Selects(s, contains, map[key := text]) && Selects(s, lacks, map[key := text])
  {
    AbcIsLiteral();
    AbcOccurs();
    NotContainsIsNoNegation(s, contains, lacks, key, v, map[key := text]);
  }
}
