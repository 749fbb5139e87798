/** Bson documents (core/utils/bson.go): comparison of nested documents, and the conversion between object ids and
    their hexadecimal text. */
module BsonDocs {
  import opened Hex
  import opened Wrappers

  type ObjectId = b: Bytes | |b| == 12 witness seq(12, _ => 0)

  /** A bson value: scalars, object ids, nested documents (a nil document counts as empty), and arrays. */
  datatype Value =
    | Nil
    | Str(text: string)
    | Number(n: int)
    | Id(id: ObjectId)
    | Doc(fields: map<string, Value>)
    | NilArray
    | Array(items: seq<Value>)
  {
    predicate IsArray() {
      NilArray? || Array?
    }
  }

  const EMPTY := Doc(map[])

  // ---------- bsonMEqual ----------

  /** What the comparison of two fields comes down to. A document is compared with nothing, and an array with the nil
      array, when the other side is a scalar. */
  ghost predicate BsonEqual(v: Value, w: Value)
    decreases v
  {
    if v.Doc? then
      && !w.IsArray()
      && var others := if w.Doc? then w.fields else map[];
         v.fields.Keys == others.Keys && forall k | k in v.fields :: BsonEqual(v.fields[k], others[k])
    else if v.IsArray() then
      !w.Doc? && v == if w.IsArray() then w else NilArray
    else
      v == w
  }

  method BsonMEqual(v1: map<string, Value>, v2: map<string, Value>) returns (ok: bool)
    ensures ok <==> BsonEqual(Doc(v1), Doc(v2))
    decreases Doc(v1)
  {
    var todo := v1.Keys + v2.Keys;
    while todo != {}
      invariant todo <= v1.Keys + v2.Keys
      invariant forall k | k in v1.Keys + v2.Keys - todo :: k in v1 && k in v2 && BsonEqual(v1[k], v2[k])
      decreases |todo|
    {
      var key :| key in todo;
      todo := todo - {key};
      if key !in v1 || key !in v2 { return false; }
      var v1Value, v2Value := v1[key], v2[key];
      if v2Value.Doc? && !v1Value.Doc? { return false; }
      if v2Value.IsArray() && !v1Value.IsArray() { return false; }
      if v1Value.Doc? {
        var same := BsonMEqual(v1Value.fields, if v2Value.Doc? then v2Value.fields else map[]);
        if !same { return false; }
      } else if v1Value.IsArray() {
        if v1Value != if v2Value.IsArray() then v2Value else NilArray { return false; }
      } else if v1Value != v2Value {
        return false;
      }
    }
    ok := true;
  }

  // ---------- ... is a partial order ----------

  lemma {:induction false} Reflexive(v: Value)
    ensures BsonEqual(v, v)
    decreases v
  {
    if v.Doc? {
      forall k | k in v.fields ensures BsonEqual(v.fields[k], v.fields[k]) {
        Reflexive(v.fields[k]);
      }
    }
  }

  lemma {:induction false} Transitive(u: Value, v: Value, w: Value)
    requires BsonEqual(u, v) && BsonEqual(v, w)
    ensures BsonEqual(u, w)
    decreases u
  {
    if u.Doc? && v.Doc? {
      var others := if w.Doc? then w.fields else map[];
      forall k | k in u.fields ensures k in others && BsonEqual(u.fields[k], others[k]) {
        Transitive(u.fields[k], v.fields[k], others[k]);
      }
    }
  }

  /** Compared both ways round, only identical documents are equal. */
  lemma {:induction false} Antisymmetric(v: Value, w: Value)
    ensures BsonEqual(v, w) && BsonEqual(w, v) <==> v == w
    decreases v
  {
    Reflexive(v);
    if BsonEqual(v, w) && BsonEqual(w, v) && v.Doc? {
      assert w.Doc?;
      forall k | k in v.fields ensures k in w.fields && v.fields[k] == w.fields[k] {
        Antisymmetric(v.fields[k], w.fields[k]);
      }
      assert v.fields == w.fields;
    }
  }

  // ---------- ... and equality where nothing nested is empty ----------

  /** Every nested document has a field, and no nested array is nil. */
  ghost predicate Solid(v: Value)
    decreases v
  {
    v.Doc? ==> forall k | k in v.fields :: v.fields[k] != EMPTY && v.fields[k] != NilArray && Solid(v.fields[k])
  }

  lemma {:induction false} SolidIsEqual(v: Value, w: Value)
    requires Solid(v) && BsonEqual(v, w) && ((v.Doc? && w.Doc?) || (v != EMPTY && v != NilArray))
    ensures v == w
    decreases v
  {
    if v.Doc? {
      assert v.fields == map[] ==> v == EMPTY;
      assert w.Doc?;
      forall k | k in v.fields ensures k in w.fields && v.fields[k] == w.fields[k] {
        SolidIsEqual(v.fields[k], w.fields[k]);
      }
      assert v.fields == w.fields;
    }
  }

  /** Something empty can be exchanged for nil. */
  lemma {:induction false} Exchanged(v: Value) returns (w: Value)
    requires v.Doc? && !Solid(v)
    ensures w.Doc? && w != v && BsonEqual(v, w)
    decreases v
  {
    var k :| k in v.fields && (v.fields[k] == EMPTY || v.fields[k] == NilArray || !Solid(v.fields[k]));
    var other := Nil;
    if Solid(v.fields[k]) {
      assert BsonEqual(v.fields[k], Nil);
    } else {
      other := Exchanged(v.fields[k]);
    }
    w := Doc(v.fields[k := other]);
    assert w.fields[k] != v.fields[k];
    forall j | j in v.fields ensures BsonEqual(v.fields[j], w.fields[j]) {
      if j != k { Reflexive(v.fields[j]); }
    }
  }

  /** BsonMEqual decides equality with a document exactly when nothing nested in it is empty. */
  lemma {:induction false} DecidesEqualityExactlyWhenSolid(m: map<string, Value>)
    ensures (forall n: map<string, Value> :: BsonEqual(Doc(m), Doc(n)) <==> m == n) <==> Solid(Doc(m))
  {
    Reflexive(Doc(m));
    if Solid(Doc(m)) {
      forall n: map<string, Value> | BsonEqual(Doc(m), Doc(n)) ensures m == n {
        SolidIsEqual(Doc(m), Doc(n));
      }
    } else {
      var w := Exchanged(Doc(m));
      assert w == Doc(w.fields);
    }
  }

  /** An empty document equals a number, which does not equal it. */
  lemma EmptyEqualsScalar(key: string)
    ensures BsonEqual(Doc(map[key := EMPTY]), Doc(map[key := Number(5)]))
    ensures !BsonEqual(Doc(map[key := Number(5)]), Doc(map[key := EMPTY]))
  {
    var v, w := Doc(map[key := EMPTY]), Doc(map[key := Number(5)]);
    assert BsonEqual(v.fields[key], w.fields[key]);
    assert !BsonEqual(w.fields[key], v.fields[key]);
  }

  // ---------- object ids ----------

  /** primitive.ObjectIDFromHex: 24 hexadecimal digits. */
  function ObjectIDFromHex(s: string): Option<ObjectId> {
    var b := DecodeString(s);
    if b.Some? && |b.value| == 12 then Some(b.value) else None
  }

  function NormalizeObjectId(v: Value): Value {
    if v.Str? && ObjectIDFromHex(v.text).Some? then Id(ObjectIDFromHex(v.text).value) else v
  }

  /** Every text of an object id turned into the id, at every depth of documents; arrays are not entered. */
  function Normalized(v: Value): Value
    decreases v
  {
    if v.Doc? then Doc(map k | k in v.fields :: Normalized(v.fields[k])) else NormalizeObjectId(v)
  }

  /** Ids of the document itself turned into text, but nested documents normalized. */
  function Denormalized(v: Value): Value
    requires v.Doc?
  {
    Doc(map k | k in v.fields :: DenormalizedField(v.fields[k]))
  }

  function DenormalizedField(v: Value): Value {
    match v
    case Id(b) => Str(EncodeToString(b))
    case Doc(_) => Normalized(v)
    case _ => v
  }

  /** NormalizeBsonMObjectId: the map is overwritten key by key, in any order. */
  method NormalizeBsonMObjectId(m: map<string, Value>) returns (res: map<string, Value>)
    ensures Doc(res) == Normalized(Doc(m))
    decreases Doc(m)
  {
    res := m;
    var todo := m.Keys;
    while todo != {}
      invariant todo <= m.Keys && res.Keys == m.Keys
      invariant forall k | k in todo :: res[k] == m[k]
      invariant forall k | k in m && k !in todo :: res[k] == Normalized(m[k])
      decreases |todo|
    {
      var k :| k in todo;
      todo := todo - {k};
      if m[k].Str? {
        var oid := ObjectIDFromHex(m[k].text);
        if oid.Some? { res := res[k := Id(oid.value)]; }
      } else if m[k].Doc? {
        var nested := NormalizeBsonMObjectId(m[k].fields);
        res := res[k := Doc(nested)];
      }
    }
    SameFields(res, Normalized(Doc(m)).fields);
  }

  method DenormalizeBsonMObjectId(m: map<string, Value>) returns (res: map<string, Value>)
    ensures Doc(res) == Denormalized(Doc(m))
  {
    res := m;
    var todo := m.Keys;
    while todo != {}
      invariant todo <= m.Keys && res.Keys == m.Keys
      invariant forall k | k in todo :: res[k] == m[k]
      invariant forall k | k in m && k !in todo :: res[k] == DenormalizedField(m[k])
      decreases |todo|
    {
      var k :| k in todo;
      todo := todo - {k};
      if m[k].Id? {
        res := res[k := Str(EncodeToString(m[k].id))];
      } else if m[k].Doc? {
        var nested := NormalizeBsonMObjectId(m[k].fields);
        res := res[k := Doc(nested)];
      }
    }
    SameFields(res, Denormalized(Doc(m)).fields);
  }

  lemma SameFields(a: map<string, Value>, b: map<string, Value>)
    requires a.Keys == b.Keys && forall k | k in a :: a[k] == b[k]
    ensures a == b
  {
  }

  lemma {:induction false} IdFromItsText(b: ObjectId)
    ensures ObjectIDFromHex(EncodeToString(b)) == Some(b)
  {
    HexRoundTrip(b);
  }

  /** No text of an object id at any depth of documents. */
  ghost predicate FreeOfIdText(v: Value)
    decreases v
  {
    if v.Doc? then forall k | k in v.fields :: FreeOfIdText(v.fields[k])
    else v.Str? ==> ObjectIDFromHex(v.text).None?
  }

  /** Normalizing leaves no such text, and a document without one as it is. */
  lemma {:induction false} NormalizedExactlyWhen(v: Value)
    ensures FreeOfIdText(Normalized(v))
    ensures Normalized(v) == v <==> FreeOfIdText(v)
    decreases v
  {
    if v.Doc? {
      var n := Normalized(v);
      forall k | k in v.fields
        ensures FreeOfIdText(n.fields[k]) && (n.fields[k] == v.fields[k] <==> FreeOfIdText(v.fields[k]))
      {
        NormalizedExactlyWhen(v.fields[k]);
      }
      assert n == v <==> n.fields == v.fields;
    }
  }

  lemma {:induction false} NormalizeIsIdempotent(v: Value)
    ensures Normalized(Normalized(v)) == Normalized(v)
    decreases v
  {
    if v.Doc? {
      var once := Normalized(v);
      forall k | k in v.fields ensures Normalized(once.fields[k]) == once.fields[k] {
        NormalizeIsIdempotent(v.fields[k]);
      }
      assert Normalized(once).fields == once.fields;
    }
  }

  /** A denormalized document and the document itself have the same normal form. */
  lemma {:induction false} NormalizeAfterDenormalize(v: Value)
    requires v.Doc?
    ensures Normalized(Denormalized(v)) == Normalized(v)
  {
    var d := Denormalized(v);
    forall k | k in v.fields ensures Normalized(d.fields[k]) == Normalized(v.fields[k]) {
      match v.fields[k]
      case Id(b) => IdFromItsText(b);
      case Doc(_) => NormalizeIsIdempotent(v.fields[k]);
      case _ =>
    }
    assert Normalized(d).fields == Normalized(v).fields;
  }

  /** The text of an object id with an upper-case digit. */
  predicate UpperId(v: Value) {
    v.Str? && ObjectIDFromHex(v.text).Some? && IsUpper(v.text)
  }

  lemma {:induction false} FieldAfterNormalize(v: Value)
    ensures DenormalizedField(Normalized(v)) == DenormalizedField(v) <==> !UpperId(v)
  {
    if v.Doc? {
      assert Normalized(v).Doc?;
      NormalizeIsIdempotent(v);
    } else if v.Str? && ObjectIDFromHex(v.text).Some? {
      assert Normalized(v) == Id(ObjectIDFromHex(v.text).value);
      DecodeThenEncode(v.text);
    } else {
      assert Normalized(v) == v;
    }
  }

  /** A normalized document and the document itself denormalize to the same, exactly when no id was written in upper
      case. */
  lemma {:induction false} DenormalizeAfterNormalize(v: Value)
    requires v.Doc?
    ensures Denormalized(Normalized(v)) == Denormalized(v) <==> forall k | k in v.fields :: !UpperId(v.fields[k])
  {
    var n := Normalized(v);
    forall k | k in v.fields ensures Denormalized(n).fields[k] == Denormalized(v).fields[k] <==> !UpperId(v.fields[k]) {
      FieldAfterNormalize(v.fields[k]);
    }
    assert Denormalized(n).fields.Keys == Denormalized(v).fields.Keys;
    if forall k | k in v.fields :: !UpperId(v.fields[k]) {
      assert Denormalized(n).fields == Denormalized(v).fields;
    }
  }

  /** The text of 24 letters A is an object id; denormalizing keeps it, and after normalizing gives another text. */
  lemma {:induction false} UpperIdIsRewritten(key: string)
    ensures var v := Doc(map[key := Str(seq(24, _ => 'A'))]);
            Denormalized(v) == v && Denormalized(Normalized(v)) != v
  {
    var text := seq(24, _ => 'A');
    var v := Doc(map[key := Str(text)]);
    DecodeUpper(12);
    assert text == seq(2 * 12, _ => 'A');
    assert 'A' <= text[0] <= 'F' && IsUpper(text);
    assert UpperId(v.fields[key]);
    assert Denormalized(v).fields == v.fields;
    DenormalizeAfterNormalize(v);
  }

  /** An object id anywhere in the nested documents. */
  ghost predicate HasId(v: Value)
    decreases v
  {
    v.Id? || (v.Doc? && exists k | k in v.fields :: HasId(v.fields[k]))
  }

  /** An object id, or the text of one. */
  ghost predicate HasIdOrText(v: Value)
    decreases v
  {
    NormalizeObjectId(v).Id? || (v.Doc? && exists k | k in v.fields :: HasIdOrText(v.fields[k]))
  }

  lemma {:induction false} NormalizedHasId(v: Value)
    ensures HasId(Normalized(v)) <==> HasIdOrText(v)
    decreases v
  {
    if v.Doc? {
      var n := Normalized(v);
      forall k | k in v.fields ensures HasId(n.fields[k]) <==> HasIdOrText(v.fields[k]) {
        NormalizedHasId(v.fields[k]);
      }
      assert n.fields.Keys == v.fields.Keys;
      assert HasId(n) <==> exists k | k in v.fields :: HasId(n.fields[k]);
    }
  }

  /** Denormalizing leaves no object id exactly when nested documents had neither ids nor texts of ids. */
  lemma {:induction false} DenormalizedHasId(v: Value)
    requires v.Doc?
    ensures HasId(Denormalized(v)) <==> exists k | k in v.fields :: v.fields[k].Doc? && HasIdOrText(v.fields[k])
  {
    var d := Denormalized(v);
    forall k | k in v.fields ensures HasId(d.fields[k]) <==> v.fields[k].Doc? && HasIdOrText(v.fields[k]) {
      if v.fields[k].Doc? { NormalizedHasId(v.fields[k]); }
    }
    assert d.fields.Keys == v.fields.Keys;
    assert HasId(d) <==> exists k | k in v.fields :: HasId(d.fields[k]);
  }

  /** For one, an id in a nested document is left as it is. */
  lemma {:induction false} NestedIdIsLeft(outer: string, inner: string, b: ObjectId)
    ensures var v := Doc(map[outer := Doc(map[inner := Id(b)])]);
            Denormalized(v) == v && HasId(v)
  {
    var nested := Doc(map[inner := Id(b)]);
    var v := Doc(map[outer := nested]);
    assert Normalized(nested).fields == nested.fields;
    assert Denormalized(v).fields == v.fields;
    assert HasId(nested.fields[inner]);
    assert HasId(v.fields[outer]);
  }
}
