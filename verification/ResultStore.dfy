/** The result service over MongoDB (core/result/service_mongo.go): results are inserted, and with deduplication
    enabled a hash of chosen fields decides whether a result is new. */
module ResultStore {
  import opened Wrappers

  datatype Value = Nil | Text(text: string) | Number(n: int)
  type Document = map<string, Value>

  const HASH_KEY := "_h"
  const OVERWRITE := "overwrite"

  /** What a query for a hash compares with; no document without the field matches. */
  function HashOf(d: Document): Option<Value> {
    if HASH_KEY in d then Some(d[HASH_KEY]) else None
  }

  predicate HasHash(d: Document, h: string) {
    HashOf(d) == Some(Text(h))
  }

  // ---------- the collection ----------

  function Find(docs: seq<Document>, h: string): (i: nat)
    ensures i <= |docs| && (i < |docs| ==> HasHash(docs[i], h))
    ensures forall j | 0 <= j < i :: !HasHash(docs[j], h)
  {
    if docs == [] || HasHash(docs[0], h) then 0 else 1 + Find(docs[1..], h)
  }

  datatype Found = Exists | NoDocuments | Failed

  /** The mongo collection: each request may fail, and then changes nothing; an insertion of many may stop halfway. */
  class Collection {
    var docs: seq<Document>
    var requests: nat
    const fails: nat -> bool
    const inserted: nat -> nat

    /** Some request since the given one failed. */
    ghost predicate Faulted(since: nat)
      reads this
    {
      exists n: nat | since < n <= requests :: fails(n)
    }

    method FindOne(h: string) returns (r: Found)
      modifies `requests
      ensures requests == old(requests) + 1
      ensures r == if fails(requests) then Failed else if Find(docs, h) < |docs| then Exists else NoDocuments
    {
      requests := requests + 1;
      r := if fails(requests) then Failed else if Find(docs, h) < |docs| then Exists else NoDocuments;
    }

    method InsertOne(d: Document) returns (ok: bool)
      modifies this
      ensures requests == old(requests) + 1 && ok == !fails(requests)
      ensures docs == if ok then old(docs) + [d] else old(docs)
    {
      requests := requests + 1;
      ok := !fails(requests);
      if ok { docs := docs + [d]; }
    }

    /** ReplaceOne with upsert: the first match is replaced, or the document added. */
    method ReplaceOne(h: string, d: Document) returns (ok: bool)
      modifies this
      ensures requests == old(requests) + 1 && ok == !fails(requests)
      ensures var i := Find(old(docs), h);
              docs == if !ok then old(docs) else if i < |old(docs)| then old(docs)[i := d] else old(docs) + [d]
    {
      requests := requests + 1;
      ok := !fails(requests);
      var i := Find(docs, h);
      if ok { docs := if i < |docs| then docs[i := d] else docs + [d]; }
    }

    method InsertMany(ds: seq<Document>) returns (ok: bool)
      modifies this
      ensures requests == old(requests) + 1 && ok == !fails(requests)
      ensures exists n | 0 <= n <= |ds| :: docs == old(docs) + ds[..n] && (ok ==> n == |ds|)
    {
      requests := requests + 1;
      ok := !fails(requests);
      var n := if ok || inserted(requests) > |ds| then |ds| else inserted(requests);
      docs := docs + ds[..n];
    }
  }

  // ---------- the service ----------

  /** The effect of one document that carries a hash. */
  function Put(dedupType: string, docs: seq<Document>, d: Document): seq<Document>
    requires HASH_KEY in d && d[HASH_KEY].Text?
  {
    var i := Find(docs, d[HASH_KEY].text);
    if i == |docs| then docs + [d]
    else if dedupType == OVERWRITE then docs[i := d]
    else docs
  }

  predicate Tagged(d: Document) {
    HASH_KEY in d && d[HASH_KEY].Text?
  }

  predicate AllTagged(batch: seq<Document>) {
    forall i | 0 <= i < |batch| :: Tagged(batch[i])
  }

  function PutAll(dedupType: string, docs: seq<Document>, batch: seq<Document>): seq<Document>
    requires AllTagged(batch)
  {
    if batch == [] then docs
    else
      var n := |batch| - 1;
      Put(dedupType, PutAll(dedupType, docs, batch[..n]), batch[n])
  }

  lemma {:induction false} PutOneMore(dedupType: string, docs: seq<Document>, batch: seq<Document>, d: Document)
    requires AllTagged(batch) && Tagged(d)
    ensures PutAll(dedupType, docs, batch + [d]) == Put(dedupType, PutAll(dedupType, docs, batch), d)
  {
  }

  /** A result as the spiders send it, interfaces.Result. */
  class Result {
    var value: Document
    constructor (value: Document) { this.value := value; }
  }

  ghost function Values(docs: seq<Result>): (s: seq<Document>)
    reads docs
    ensures |s| == |docs|
  {
    seq(|docs|, i requires 0 <= i < |docs| reads docs => docs[i].value)
  }

  class ServiceMongo {
    const col: Collection
    var enabled: bool
    var keys: seq<string>
    var dedupType: string
    /** json.Marshal and MD5; no hash when a value cannot be marshalled. */
    const hash: map<string, Value> -> Option<string>

    constructor (col: Collection, hash: map<string, Value> -> Option<string>)
      ensures this.col == col && this.hash == hash
    {
      this.col, this.hash := col, hash;
      enabled, keys, dedupType := false, [], "ignore";
    }

    /** utils.GetResultHash; a missing field counts as nil. */
    function GetResultHash(d: Document): Option<string>
      reads this
    {
      hash(map k | k in keys :: if k in d then d[k] else Nil)
    }

    /** Different fields have different hashes. */
    ghost predicate HashIsInjective() {
      forall m, n :: hash(m).Some? && hash(m) == hash(n) ==> m == n
    }

    /** Two documents have the same value in every key, where a missing field is nil. */
    ghost predicate Agree(d: Document, e: Document)
      reads this
    {
      forall k | k in keys :: (if k in d then d[k] else Nil) == (if k in e then e[k] else Nil)
    }

    /** The values of the keys decide the hash, and nothing else does. */
    lemma HashesAgreeExactlyWhen(d: Document, e: Document)
      requires HashIsInjective() && GetResultHash(d).Some?
      ensures GetResultHash(d) == GetResultHash(e) <==> Agree(d, e)
    {
      var m := map k | k in keys :: if k in d then d[k] else Nil;
      var n := map k | k in keys :: if k in e then e[k] else Nil;
      assert m.Keys == n.Keys == set k | k in keys;
      assert m == n <==> forall k | k in keys :: m[k] == n[k];
    }

    /** The document with its hash set. */
    function Tag(d: Document): Document
      reads this
    {
      var h := GetResultHash(d);
      if h.Some? then d[HASH_KEY := Text(h.value)] else d
    }

    /** The document docs[i] after n rounds of the loop: its hash was set in every round for that same document. */
    ghost function Current(docs: seq<Result>, was: seq<Document>, n: nat, i: nat): Document
      requires n <= |docs| == |was| && i < |docs|
      reads this
    {
      if n == 0 then was[i]
      else if docs[n - 1] == docs[i] then Tag(Current(docs, was, n - 1, i))
      else Current(docs, was, n - 1, i)
    }

    ghost predicate AllHashed(docs: seq<Result>, was: seq<Document>, n: nat)
      requires n <= |docs| == |was|
      reads this
    {
      forall i | 0 <= i < n :: GetResultHash(Current(docs, was, i, i)).Some?
    }

    /** What the first n rounds send. */
    ghost function Sent(docs: seq<Result>, was: seq<Document>, n: nat): (r: seq<Document>)
      requires n <= |docs| == |was| && AllHashed(docs, was, n)
      reads this
      ensures |r| == n && AllTagged(r)
    {
      if n == 0 then [] else Sent(docs, was, n - 1) + [Tag(Current(docs, was, n - 1, n - 1))]
    }

    lemma {:induction false} PutSent(before: seq<Document>, docs: seq<Result>, was: seq<Document>, n: nat)
      requires n < |docs| == |was| && AllHashed(docs, was, n) && GetResultHash(Current(docs, was, n, n)).Some?
      ensures AllHashed(docs, was, n + 1)
      ensures PutAll(dedupType, before, Sent(docs, was, n + 1))
              == Put(dedupType, PutAll(dedupType, before, Sent(docs, was, n)), Tag(Current(docs, was, n, n)))
    {
      PutOneMore(dedupType, before, Sent(docs, was, n), Tag(Current(docs, was, n, n)));
    }

    /** Setting the hash a second time changes nothing, unless the hash itself is one of the hashed fields. */
    lemma TagTwice(d: Document)
      requires HASH_KEY !in keys
      ensures GetResultHash(Tag(d)) == GetResultHash(d) && Tag(Tag(d)) == Tag(d)
    {
      var t := Tag(d);
      assert (map k | k in keys :: if k in t then t[k] else Nil) == (map k | k in keys :: if k in d then d[k] else Nil);
    }

    lemma {:induction false} CurrentIs(docs: seq<Result>, was: seq<Document>, n: nat, i: nat)
      requires n <= |docs| == |was| && i < |docs| && HASH_KEY !in keys
      ensures Current(docs, was, n, i) == if docs[i] in docs[..n] then Tag(was[i]) else was[i]
    {
      if n > 0 {
        assert docs[..n] == docs[..n - 1] + [docs[n - 1]];
        CurrentIs(docs, was, n - 1, i);
        TagTwice(was[i]);
      }
    }

    /** Even if a batch holds the same document several times, each round sends the document with its hash. */
    lemma {:induction false} SentIs(docs: seq<Result>, was: seq<Document>, n: nat)
      requires n <= |docs| == |was| && HASH_KEY !in keys
      ensures AllHashed(docs, was, n) <==> forall i | 0 <= i < n :: GetResultHash(was[i]).Some?
      ensures AllHashed(docs, was, n) ==> forall i | 0 <= i < n :: Sent(docs, was, n)[i] == Tag(was[i])
    {
      forall i | 0 <= i < n
        ensures GetResultHash(Current(docs, was, i, i)) == GetResultHash(was[i])
        ensures Tag(Current(docs, was, i, i)) == Tag(was[i])
      {
        CurrentIs(docs, was, i, i);
        TagTwice(was[i]);
      }
      if n > 0 {
        SentIs(docs, was, n - 1);
      }
    }

    /** The collection after some rounds, and the documents with their hashes. */
    ghost predicate Applied(before: seq<Document>, was: seq<Document>, docs: seq<Result>, done: nat)
      requires |was| == |docs| && done <= |docs|
      reads this, col, docs
    {
      && AllHashed(docs, was, done)
      && col.docs == PutAll(dedupType, before, Sent(docs, was, done))
      && forall i | 0 <= i < |docs| :: docs[i].value == Current(docs, was, done, i)
    }

    /** The same, but the next round has failed, perhaps after setting the hash. */
    ghost predicate FailedAt(before: seq<Document>, was: seq<Document>, docs: seq<Result>, done: nat)
      requires |was| == |docs| && done < |docs|
      reads this, col, docs
    {
      && AllHashed(docs, was, done)
      && col.docs == PutAll(dedupType, before, Sent(docs, was, done))
      && forall i | 0 <= i < |docs| ::
           docs[i].value == Current(docs, was, done, i) || docs[i].value == Current(docs, was, done + 1, i)
    }

    /** The body of the loop over docs. */
    method InsertDeduplicated(doc: Result) returns (ok: bool)
      modifies col, doc
      ensures ok ==> GetResultHash(old(doc.value)).Some? && doc.value == Tag(old(doc.value))
      ensures ok ==> Tagged(doc.value) && col.docs == Put(dedupType, old(col.docs), doc.value)
      ensures !ok ==> col.docs == old(col.docs) && (doc.value == old(doc.value) || doc.value == Tag(old(doc.value)))
      ensures old(col.requests) <= col.requests
      ensures !ok ==> GetResultHash(old(doc.value)).None? || col.Faulted(old(col.requests))
    {
      var hash := GetResultHash(doc.value);
      if hash.None? { return false; }
      doc.value := doc.value[HASH_KEY := Text(hash.value)];
      if dedupType == OVERWRITE {
        ok := col.ReplaceOne(hash.value, doc.value);
      } else {
        var found := col.FindOne(hash.value);
        if found.Exists? { return true; }
        if found.Failed? { return false; }
        ok := col.InsertOne(doc.value);
      }
    }

    /** One round of the loop. */
    method InsertNext(docs: seq<Result>, n: nat, ghost before: seq<Document>, ghost was: seq<Document>)
        returns (ok: bool)
      requires n < |docs| == |was| && Applied(before, was, docs, n)
      modifies col, docs[n]
      ensures if ok then Applied(before, was, docs, n + 1) else FailedAt(before, was, docs, n)
      ensures old(col.requests) <= col.requests
      ensures !ok ==> GetResultHash(Current(docs, was, n, n)).None? || col.Faulted(old(col.requests))
    {
      assert docs[n].value == Current(docs, was, n, n);
      assert forall i | 0 <= i < |docs| && docs[i] == docs[n] :: Current(docs, was, n, i) == Current(docs, was, n, n);
      ok := InsertDeduplicated(docs[n]);
      assert forall i | 0 <= i < |docs| && docs[i] != docs[n] :: docs[i].value == old(docs[i].value);
      if ok {
        PutSent(before, docs, was, n);
      }
    }

    /** Insert with deduplication: an error leaves exactly the documents before it applied. */
    method InsertAllDeduplicated(docs: seq<Result>) returns (ok: bool, ghost done: nat)
      modifies col, docs
      ensures done <= |docs| && (ok <==> done == |docs|)
      ensures ok ==> Applied(old(col.docs), old(Values(docs)), docs, done)
      ensures !ok ==> FailedAt(old(col.docs), old(Values(docs)), docs, done)
      ensures !ok ==> GetResultHash(Current(docs, old(Values(docs)), done, done)).None?
                      || col.Faulted(old(col.requests))
    {
      ghost var was := Values(docs);
      done := 0;
      for n := 0 to |docs|
        invariant done == n
        invariant Applied(old(col.docs), was, docs, n) && old(col.requests) <= col.requests
      {
        ok := InsertNext(docs, n, old(col.docs), was);
        if !ok { return; }
        done := n + 1;
      }
      ok := true;
    }

    /** Those of the first n documents that share no hash with the collection and agree with none before. */
    ghost function FirstOnes(before: seq<Document>, was: seq<Document>, n: nat): seq<Document>
      requires n <= |was|
      reads this
    {
      if n == 0 then []
      else FirstOnes(before, was, n - 1) + if IsFirst(before, was, n - 1) then [Tag(was[n - 1])] else []
    }

    ghost predicate IsFirst(before: seq<Document>, was: seq<Document>, n: nat)
      requires n < |was|
      reads this
    {
      && (forall d | d in before && GetResultHash(was[n]).Some? :: !HasHash(d, GetResultHash(was[n]).value))
      && (forall j | 0 <= j < n :: !Agree(was[j], was[n]))
    }

    lemma {:induction false} SentHas(docs: seq<Result>, was: seq<Document>, n: nat, h: string)
      requires n <= |docs| == |was| && HASH_KEY !in keys && AllHashed(docs, was, n)
      ensures Text(h) in Hashes(Sent(docs, was, n)) <==> exists j | 0 <= j < n :: GetResultHash(was[j]) == Some(h)
    {
      SentIs(docs, was, n);
      var sent := Sent(docs, was, n);
      forall j | 0 <= j < n
        ensures HASH_KEY in sent[j] && (sent[j][HASH_KEY] == Text(h) <==> GetResultHash(was[j]) == Some(h))
      {
        assert sent[j] == Tag(was[j]);
      }
    }

    /** Ignoring stores a result exactly if the collection has not its hash and no earlier one of the batch agrees with
        it on every key. */
    lemma {:induction false} IgnoreStoresFirstOnes(before: seq<Document>, docs: seq<Result>, was: seq<Document>, n: nat)
      requires n <= |docs| == |was| && HASH_KEY !in keys && AllHashed(docs, was, n)
      requires HashIsInjective() && dedupType != OVERWRITE
      ensures PutAll(dedupType, before, Sent(docs, was, n)) == before + FirstOnes(before, was, n)
    {
      forall k | 0 <= k < n ensures NewAreFirst(before, docs, was, k) {
        NextSent(docs, was, k);
        NextIsFirst(before, docs, was, k);
      }
      StoresFirstOnes(before, docs, was, n);
    }

    /** Document n is sent with its hash, and its hash is new exactly if it is the first of its kind. */
    ghost predicate NewAreFirst(before: seq<Document>, docs: seq<Result>, was: seq<Document>, n: nat)
      requires n < |docs| == |was|
      reads this
    {
      && AllHashed(docs, was, n + 1) && GetResultHash(was[n]).Some? && Tag(Current(docs, was, n, n)) == Tag(was[n])
      && (var stored := PutAll(dedupType, before, Sent(docs, was, n));
          Find(stored, GetResultHash(was[n]).value) == |stored| <==> IsFirst(before, was, n))
    }

    lemma {:induction false} StoresFirstOnes(before: seq<Document>, docs: seq<Result>, was: seq<Document>, n: nat)
      requires n <= |docs| == |was| && AllHashed(docs, was, n) && dedupType != OVERWRITE
      requires forall k | 0 <= k < n :: NewAreFirst(before, docs, was, k)
      ensures PutAll(dedupType, before, Sent(docs, was, n)) == before + FirstOnes(before, was, n)
    {
      if n > 0 {
        StoresFirstOnes(before, docs, was, n - 1);
        assert NewAreFirst(before, docs, was, n - 1);
        PutSent(before, docs, was, n - 1);
        PutNext(dedupType, before, FirstOnes(before, was, n - 1), Tag(was[n - 1]), IsFirst(before, was, n - 1));
      }
    }

    lemma {:induction false} NextSent(docs: seq<Result>, was: seq<Document>, n: nat)
      requires n < |docs| == |was| && HASH_KEY !in keys && AllHashed(docs, was, n + 1)
      ensures GetResultHash(was[n]).Some? && GetResultHash(Current(docs, was, n, n)).Some?
      ensures Tag(Current(docs, was, n, n)) == Tag(was[n])
    {
      CurrentIs(docs, was, n, n);
      TagTwice(was[n]);
      SentIs(docs, was, n + 1);
    }

    lemma {:induction false} NextIsFirst(before: seq<Document>, docs: seq<Result>, was: seq<Document>, n: nat)
      requires n < |docs| == |was| && HASH_KEY !in keys && AllHashed(docs, was, n) && GetResultHash(was[n]).Some?
      requires HashIsInjective()
      ensures var stored := PutAll(dedupType, before, Sent(docs, was, n));
              Find(stored, GetResultHash(was[n]).value) == |stored| <==> IsFirst(before, was, n)
    {
      var h := GetResultHash(was[n]).value;
      FoundOrNot(PutAll(dedupType, before, Sent(docs, was, n)), h);
      BatchAddsNewHashes(dedupType, before, Sent(docs, was, n));
      SentHas(docs, was, n, h);
      HasHashes(before, h);
      forall j | 0 <= j < n ensures GetResultHash(was[j]) == Some(h) <==> Agree(was[j], was[n]) {
        HashesAgreeExactlyWhen(was[n], was[j]);
        AgreeEither(was[n], was[j]);
      }
    }

    lemma AgreeEither(d: Document, e: Document)
      ensures Agree(d, e) <==> Agree(e, d)
    {
    }

    /** Overwriting leaves, of the documents that agree on every key, the last. */
    lemma {:induction false} OverwriteStoresLast(before: seq<Document>, docs: seq<Result>, was: seq<Document>, n: nat,
                                                 i: nat)
      requires i < n <= |docs| == |was| && HASH_KEY !in keys && AllHashed(docs, was, n)
      requires HashIsInjective() && forall j | i < j < n :: !Agree(was[i], was[j])
      ensures GetResultHash(was[i]).Some?
      ensures Lookup(PutAll(OVERWRITE, before, Sent(docs, was, n)), GetResultHash(was[i]).value) == Some(Tag(was[i]))
    {
      SentIs(docs, was, n);
      var sent, h := Sent(docs, was, n), GetResultHash(was[i]).value;
      assert HasHash(sent[i], h);
      forall j | i < j < n ensures !HasHash(sent[j], h) {
        assert sent[j] == Tag(was[j]);
        HashesAgreeExactlyWhen(was[i], was[j]);
      }
      LastWithIs(sent, h, i);
      OverwriteKeepsLast(before, sent, h);
    }

    method Insert(docs: seq<Result>) returns (ok: bool, ghost done: nat)
      modifies col, docs
      ensures done <= |docs| && (ok ==> done == |docs|)
      ensures enabled && |keys| > 0 && ok ==> Applied(old(col.docs), old(Values(docs)), docs, done)
      ensures enabled && |keys| > 0 && !ok ==> done < |docs| && FailedAt(old(col.docs), old(Values(docs)), docs, done)
      ensures enabled && |keys| > 0 && !ok ==> GetResultHash(Current(docs, old(Values(docs)), done, done)).None?
                                               || col.Faulted(old(col.requests))
      ensures enabled && |keys| > 0 && HashIsInjective() && HASH_KEY !in keys && dedupType != OVERWRITE ==>
                col.docs == old(col.docs) + FirstOnes(old(col.docs), old(Values(docs)), done)
      ensures !enabled || keys == [] ==> Values(docs) == old(Values(docs))
      ensures !enabled || keys == [] ==> col.docs == old(col.docs) + Values(docs)[..done]
      ensures (!enabled || keys == []) && !ok ==> col.Faulted(old(col.requests))
    {
      ghost var was, before := Values(docs), col.docs;
      if enabled && |keys| > 0 {
        ok, done := InsertAllDeduplicated(docs);
        if HashIsInjective() && HASH_KEY !in keys && dedupType != OVERWRITE {
          IgnoreStoresFirstOnes(before, docs, was, done);
        }
      } else {
        var values := [];
        for n := 0 to |docs|
          invariant values == Values(docs)[..n]
        {
          values := values + [docs[n].value];
        }
        ok := col.InsertMany(values);
        done :| 0 <= done <= |values| && col.docs == before + values[..done] && (ok ==> done == |values|);
      }
    }
  }

  // ---------- what deduplication guarantees ----------

  /** At most one document carries each hash. */
  ghost predicate Unique(docs: seq<Document>) {
    forall i, j | 0 <= i < j < |docs| && HashOf(docs[i]).Some? :: HashOf(docs[i]) != HashOf(docs[j])
  }

  ghost function Hashes(docs: seq<Document>): set<Value> {
    set i | 0 <= i < |docs| && HASH_KEY in docs[i] :: docs[i][HASH_KEY]
  }

  /** The first document with a hash; the only one, if hashes are unique. */
  function Lookup(docs: seq<Document>, h: string): Option<Document> {
    var i := Find(docs, h);
    if i < |docs| then Some(docs[i]) else None
  }

  lemma {:induction false} FindIs(docs: seq<Document>, h: string, i: nat)
    requires i <= |docs| && (i < |docs| ==> HasHash(docs[i], h)) && forall j | 0 <= j < i :: !HasHash(docs[j], h)
    ensures Find(docs, h) == i
  {
  }

  lemma {:induction false} FoundOrNot(docs: seq<Document>, h: string)
    ensures Find(docs, h) < |docs| <==> Text(h) in Hashes(docs)
  {
  }

  lemma HasHashes(docs: seq<Document>, h: string)
    ensures Text(h) in Hashes(docs) <==> exists d | d in docs :: HasHash(d, h)
  {
    if d :| d in docs && HasHash(d, h) {
      var i :| 0 <= i < |docs| && docs[i] == d;
      assert docs[i][HASH_KEY] == Text(h);
    }
    if Text(h) in Hashes(docs) {
      var i :| 0 <= i < |docs| && HASH_KEY in docs[i] && docs[i][HASH_KEY] == Text(h);
      assert HasHash(docs[i], h);
    }
  }

  /** What is put behind the documents stored already, if it is new. */
  lemma PutNext(dedupType: string, before: seq<Document>, added: seq<Document>, d: Document, isNew: bool)
    requires Tagged(d) && dedupType != OVERWRITE
    requires Find(before + added, d[HASH_KEY].text) == |before + added| <==> isNew
    ensures Put(dedupType, before + added, d) == before + (added + if isNew then [d] else [])
  {
    assert before + (added + [d]) == before + added + [d] && added + [] == added;
  }

  lemma {:induction false} PutKeepsUnique(dedupType: string, docs: seq<Document>, d: Document)
    requires Unique(docs) && Tagged(d)
    ensures Unique(Put(dedupType, docs, d))
  {
  }

  lemma {:induction false} PutHashes(dedupType: string, docs: seq<Document>, d: Document)
    requires Tagged(d)
    ensures Hashes(Put(dedupType, docs, d)) == Hashes(docs) + {d[HASH_KEY]}
    ensures |Put(dedupType, docs, d)| == |docs| + (if d[HASH_KEY] in Hashes(docs) then 0 else 1)
  {
    var h := d[HASH_KEY].text;
    var i := Find(docs, h);
    FoundOrNot(docs, h);
    if i == |docs| {
      var after := docs + [d];
      assert Hashes(after) == Hashes(docs) + {d[HASH_KEY]} by {
        assert after[|docs|] == d;
        forall k | 0 <= k < |docs| ensures after[k] == docs[k] {
        }
      }
    } else if dedupType == OVERWRITE {
      ReplaceHashes(docs, i, d);
    }
  }

  lemma {:induction false} ReplaceHashes(docs: seq<Document>, i: nat, d: Document)
    requires i < |docs| && HashOf(docs[i]) == HashOf(d) && HASH_KEY in d
    ensures Hashes(docs[i := d]) == Hashes(docs)
  {
    var after := docs[i := d];
    assert forall k | 0 <= k < |docs| :: HashOf(after[k]) == HashOf(docs[k]);
    forall v ensures v in Hashes(after) <==> v in Hashes(docs) {
      if v in Hashes(after) {
        var k :| 0 <= k < |after| && HASH_KEY in after[k] && after[k][HASH_KEY] == v;
        assert HashOf(docs[k]) == Some(v);
      }
      if v in Hashes(docs) {
        var k :| 0 <= k < |docs| && HASH_KEY in docs[k] && docs[k][HASH_KEY] == v;
        assert HashOf(after[k]) == Some(v);
      }
    }
  }

  lemma {:induction false} HashesOfLast(batch: seq<Document>)
    requires batch != [] && HASH_KEY in batch[|batch| - 1]
    ensures Hashes(batch) == Hashes(batch[..|batch| - 1]) + {batch[|batch| - 1][HASH_KEY]}
  {
  }

  lemma UnionOne<T>(a: set<T>, b: set<T>, x: T)
    ensures (a + b) + {x} == a + (b + {x})
  {
  }

  /** After a batch, hashes are still unique. */
  lemma {:induction false} BatchKeepsUnique(dedupType: string, docs: seq<Document>, batch: seq<Document>)
    requires AllTagged(batch) && Unique(docs)
    ensures Unique(PutAll(dedupType, docs, batch))
  {
    if batch != [] {
      var n := |batch| - 1;
      BatchKeepsUnique(dedupType, docs, batch[..n]);
      PutKeepsUnique(dedupType, PutAll(dedupType, docs, batch[..n]), batch[n]);
    }
  }

  /** A batch adds its hashes, and as many documents as there are new hashes. */
  lemma {:induction false} BatchAddsNewHashes(dedupType: string, docs: seq<Document>, batch: seq<Document>)
    requires AllTagged(batch)
    ensures Hashes(PutAll(dedupType, docs, batch)) == Hashes(docs) + Hashes(batch)
    ensures |PutAll(dedupType, docs, batch)| == |docs| + |Hashes(batch) - Hashes(docs)|
  {
    if batch != [] {
      var n := |batch| - 1;
      var before := PutAll(dedupType, docs, batch[..n]);
      var h := batch[n][HASH_KEY];
      BatchAddsNewHashes(dedupType, docs, batch[..n]);
      PutHashes(dedupType, before, batch[n]);
      HashesOfLast(batch);
      UnionOne(Hashes(docs), Hashes(batch[..n]), h);
      CountOne(Hashes(docs), Hashes(batch[..n]), h);
    }
  }

  /** Any sequence of batches, each with the setting of its time. */
  ghost function Run(docs: seq<Document>, batches: seq<(string, seq<Document>)>): seq<Document>
    requires forall i | 0 <= i < |batches| :: AllTagged(batches[i].1)
    decreases |batches|
  {
    if batches == [] then docs else Run(PutAll(batches[0].0, docs, batches[0].1), batches[1..])
  }

  ghost function AllHashes(batches: seq<(string, seq<Document>)>): set<Value> {
    if batches == [] then {} else Hashes(batches[0].1) + AllHashes(batches[1..])
  }

  lemma {:induction false} RunsKeepUnique(docs: seq<Document>, batches: seq<(string, seq<Document>)>)
    requires forall i | 0 <= i < |batches| :: AllTagged(batches[i].1)
    requires Unique(docs)
    ensures Unique(Run(docs, batches))
    ensures Hashes(Run(docs, batches)) == Hashes(docs) + AllHashes(batches)
    ensures |Run(docs, batches)| == |docs| + |AllHashes(batches) - Hashes(docs)|
    decreases |batches|
  {
    if batches != [] {
      var here, rest := Hashes(batches[0].1), AllHashes(batches[1..]);
      var next := PutAll(batches[0].0, docs, batches[0].1);
      BatchKeepsUnique(batches[0].0, docs, batches[0].1);
      BatchAddsNewHashes(batches[0].0, docs, batches[0].1);
      RunsKeepUnique(next, batches[1..]);
      CountTogether(Hashes(docs), here, rest);
    }
  }

  lemma CountTogether<T>(known: set<T>, here: set<T>, rest: set<T>)
    ensures |(here + rest) - known| == |here - known| + |rest - (known + here)|
  {
    var sooner, later := here - known, rest - (known + here);
    assert sooner !! later && (here + rest) - known == sooner + later;
  }

  lemma CountOne<T>(known: set<T>, here: set<T>, x: T)
    ensures |(here + {x}) - known| == |here - known| + (if x in known + here then 0 else 1)
  {
    if x in known + here {
      assert (here + {x}) - known == here - known;
    } else {
      assert (here + {x}) - known == (here - known) + {x};
    }
  }

  /** Ignoring keeps the first document of each hash, the stored ones where they are. */
  lemma {:induction false} IgnoreKeepsFirst(dedupType: string, docs: seq<Document>, batch: seq<Document>, h: string)
    requires AllTagged(batch) && dedupType != OVERWRITE
    ensures docs <= PutAll(dedupType, docs, batch)
    ensures Lookup(PutAll(dedupType, docs, batch), h) == Lookup(docs + batch, h)
  {
    if batch == [] {
      assert docs + batch == docs;
    } else {
      var n := |batch| - 1;
      var d := batch[n];
      var before := PutAll(dedupType, docs, batch[..n]);
      IgnoreKeepsFirst(dedupType, docs, batch[..n], h);
      IgnoreKeepsFirst(dedupType, docs, batch[..n], d[HASH_KEY].text);
      assert docs + batch == (docs + batch[..n]) + [d];
      LookupAdded(docs + batch[..n], d, h);
      LookupAdded(before, d, h);
    }
  }

  lemma {:induction false} LookupAdded(docs: seq<Document>, d: Document, h: string)
    ensures Lookup(docs + [d], h) ==
            if Lookup(docs, h).Some? then Lookup(docs, h) else if HasHash(d, h) then Some(d) else None
  {
    var i := Find(docs, h);
    if i < |docs| || HasHash(d, h) {
      FindIs(docs + [d], h, i);
    } else {
      FindIs(docs + [d], h, i + 1);
    }
  }

  /** The last document of a batch with a hash. */
  function LastWith(batch: seq<Document>, h: string): Option<Document> {
    if batch == [] then None
    else if HasHash(batch[|batch| - 1], h) then Some(batch[|batch| - 1])
    else LastWith(batch[..|batch| - 1], h)
  }

  lemma {:induction false} LastWithIs(batch: seq<Document>, h: string, i: nat)
    requires i < |batch| && HasHash(batch[i], h) && forall j | i < j < |batch| :: !HasHash(batch[j], h)
    ensures LastWith(batch, h) == Some(batch[i])
  {
    if i < |batch| - 1 {
      LastWithIs(batch[..|batch| - 1], h, i);
    }
  }

  /** Overwriting keeps the last document of each hash. */
  lemma {:induction false} OverwriteKeepsLast(docs: seq<Document>, batch: seq<Document>, h: string)
    requires AllTagged(batch)
    ensures Lookup(PutAll(OVERWRITE, docs, batch), h) ==
            if LastWith(batch, h).Some? then LastWith(batch, h) else Lookup(docs, h)
  {
    if batch != [] {
      var n := |batch| - 1;
      var d := batch[n];
      var before := PutAll(OVERWRITE, docs, batch[..n]);
      OverwriteKeepsLast(docs, batch[..n], h);
      LookupAdded(before, d, h);
      var i := Find(before, d[HASH_KEY].text);
      if i < |before| {
        LookupReplaced(before, i, d, h);
      }
    }
  }

  lemma {:induction false} LookupReplaced(docs: seq<Document>, i: nat, d: Document, h: string)
    requires Tagged(d) && i == Find(docs, d[HASH_KEY].text) < |docs|
    ensures Lookup(docs[i := d], h) == if HasHash(d, h) then Some(d) else Lookup(docs, h)
  {
    FindIs(docs[i := d], h, Find(docs, h));
  }

  /** Sending a batch again changes nothing when known hashes are ignored. */
  lemma {:induction false} RepeatIsIgnored(dedupType: string, docs: seq<Document>, batch: seq<Document>)
    requires AllTagged(batch) && dedupType != OVERWRITE && Hashes(batch) <= Hashes(docs)
    ensures PutAll(dedupType, docs, batch) == docs
  {
    if batch != [] {
      var n := |batch| - 1;
      HashesOfLast(batch);
      RepeatIsIgnored(dedupType, docs, batch[..n]);
      FoundOrNot(docs, batch[n][HASH_KEY].text);
    }
  }

  // ---------- first and last over whole runs ----------

  lemma {:induction false} PutAllConcat(dedupType: string, docs: seq<Document>, a: seq<Document>, b: seq<Document>)
    requires AllTagged(a) && AllTagged(b)
    ensures AllTagged(a + b) && PutAll(dedupType, docs, a + b) == PutAll(dedupType, PutAll(dedupType, docs, a), b)
  {
    if b == [] {
      assert a + b == a;
    } else {
      var n := |b| - 1;
      assert a + b == (a + b[..n]) + [b[n]];
      PutAllConcat(dedupType, docs, a, b[..n]);
      PutOneMore(dedupType, docs, a + b[..n], b[n]);
    }
  }

  /** Every setting but overwrite ignores. */
  lemma {:induction false} SameSetting(t: string, u: string, docs: seq<Document>, batch: seq<Document>)
    requires AllTagged(batch) && (t == OVERWRITE <==> u == OVERWRITE)
    ensures PutAll(t, docs, batch) == PutAll(u, docs, batch)
  {
    if batch != [] {
      SameSetting(t, u, docs, batch[..|batch| - 1]);
    }
  }

  /** The documents of all batches, in order. */
  ghost function Joined(batches: seq<(string, seq<Document>)>): seq<Document> {
    if batches == [] then [] else batches[0].1 + Joined(batches[1..])
  }

  /** A run of batches that all overwrite, or all ignore, is one long batch. */
  lemma {:induction false} RunIsOneBatch(dedupType: string, docs: seq<Document>, batches: seq<(string, seq<Document>)>)
    requires forall i | 0 <= i < |batches| :: AllTagged(batches[i].1)
    requires forall i | 0 <= i < |batches| :: batches[i].0 == OVERWRITE <==> dedupType == OVERWRITE
    ensures AllTagged(Joined(batches)) && Run(docs, batches) == PutAll(dedupType, docs, Joined(batches))
    decreases |batches|
  {
    if batches != [] {
      var first := batches[0];
      SameSetting(first.0, dedupType, docs, first.1);
      RunIsOneBatch(dedupType, PutAll(first.0, docs, first.1), batches[1..]);
      PutAllConcat(dedupType, docs, first.1, Joined(batches[1..]));
    }
  }

  /** Over any run without overwriting, the first document with a hash stays, and what was stored stays where it is. */
  lemma {:induction false} RunKeepsFirst(docs: seq<Document>, batches: seq<(string, seq<Document>)>, h: string)
    requires forall i | 0 <= i < |batches| :: AllTagged(batches[i].1) && batches[i].0 != OVERWRITE
    ensures docs <= Run(docs, batches) && Lookup(Run(docs, batches), h) == Lookup(docs + Joined(batches), h)
  {
    RunIsOneBatch("ignore", docs, batches);
    IgnoreKeepsFirst("ignore", docs, Joined(batches), h);
  }

  /** Over any run that always overwrites, the last document with a hash wins. */
  lemma {:induction false} RunKeepsLast(docs: seq<Document>, batches: seq<(string, seq<Document>)>, h: string)
    requires forall i | 0 <= i < |batches| :: AllTagged(batches[i].1) && batches[i].0 == OVERWRITE
    ensures Lookup(Run(docs, batches), h) ==
            if LastWith(Joined(batches), h).Some? then LastWith(Joined(batches), h) else Lookup(docs, h)
  {
    RunIsOneBatch(OVERWRITE, docs, batches);
    OverwriteKeepsLast(docs, Joined(batches), h);
  }
}
