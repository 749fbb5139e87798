/** The listing a filer returns, and its flattening (fs/utils.go). */
module RemoteTree {
  import opened Sequences

  /** goseaweedfs.FilerFileInfo: path is FullPath, children is Children. */
  datatype Entry =
    | File(path: string, md5: string)
    | Dir(path: string, children: seq<Entry>)
  {
    /** A directory carries no checksum. */
    function Md5(): string {
      if File? then md5 else ""
    }
  }

  function Height(es: seq<Entry>): nat
  {
    if es == [] then 0
    else
      var h := if es[0].Dir? then 1 + Height(es[0].children) else 1;
      var t := Height(es[1..]);
      if h > t then h else t
  }

  /** Every entry of the forest, each directory before what it holds. */
  function Flatten(es: seq<Entry>): seq<Entry>
  {
    if es == [] then []
    else [es[0]] + (if es[0].Dir? then Flatten(es[0].children) else []) + Flatten(es[1..])
  }

  /** getFlattenRemoteFiles, as the loop and recursion of the source. */
  method GetFlattenRemoteFiles(files: seq<Entry>) returns (flat: seq<Entry>)
    ensures flat == Flatten(files)
    decreases Height(files)
  {
    flat := [];
    ghost var todo := files;
    for i := 0 to |files|
      invariant todo == files[i..] && flat + Flatten(todo) == Flatten(files)
    {
      FlattenFirst(flat, todo);
      flat := flat + [files[i]];
      if files[i].Dir? {
        HeightOfMember(files, i);
        var below := GetFlattenRemoteFiles(files[i].children);
        flat := flat + below;
      }
      todo := todo[1..];
    }
  }

  lemma {:induction false} FlattenFirst(flat: seq<Entry>, todo: seq<Entry>)
    requires todo != []
    ensures flat + Flatten(todo)
            == (if todo[0].Dir? then flat + [todo[0]] + Flatten(todo[0].children) else flat + [todo[0]])
               + Flatten(todo[1..])
  {
    var below := if todo[0].Dir? then Flatten(todo[0].children) else [];
    Assoc(flat, [todo[0]] + below, Flatten(todo[1..]));
    Assoc(flat, [todo[0]], below);
    assert [todo[0]] + [] == [todo[0]];
  }

  lemma {:induction false} HeightOfMember(es: seq<Entry>, i: nat)
    requires i < |es| && es[i].Dir?
    ensures Height(es[i].children) < Height(es)
  {
    if i > 0 {
      HeightOfMember(es[1..], i - 1);
    }
  }

  /** Recursing into any listed directory goes strictly down. */
  lemma {:induction false} HeightDescends(es: seq<Entry>, d: Entry)
    requires d in Flatten(es) && d.Dir?
    ensures Height(d.children) < Height(es)
  {
    if es[0].Dir? && d in Flatten(es[0].children) {
      HeightDescends(es[0].children, d);
    } else if d != es[0] {
      HeightDescends(es[1..], d);
    }
  }

  // ---------- well-formed listings ----------

  /** path is a member of the directory root: root, a slash, and a name without slashes. */
  predicate MemberOf(path: string, root: string)
  {
    root + "/" <= path && |path| > |root| + 1 && '/' !in path[|root| + 1..]
  }

  /** path lies strictly below the directory root. */
  predicate Below(path: string, root: string)
  {
    root + "/" <= path
  }

  /** A listing of the directory root: entries are members of it, no two share a path, and file
      checksums are not empty. */
  ghost predicate WellFormed(es: seq<Entry>, root: string)
  {
    es == [] ||
    (&& MemberOf(es[0].path, root)
     && (forall e | e in es[1..] :: e.path != es[0].path)
     && (es[0].File? ==> es[0].md5 != "")
     && (es[0].Dir? ==> WellFormed(es[0].children, es[0].path))
     && WellFormed(es[1..], root))
  }

  lemma {:induction false} Member(es: seq<Entry>, root: string, e: Entry)
    requires WellFormed(es, root) && e in es
    ensures MemberOf(e.path, root)
  {
    if e != es[0] {
      Member(es[1..], root, e);
    }
  }

  /** Every flattened entry is a member of the listing or lies below a directory of it. */
  lemma {:induction false} Origin(es: seq<Entry>, root: string, e: Entry) returns (top: Entry)
    requires WellFormed(es, root) && e in Flatten(es)
    ensures top in es && MemberOf(top.path, root)
    ensures e == top || (top.Dir? && e in Flatten(top.children) && Below(e.path, top.path))
    ensures Below(e.path, root) && e.path != root + "/"
  {
    if e == es[0] {
      top := e;
    } else if es[0].Dir? && e in Flatten(es[0].children) {
      top := es[0];
      var _ := Origin(es[0].children, es[0].path, e);
    } else {
      top := Origin(es[1..], root, e);
    }
  }

  lemma AllBelow(es: seq<Entry>, root: string)
    requires WellFormed(es, root)
    ensures forall e | e in Flatten(es) :: Below(e.path, root) && |e.path| > |root| + 1
  {
  }

  /** Two members of one directory that both reach the same path are the same path. */
  lemma SameMember(a: string, b: string, p: string, root: string)
    requires MemberOf(a, root) && MemberOf(b, root)
    requires p == a || Below(p, a)
    requires p == b || Below(p, b)
    ensures a == b
  {
    assert a <= p && b <= p;
    if |a| < |b| {
      SlashInside(a, b, p, root);
    } else if |b| < |a| {
      SlashInside(b, a, p, root);
    }
  }

  lemma SlashInside(a: string, b: string, p: string, root: string)
    requires b <= p && Below(p, a) && |root| < |a| < |b|
    ensures '/' in b[|root| + 1..]
  {
    assert (a + "/")[|a|] == p[|a|] == b[|a|] == b[|root| + 1..][|a| - |root| - 1];
  }

  /** A path names at most one entry of a listing. */
  lemma {:induction false} PathsAreUnique(es: seq<Entry>, root: string, e: Entry, f: Entry)
    requires WellFormed(es, root)
    requires e in Flatten(es) && f in Flatten(es) && e.path == f.path
    ensures e == f
    decreases Height(es), |es|
  {
    var h := es[0];
    if h.Dir? {
      AllBelow(h.children, h.path);
    }
    if e in Flatten(es[1..]) && f in Flatten(es[1..]) {
      PathsAreUnique(es[1..], root, e, f);
    } else if e in Flatten(es[1..]) {
      HeadAndTail(es, root, f, e);
    } else if f in Flatten(es[1..]) {
      HeadAndTail(es, root, e, f);
    } else if e != h && f != h {
      HeightOfMember(es, 0);
      PathsAreUnique(h.children, h.path, e, f);
    }
  }

  /** Nothing reached through the first entry lies at or above something reached through the rest. */
  lemma HeadAndTail(es: seq<Entry>, root: string, e: Entry, f: Entry)
    requires WellFormed(es, root) && es != []
    requires e == es[0] || (es[0].Dir? && e in Flatten(es[0].children))
    requires f in Flatten(es[1..])
    ensures e.path != f.path && !Below(e.path, f.path) && !Below(f.path, e.path)
  {
    var top := Origin(es[1..], root, f);
    if es[0].Dir? {
      AllBelow(es[0].children, es[0].path);
    }
    if Below(e.path, f.path) || e.path == f.path {
      SameMember(es[0].path, top.path, e.path, root);
    }
    if Below(f.path, e.path) {
      SameMember(es[0].path, top.path, f.path, root);
    }
  }

  /** The listing below a listed directory is exactly the part of the whole listing below its path. */
  lemma {:induction false} SubListing(es: seq<Entry>, root: string, d: Entry)
    requires WellFormed(es, root) && d in Flatten(es) && d.Dir?
    ensures WellFormed(d.children, d.path)
    ensures forall e :: e in Flatten(d.children) <==> e in Flatten(es) && Below(e.path, d.path)
    decreases Height(es), |es|
  {
    var h := es[0];
    HeightDescends(es, d);
    if h.Dir? {
      AllBelow(h.children, h.path);
    }
    if d == h {
      forall e | e in Flatten(es[1..]) ensures !Below(e.path, d.path) {
        HeadAndTail(es, root, d, e);
      }
    } else if h.Dir? && d in Flatten(h.children) {
      HeightOfMember(es, 0);
      SubListing(h.children, h.path, d);
      forall e | e in Flatten(es[1..]) ensures !Below(e.path, d.path) {
        HeadAndTail(es, root, d, e);
      }
    } else {
      SubListing(es[1..], root, d);
      forall e | e == h || (h.Dir? && e in Flatten(h.children)) ensures !Below(e.path, d.path) {
        HeadAndTail(es, root, e, d);
      }
    }
  }

  /** e is the entry t, or in what it holds. */
  predicate Reaches(t: Entry, e: Entry) {
    e == t || (t.Dir? && e in Flatten(t.children))
  }

  /** What is flattened: the entries listed, and of the directories among them what they hold, at every depth. */
  lemma {:induction false} FlattenHas(es: seq<Entry>, e: Entry)
    ensures e in Flatten(es) <==> exists t | t in es :: Reaches(t, e)
  {
    if es != [] {
      FlattenHas(es[1..], e);
      assert e in Flatten(es) <==> Reaches(es[0], e) || e in Flatten(es[1..]);
      assert forall t :: t in es <==> t == es[0] || t in es[1..];
    }
  }

  /** The entries of a listing, without their order. */
  ghost function EntriesOf(es: seq<Entry>): set<Entry> {
    set e | e in Flatten(es)
  }

  /** What matters of the entries below root: they lie below it, have distinct paths that do not end in
      a slash, and files have checksums. */
  ghost predicate Proper(entries: set<Entry>, root: string) {
    && (forall e | e in entries :: Below(e.path, root) && e.path[|e.path| - 1] != '/')
    && (forall e, f | e in entries && f in entries && e.path == f.path :: e == f)
    && (forall e | e in entries && e.File? :: e.md5 != "")
  }

  lemma EntriesAreProper(es: seq<Entry>, root: string)
    requires WellFormed(es, root)
    ensures Proper(EntriesOf(es), root)
  {
    forall e | e in Flatten(es)
      ensures Below(e.path, root) && e.path[|e.path| - 1] != '/'
      ensures e.File? ==> e.md5 != ""
    {
      var _ := Origin(es, root, e);
      Named(es, root, e);
    }
    forall e, f | e in Flatten(es) && f in Flatten(es) && e.path == f.path ensures e == f {
      PathsAreUnique(es, root, e, f);
    }
  }

  lemma {:induction false} Named(es: seq<Entry>, root: string, e: Entry)
    requires WellFormed(es, root) && e in Flatten(es)
    ensures e.path != "" && e.path[|e.path| - 1] != '/'
    ensures e.File? ==> e.md5 != ""
  {
    if e == es[0] {
      var name := e.path[|root| + 1..];
      assert name[|name| - 1] == e.path[|e.path| - 1];
    } else if es[0].Dir? && e in Flatten(es[0].children) {
      Named(es[0].children, es[0].path, e);
    } else {
      Named(es[1..], root, e);
    }
  }

  /** The entries below a directory. */
  ghost function PartOf(entries: set<Entry>, dir: string): set<Entry> {
    set e | e in entries && Below(e.path, dir)
  }

  lemma SubEntries(es: seq<Entry>, root: string, d: Entry)
    requires WellFormed(es, root) && d in Flatten(es) && d.Dir?
    ensures WellFormed(d.children, d.path) && EntriesOf(d.children) == PartOf(EntriesOf(es), d.path)
  {
    SubListing(es, root, d);
  }

  /** No two places have the same path. */
  ghost predicate DistinctPaths(es: seq<Entry>) {
    forall i, j | 0 <= i < j < |es| :: es[i].path != es[j].path
  }

  lemma DistinctConcat(a: seq<Entry>, b: seq<Entry>)
    requires DistinctPaths(a) && DistinctPaths(b) && forall e, f | e in a && f in b :: e.path != f.path
    ensures DistinctPaths(a + b)
  {
    var both := a + b;
    forall i, j | 0 <= i < j < |both| ensures both[i].path != both[j].path {
      if i < |a| <= j {
        assert both[i] in a && both[j] in b;
      }
    }
  }

  /** Each entry is flattened once. */
  lemma {:induction false} FlattenIsDistinct(es: seq<Entry>, root: string)
    requires WellFormed(es, root)
    ensures DistinctPaths(Flatten(es))
    decreases Height(es), |es|
  {
    if es != [] {
      var h, below := es[0], if es[0].Dir? then Flatten(es[0].children) else [];
      FlattenIsDistinct(es[1..], root);
      if h.Dir? {
        HeightOfMember(es, 0);
        FlattenIsDistinct(h.children, h.path);
        AllBelow(h.children, h.path);
      }
      DistinctConcat([h], below);
      forall e, f | e in [h] + below && f in Flatten(es[1..]) ensures e.path != f.path {
        HeadAndTail(es, root, e, f);
      }
      DistinctConcat([h] + below, Flatten(es[1..]));
    }
  }

  /** Nothing comes after what lies below it. */
  ghost predicate TopDown(es: seq<Entry>) {
    forall i, j | 0 <= i < j < |es| :: !Below(es[i].path, es[j].path)
  }

  lemma TopDownConcat(a: seq<Entry>, b: seq<Entry>)
    requires TopDown(a) && TopDown(b) && forall e, f | e in a && f in b :: !Below(e.path, f.path)
    ensures TopDown(a + b)
  {
    var both := a + b;
    forall i, j | 0 <= i < j < |both| ensures !Below(both[i].path, both[j].path) {
      if i < |a| <= j {
        assert both[i] in a && both[j] in b;
      }
    }
  }

  lemma {:induction false} FlattenIsTopDown(es: seq<Entry>, root: string)
    requires WellFormed(es, root)
    ensures TopDown(Flatten(es))
    decreases Height(es), |es|
  {
    if es != [] {
      var h, below := es[0], if es[0].Dir? then Flatten(es[0].children) else [];
      FlattenIsTopDown(es[1..], root);
      if h.Dir? {
        HeightOfMember(es, 0);
        FlattenIsTopDown(h.children, h.path);
        AllBelow(h.children, h.path);
      }
      TopDownConcat([h], below);
      forall e, f | e in [h] + below && f in Flatten(es[1..]) ensures !Below(e.path, f.path) {
        HeadAndTail(es, root, e, f);
      }
      TopDownConcat([h] + below, Flatten(es[1..]));
    }
  }
}
