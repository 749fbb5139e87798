/** ServiceV2.List (core/fs/service_v2.go): a directory tree rebuilt from a pre-order walk through a map
    from directory paths to shared, growing nodes. */
module DirectoryListing {

  /** What is on disk. */
  datatype Tree = File(name: string) | Dir(name: string, children: seq<Tree>)

  /** A clean absolute path, by components. */
  type Path = seq<string>

  /** One call of the walk function of filepath.Walk. */
  datatype Visit = Visit(path: Path, name: string, isDir: bool)

  /** filepath.Walk: a node before its children, children in order. */
  function Walk(path: Path, t: Tree): seq<Visit>
    decreases t, 1
  {
    [Visit(path, t.name, t.Dir?)] + if t.Dir? then WalkAll(path, t.children) else []
  }

  function WalkAll(dir: Path, ts: seq<Tree>): seq<Visit>
    decreases ts, 0
  {
    if ts == [] then [] else Walk(dir + [ts[0].name], ts[0]) + WalkAll(dir, ts[1..])
  }

  /** Sibling names are distinct all the way down, as on a disk. */
  ghost predicate DistinctNames(ts: seq<Tree>) {
    ts == [] ||
    (&& (forall t | t in ts[1..] :: t.name != ts[0].name)
     && (ts[0].Dir? ==> DistinctNames(ts[0].children))
     && DistinctNames(ts[1..]))
  }

  /** The reference: drop every node with a skipped name, together with all it holds. */
  function Prune(ts: seq<Tree>, skipNames: seq<string>): seq<Tree> {
    if ts == [] then []
    else if ts[0].name in skipNames then Prune(ts[1..], skipNames)
    else [PruneNode(ts[0], skipNames)] + Prune(ts[1..], skipNames)
  }

  function PruneNode(t: Tree, skipNames: seq<string>): Tree {
    if t.Dir? then Dir(t.name, Prune(t.children, skipNames)) else t
  }

  /** Some way down these trees has the given names, and ends in a directory or in a file. */
  ghost predicate HasPath(ts: seq<Tree>, names: Path, isDir: bool)
    decreases |names|
  {
    names != [] && exists t | t in ts :: StartsPath(t, names, isDir)
  }

  ghost predicate StartsPath(t: Tree, names: Path, isDir: bool)
    requires names != []
    decreases |names|, 0
  {
    t.name == names[0] && if |names| == 1 then t.Dir? == isDir else t.Dir? && HasPath(t.children, names[1..], isDir)
  }

  /** Pruning leaves exactly the ways down on which no name is skipped. */
  lemma {:induction false} PruneHasExactlyWhen(ts: seq<Tree>, skipNames: seq<string>, names: Path, isDir: bool)
    ensures HasPath(Prune(ts, skipNames), names, isDir)
            <==> HasPath(ts, names, isDir) && forall n | n in names :: n !in skipNames
    decreases |names|, |ts|
  {
    if names != [] && ts != [] {
      PruneHasExactlyWhen(ts[1..], skipNames, names, isDir);
      HasPathFirst(ts, names, isDir);
      if ts[0].name !in skipNames {
        var pruned := PruneNode(ts[0], skipNames);
        assert ([pruned] + Prune(ts[1..], skipNames))[1..] == Prune(ts[1..], skipNames);
        HasPathFirst(Prune(ts, skipNames), names, isDir);
        StartsPruned(ts[0], skipNames, names, isDir);
      }
    }
  }

  lemma {:induction false} StartsPruned(t: Tree, skipNames: seq<string>, names: Path, isDir: bool)
    requires names != [] && t.name !in skipNames
    ensures StartsPath(PruneNode(t, skipNames), names, isDir)
            <==> StartsPath(t, names, isDir) && forall n | n in names :: n !in skipNames
    decreases |names|, 0
  {
    assert forall n :: n in names <==> n == names[0] || n in names[1..];
    if t.Dir? && |names| > 1 {
      PruneHasExactlyWhen(t.children, skipNames, names[1..], isDir);
    }
  }

  lemma HasPathFirst(ts: seq<Tree>, names: Path, isDir: bool)
    requires names != [] && ts != []
    ensures HasPath(ts, names, isDir) <==> StartsPath(ts[0], names, isDir) || HasPath(ts[1..], names, isDir)
  {
    assert forall t :: t in ts <==> t == ts[0] || t in ts[1..];
  }

  /** The order of siblings stays. */
  lemma {:induction false} PruneKeepsOrder(ts: seq<Tree>, skipNames: seq<string>, i: nat, j: nat)
      returns (k: nat, l: nat)
    requires i < j < |Prune(ts, skipNames)|
    ensures k < l < |ts|
    ensures ts[k].name == Prune(ts, skipNames)[i].name && ts[l].name == Prune(ts, skipNames)[j].name
  {
    if ts[0].name in skipNames {
      k, l := PruneKeepsOrder(ts[1..], skipNames, i, j);
      k, l := k + 1, l + 1;
    } else if i > 0 {
      k, l := PruneKeepsOrder(ts[1..], skipNames, i - 1, j - 1);
      k, l := k + 1, l + 1;
    } else {
      l := PrunedFrom(ts[1..], skipNames, j - 1);
      k, l := 0, l + 1;
    }
  }

  lemma {:induction false} PrunedFrom(ts: seq<Tree>, skipNames: seq<string>, j: nat) returns (l: nat)
    requires j < |Prune(ts, skipNames)|
    ensures l < |ts| && ts[l].name == Prune(ts, skipNames)[j].name
  {
    if ts[0].name in skipNames {
      l := PrunedFrom(ts[1..], skipNames, j);
      l := l + 1;
    } else if j > 0 {
      l := PrunedFrom(ts[1..], skipNames, j - 1);
      l := l + 1;
    } else {
      l := 0;
    }
  }

  /** entity.FsFileInfo: children grow after the node has been shared. */
  class FsFileInfo {
    const name: string
    const path: Path
    const isDir: bool
    var children: seq<FsFileInfo>

    constructor (v: Visit)
      ensures name == v.name && path == v.path && isDir == v.isDir && children == []
    {
      name, path, isDir := v.name, v.path, v.isDir;
      children := [];
    }
  }

  /** The nodes reachable from f within region are the tree t at the given path. */
  ghost predicate Represents(f: FsFileInfo, t: Tree, path: Path, region: set<FsFileInfo>)
    reads region
    decreases t
  {
    && f in region && f.name == t.name && f.path == path && f.isDir == t.Dir?
    && (t.File? ==> f.children == [])
    && (t.Dir? ==> |f.children| == |t.children|
                   && forall m | 0 <= m < |t.children| ::
                        Represents(f.children[m], t.children[m], path + [t.children[m].name], region))
  }

  // ---------- which visits become children of a directory ----------

  predicate Kept(v: Visit, skipNames: seq<string>) {
    v.name !in skipNames
  }

  predicate IsKid(v: Visit, dir: Path, skipNames: seq<string>) {
    Kept(v, skipNames) && v.path != [] && v.path[..|v.path| - 1] == dir
  }

  /** The paths of the kept visits directly inside dir, in walk order. */
  function Kids(vs: seq<Visit>, dir: Path, skipNames: seq<string>): seq<Path> {
    if vs == [] then []
    else
      var v := vs[|vs| - 1];
      Kids(vs[..|vs| - 1], dir, skipNames) + if IsKid(v, dir, skipNames) then [v.path] else []
  }

  lemma KidsStep(vs: seq<Visit>, v: Visit, dir: Path, skipNames: seq<string>)
    ensures Kids(vs + [v], dir, skipNames)
            == Kids(vs, dir, skipNames) + if IsKid(v, dir, skipNames) then [v.path] else []
  {
  }

  lemma {:induction false} KidsConcat(a: seq<Visit>, b: seq<Visit>, dir: Path, skipNames: seq<string>)
    ensures Kids(a + b, dir, skipNames) == Kids(a, dir, skipNames) + Kids(b, dir, skipNames)
  {
    if b == [] {
      assert a + b == a;
    } else {
      var n := |b| - 1;
      assert a + b == (a + b[..n]) + [b[n]] && b == b[..n] + [b[n]];
      KidsConcat(a, b[..n], dir, skipNames);
      KidsStep(a + b[..n], b[n], dir, skipNames);
    }
  }

  lemma {:induction false} NoKids(vs: seq<Visit>, dir: Path, skipNames: seq<string>)
    requires forall v | v in vs :: !IsKid(v, dir, skipNames)
    ensures Kids(vs, dir, skipNames) == []
  {
    if vs != [] {
      NoKids(vs[..|vs| - 1], dir, skipNames);
    }
  }

  // ---------- the walk ----------

  /** Everything a walk visits is at or below the path it started from, and only the start is at it. */
  lemma {:induction false} WalkExtends(path: Path, t: Tree)
    ensures forall v | v in Walk(path, t) :: path <= v.path
    ensures forall v | v in Walk(path, t)[1..] :: path < v.path
    decreases t, 1
  {
    if t.Dir? {
      assert Walk(path, t)[1..] == WalkAll(path, t.children);
      WalkAllExtends(path, t.children);
    }
  }

  lemma {:induction false} WalkAllExtends(dir: Path, ts: seq<Tree>)
    ensures forall v | v in WalkAll(dir, ts) :: exists t | t in ts :: dir + [t.name] <= v.path
    ensures forall v | v in WalkAll(dir, ts) :: dir < v.path
    decreases ts, 0
  {
    if ts != [] {
      WalkExtends(dir + [ts[0].name], ts[0]);
      WalkAllExtends(dir, ts[1..]);
    }
  }

  /** Walks of different siblings never meet. */
  lemma SiblingsApart(dir: Path, ts: seq<Tree>)
    requires DistinctNames(ts) && ts != []
    ensures forall v | v in Walk(dir + [ts[0].name], ts[0]) :: dir + [ts[0].name] <= v.path
    ensures forall w | w in WalkAll(dir, ts[1..]) :: |dir| < |w.path| && w.path[|dir|] != ts[0].name
  {
    WalkExtends(dir + [ts[0].name], ts[0]);
    WalkAllExtends(dir, ts[1..]);
    forall w | w in WalkAll(dir, ts[1..]) ensures |dir| < |w.path| && w.path[|dir|] != ts[0].name {
      var t :| t in ts[1..] && dir + [t.name] <= w.path;
      assert w.path[|dir|] == t.name;
    }
  }

  /** No visited path extends, or equals, the path of a later visit. */
  ghost predicate PreOrder(vs: seq<Visit>) {
    forall j, k | 0 <= j < k < |vs| :: !(vs[k].path <= vs[j].path)
  }

  lemma PreOrderConcat(a: seq<Visit>, b: seq<Visit>)
    requires PreOrder(a) && PreOrder(b)
    requires forall v, w | v in a && w in b :: !(w.path <= v.path)
    ensures PreOrder(a + b)
  {
  }

  lemma {:induction false} WalkIsPreOrder(path: Path, t: Tree)
    requires t.Dir? ==> DistinctNames(t.children)
    ensures PreOrder(Walk(path, t))
    decreases t, 1
  {
    if t.Dir? {
      WalkAllIsPreOrder(path, t.children);
      WalkAllExtends(path, t.children);
      PreOrderConcat([Visit(path, t.name, true)], WalkAll(path, t.children));
    }
  }

  lemma {:induction false} WalkAllIsPreOrder(dir: Path, ts: seq<Tree>)
    requires DistinctNames(ts)
    ensures PreOrder(WalkAll(dir, ts))
    decreases ts, 0
  {
    if ts != [] {
      WalkIsPreOrder(dir + [ts[0].name], ts[0]);
      WalkAllIsPreOrder(dir, ts[1..]);
      SiblingsApart(dir, ts);
      PreOrderConcat(Walk(dir + [ts[0].name], ts[0]), WalkAll(dir, ts[1..]));
    }
  }

  /** In its own walk, a tree is the only kid of the directory it lies in, if it is kept. */
  lemma KidsOfOne(dir: Path, t: Tree, skipNames: seq<string>)
    ensures Kids(Walk(dir + [t.name], t), dir, skipNames) == if t.name in skipNames then [] else [dir + [t.name]]
  {
    var path := dir + [t.name];
    var w := Walk(path, t);
    WalkExtends(path, t);
    assert w == [w[0]] + w[1..];
    KidsConcat([w[0]], w[1..], dir, skipNames);
    NoKids(w[1..], dir, skipNames);
    assert path[..|dir|] == dir;
    assert [w[0]][..0] == [];
  }

  /** In the walk of a directory's children, its kids are the roots that pruning keeps. */
  lemma {:induction false} KidsArePruned(dir: Path, ts: seq<Tree>, skipNames: seq<string>)
    ensures Kids(WalkAll(dir, ts), dir, skipNames) == PathsIn(dir, Prune(ts, skipNames))
  {
    if ts != [] {
      KidsConcat(Walk(dir + [ts[0].name], ts[0]), WalkAll(dir, ts[1..]), dir, skipNames);
      KidsOfOne(dir, ts[0], skipNames);
      KidsArePruned(dir, ts[1..], skipNames);
      PathsInMore(dir, PruneNode(ts[0], skipNames), Prune(ts[1..], skipNames));
    }
  }

  lemma PathsInMore(dir: Path, t: Tree, ts: seq<Tree>)
    ensures PathsIn(dir, [t] + ts) == [dir + [t.name]] + PathsIn(dir, ts)
  {
  }

  function PathsIn(dir: Path, ts: seq<Tree>): seq<Path> {
    if ts == [] then [] else [dir + [ts[0].name]] + PathsIn(dir, ts[1..])
  }

  lemma KidSharesPath(v: Visit, q: Path, skipNames: seq<string>, n: nat)
    requires n < |q|
    ensures IsKid(v, q, skipNames) ==> n < |v.path| && v.path[n] == q[n]
  {
  }

  /** Below one of the children, the kids in the walk of all children are those in its own walk. */
  lemma {:induction false} KidsBelowChild(dir: Path, ts: seq<Tree>, c: Tree, q: Path, skipNames: seq<string>)
    requires DistinctNames(ts) && c in ts && dir + [c.name] <= q
    ensures Kids(WalkAll(dir, ts), q, skipNames) == Kids(Walk(dir + [c.name], c), q, skipNames)
  {
    var first, rest := Walk(dir + [ts[0].name], ts[0]), WalkAll(dir, ts[1..]);
    KidsConcat(first, rest, q, skipNames);
    SiblingsApart(dir, ts);
    assert q[|dir|] == c.name;
    if c.name == ts[0].name {
      forall v | v in rest ensures !IsKid(v, q, skipNames) {
        KidSharesPath(v, q, skipNames, |dir|);
      }
      NoKids(rest, q, skipNames);
      assert c == ts[0];
    } else {
      forall v | v in first ensures !IsKid(v, q, skipNames) {
        KidSharesPath(v, q, skipNames, |dir|);
      }
      NoKids(first, q, skipNames);
      KidsBelowChild(dir, ts[1..], c, q, skipNames);
    }
  }

  // ---------- the walk function ----------

  /** What the callback has built after the visits vs: a node for each kept one, a directory's node
      holding those of its kept children in walk order. */
  ghost predicate Built(vs: seq<Visit>, nodeAt: map<Path, FsFileInfo>, skipNames: seq<string>)
    reads nodeAt.Values
  {
    && (forall p | p in nodeAt :: nodeAt[p].path == p && Visited(p, vs))
    && (forall v | v in vs && Kept(v, skipNames) ::
          v.path in nodeAt && BuiltNode(nodeAt[v.path], v, vs, nodeAt, skipNames))
  }

  ghost predicate Visited(p: Path, vs: seq<Visit>) {
    exists v | v in vs :: v.path == p
  }

  ghost predicate DirVisited(p: Path, vs: seq<Visit>, skipNames: seq<string>) {
    exists v | v in vs :: Kept(v, skipNames) && v.isDir && v.path == p
  }

  lemma VisitedMore(vs: seq<Visit>, v: Visit, skipNames: seq<string>)
    ensures forall p :: Visited(p, vs + [v]) <==> Visited(p, vs) || p == v.path
    ensures forall p :: DirVisited(p, vs + [v], skipNames)
                        <==> DirVisited(p, vs, skipNames) || (p == v.path && v.isDir && Kept(v, skipNames))
  {
  }

  ghost predicate BuiltNode(n: FsFileInfo, v: Visit, vs: seq<Visit>, nodeAt: map<Path, FsFileInfo>,
                            skipNames: seq<string>)
    reads n
  {
    && n.name == v.name && n.path == v.path && n.isDir == v.isDir
    && AreNodesOf(n.children, if v.isDir then Kids(vs, v.path, skipNames) else [], nodeAt)
  }

  ghost predicate AreNodesOf(children: seq<FsFileInfo>, paths: seq<Path>, nodeAt: map<Path, FsFileInfo>) {
    && |children| == |paths|
    && forall m | 0 <= m < |paths| :: paths[m] in nodeAt && children[m] == nodeAt[paths[m]]
  }

  /** dirMap leads from the path of each kept directory visited so far to its node. */
  ghost predicate Maps(dirMap: map<Path, FsFileInfo>, vs: seq<Visit>, nodeAt: map<Path, FsFileInfo>,
                       skipNames: seq<string>) {
    && (forall v | v in vs && Kept(v, skipNames) && v.isDir :: v.path in dirMap)
    && (forall p | p in dirMap :: p in nodeAt && dirMap[p] == nodeAt[p] && DirVisited(p, vs, skipNames))
  }

  lemma NodeStep(n: FsFileInfo, w: Visit, was: seq<FsFileInfo>, v: Visit, vs: seq<Visit>,
                 nodeAt: map<Path, FsFileInfo>, fi: FsFileInfo, skipNames: seq<string>)
    requires n.name == w.name && n.path == w.path && n.isDir == w.isDir
    requires AreNodesOf(was, if w.isDir then Kids(vs, w.path, skipNames) else [], nodeAt) && v.path !in nodeAt
    requires n.children == if w.isDir && IsKid(v, w.path, skipNames) then was + [fi] else was
    ensures BuiltNode(n, w, vs + [v], nodeAt[v.path := fi], skipNames)
  {
  }

  /** The new node itself has no children yet. */
  lemma FirstNode(fi: FsFileInfo, v: Visit, vs: seq<Visit>, nodeAt: map<Path, FsFileInfo>, skipNames: seq<string>)
    requires forall w | w in vs :: !(v.path <= w.path)
    requires fi.name == v.name && fi.path == v.path && fi.isDir == v.isDir && fi.children == []
    ensures BuiltNode(fi, v, vs + [v], nodeAt, skipNames)
  {
    NoKids(vs + [v], v.path, skipNames);
  }

  /** The parent directory's node, if dirMap has it, adopts the new node. */
  method Adopt(v: Visit, fi: FsFileInfo, dirMap: map<Path, FsFileInfo>, skipNames: seq<string>, ghost vs: seq<Visit>,
               ghost nodeAt: map<Path, FsFileInfo>)
    requires Kept(v, skipNames) && fi !in nodeAt.Values
    requires forall x, y | x in vs && y in vs && x.path == y.path :: x == y
    requires forall p | p in nodeAt :: nodeAt[p].path == p
    requires forall w | w in vs && Kept(w, skipNames) :: w.path in nodeAt
    requires Maps(dirMap, vs, nodeAt, skipNames)
    modifies nodeAt.Values
    ensures fi.children == old(fi.children)
    ensures forall w | w in vs && Kept(w, skipNames) ::
              nodeAt[w.path].children
              == old(nodeAt[w.path].children) + if w.isDir && IsKid(v, w.path, skipNames) then [fi] else []
  {
    if v.path != [] {
      var parentDir := v.path[..|v.path| - 1];
      if parentDir in dirMap {
        var parent := dirMap[parentDir];
        assert parent == nodeAt[parentDir];
        parent.children := parent.children + [fi];
      }
    }
  }

  /** Adoption takes every node built so far one visit on. */
  method AdoptInto(v: Visit, fi: FsFileInfo, dirMap: map<Path, FsFileInfo>, skipNames: seq<string>,
                   ghost vs: seq<Visit>, ghost nodeAt: map<Path, FsFileInfo>)
    requires Kept(v, skipNames) && fi !in nodeAt.Values && v.path !in nodeAt
    requires forall x, y | x in vs && y in vs && x.path == y.path :: x == y
    requires Built(vs, nodeAt, skipNames) && Maps(dirMap, vs, nodeAt, skipNames)
    modifies nodeAt.Values
    ensures fi.children == old(fi.children)
    ensures forall w | w in vs && Kept(w, skipNames) ::
              BuiltNode(nodeAt[w.path], w, vs + [v], nodeAt[v.path := fi], skipNames)
  {
    Adopt(v, fi, dirMap, skipNames, vs, nodeAt);
    forall w | w in vs && Kept(w, skipNames)
      ensures BuiltNode(nodeAt[w.path], w, vs + [v], nodeAt[v.path := fi], skipNames)
    {
      ghost var was := old(nodeAt[w.path].children);
      assert old(BuiltNode(nodeAt[w.path], w, vs, nodeAt, skipNames));
      assert was + [] == was;
      NodeStep(nodeAt[w.path], w, was, v, vs, nodeAt, fi, skipNames);
    }
  }

  /** One call of the walk function. */
  method OnVisit(v: Visit, dirMap: map<Path, FsFileInfo>, skipNames: seq<string>, ghost vs: seq<Visit>,
                 ghost nodeAt: map<Path, FsFileInfo>)
      returns (dirMap': map<Path, FsFileInfo>, ghost nodeAt': map<Path, FsFileInfo>)
    requires forall w | w in vs :: !(v.path <= w.path)
    requires forall x, y | x in vs && y in vs && x.path == y.path :: x == y
    requires Built(vs, nodeAt, skipNames) && Maps(dirMap, vs, nodeAt, skipNames)
    modifies nodeAt.Values
    ensures fresh(nodeAt'.Values - nodeAt.Values)
    ensures Built(vs + [v], nodeAt', skipNames) && Maps(dirMap', vs + [v], nodeAt', skipNames)
  {
    var fi := new FsFileInfo(v);
    MapsStep(v, dirMap, vs, nodeAt, fi, skipNames);
    if v.name in skipNames {
      SkippedVisit(v, vs, nodeAt, skipNames);
      return dirMap, nodeAt;
    }
    AdoptInto(v, fi, dirMap, skipNames, vs, nodeAt);
    dirMap' := if v.isDir then dirMap[v.path := fi] else dirMap;
    nodeAt' := nodeAt[v.path := fi];
    FirstNode(fi, v, vs, nodeAt', skipNames);
    BuiltMore(v, vs, nodeAt, fi, skipNames);
  }

  lemma BuiltMore(v: Visit, vs: seq<Visit>, nodeAt: map<Path, FsFileInfo>, fi: FsFileInfo, skipNames: seq<string>)
    requires v.path !in nodeAt && fi.path == v.path && forall p | p in nodeAt :: nodeAt[p].path == p && Visited(p, vs)
    requires forall w | w in vs && Kept(w, skipNames) ::
               w.path in nodeAt && BuiltNode(nodeAt[w.path], w, vs + [v], nodeAt[v.path := fi], skipNames)
    requires BuiltNode(fi, v, vs + [v], nodeAt[v.path := fi], skipNames)
    ensures Built(vs + [v], nodeAt[v.path := fi], skipNames)
  {
  }

  lemma SkippedNode(n: FsFileInfo, w: Visit, v: Visit, vs: seq<Visit>, nodeAt: map<Path, FsFileInfo>,
                    skipNames: seq<string>)
    requires v.name in skipNames && BuiltNode(n, w, vs, nodeAt, skipNames)
    ensures BuiltNode(n, w, vs + [v], nodeAt, skipNames)
  {
  }

  lemma SkippedVisit(v: Visit, vs: seq<Visit>, nodeAt: map<Path, FsFileInfo>, skipNames: seq<string>)
    requires v.name in skipNames && Built(vs, nodeAt, skipNames)
    ensures Built(vs + [v], nodeAt, skipNames)
  {
    VisitedMore(vs, v, skipNames);
    forall w | w in vs + [v] && Kept(w, skipNames)
      ensures w in vs && BuiltNode(nodeAt[w.path], w, vs + [v], nodeAt, skipNames)
    {
      SkippedNode(nodeAt[w.path], w, v, vs, nodeAt, skipNames);
    }
  }

  lemma MapsStep(v: Visit, dirMap: map<Path, FsFileInfo>, vs: seq<Visit>, nodeAt: map<Path, FsFileInfo>,
                 fi: FsFileInfo, skipNames: seq<string>)
    requires Maps(dirMap, vs, nodeAt, skipNames) && v.path !in nodeAt
    ensures v.name in skipNames ==> Maps(dirMap, vs + [v], nodeAt, skipNames)
    ensures v.name !in skipNames ==>
            Maps(if v.isDir then dirMap[v.path := fi] else dirMap, vs + [v], nodeAt[v.path := fi], skipNames)
  {
  }

  // ---------- the finished walk ----------

  ghost predicate RepresentsAll(fs: seq<FsFileInfo>, ts: seq<Tree>, dir: Path, region: set<FsFileInfo>)
    reads region
  {
    |fs| == |ts| && forall m | 0 <= m < |ts| :: Represents(fs[m], ts[m], dir + [ts[m].name], region)
  }

  /** Among the visits vs, everything at or below path comes from the walk w. */
  ghost predicate Alike(vs: seq<Visit>, w: seq<Visit>, path: Path, skipNames: seq<string>) {
    && (forall v | v in w :: v in vs)
    && (forall q | path <= q :: Kids(vs, q, skipNames) == Kids(w, q, skipNames))
  }

  lemma {:induction false} PathsInAt(dir: Path, ts: seq<Tree>, m: nat)
    requires m < |ts|
    ensures |PathsIn(dir, ts)| == |ts| && PathsIn(dir, ts)[m] == dir + [ts[m].name]
  {
    if |ts| > 1 {
      PathsInAt(dir, ts[1..], if m > 0 then m - 1 else 0);
    }
  }

  /** Every tree that pruning keeps is the pruned form of a kept one. */
  lemma {:induction false} PruneOrigin(ts: seq<Tree>, skipNames: seq<string>, m: nat) returns (c: Tree)
    requires m < |Prune(ts, skipNames)|
    ensures c in ts && c.name !in skipNames && Prune(ts, skipNames)[m] == PruneNode(c, skipNames)
  {
    if ts[0].name in skipNames {
      c := PruneOrigin(ts[1..], skipNames, m);
    } else if m == 0 {
      c := ts[0];
    } else {
      c := PruneOrigin(ts[1..], skipNames, m - 1);
    }
  }

  /** Below a child, the visits are alike to the child's own walk. */
  lemma ChildAlike(vs: seq<Visit>, path: Path, t: Tree, c: Tree, skipNames: seq<string>)
    requires t.Dir? && DistinctNames(t.children) && c in t.children && Alike(vs, Walk(path, t), path, skipNames)
    ensures Alike(vs, Walk(path + [c.name], c), path + [c.name], skipNames)
  {
    var w := WalkAll(path, t.children);
    WalkHasChild(path, t.children, c);
    forall q | path + [c.name] <= q
      ensures Kids(vs, q, skipNames) == Kids(Walk(path + [c.name], c), q, skipNames)
    {
      KidsBelowRoot(path, t, q, skipNames);
      KidsBelowChild(path, t.children, c, q, skipNames);
      assert path <= q;
    }
  }

  lemma {:induction false} WalkHasChild(dir: Path, ts: seq<Tree>, c: Tree)
    requires c in ts
    ensures forall v | v in Walk(dir + [c.name], c) :: v in WalkAll(dir, ts)
  {
    if c != ts[0] {
      WalkHasChild(dir, ts[1..], c);
    }
  }

  /** At or below a directory, its own visit is nobody's kid. */
  lemma KidsBelowRoot(path: Path, t: Tree, q: Path, skipNames: seq<string>)
    requires t.Dir? && path <= q
    ensures Kids(Walk(path, t), q, skipNames) == Kids(WalkAll(path, t.children), q, skipNames)
  {
    var root := [Visit(path, t.name, true)];
    KidsConcat(root, WalkAll(path, t.children), q, skipNames);
    NoKids(root, q, skipNames);
  }

  /** The node built for a kept tree represents its pruned form. */
  lemma {:induction false} TreeBuilt(vs: seq<Visit>, nodeAt: map<Path, FsFileInfo>, path: Path, t: Tree,
                                     skipNames: seq<string>, region: set<FsFileInfo>)
    requires Built(vs, nodeAt, skipNames) && nodeAt.Values <= region
    requires Alike(vs, Walk(path, t), path, skipNames) && t.name !in skipNames
    requires t.Dir? ==> DistinctNames(t.children)
    ensures path in nodeAt && Represents(nodeAt[path], PruneNode(t, skipNames), path, region)
    decreases t
  {
    var v := Walk(path, t)[0];
    assert v in vs && Kept(v, skipNames) && BuiltNode(nodeAt[v.path], v, vs, nodeAt, skipNames);
    var f := nodeAt[path];
    if t.Dir? {
      var ts := Prune(t.children, skipNames);
      KidsBelowRoot(path, t, path, skipNames);
      KidsArePruned(path, t.children, skipNames);
      assert AreNodesOf(f.children, PathsIn(path, ts), nodeAt);
      if ts != [] { PathsInAt(path, ts, 0); }
      forall m | 0 <= m < |ts|
        ensures Represents(f.children[m], ts[m], path + [ts[m].name], region)
      {
        PathsInAt(path, ts, m);
        var c := PruneOrigin(t.children, skipNames, m);
        ChildAlike(vs, path, t, c, skipNames);
        if c.Dir? { ChildDistinct(t.children, c); }
        TreeBuilt(vs, nodeAt, path + [c.name], c, skipNames, region);
      }
    }
  }

  lemma {:induction false} ChildDistinct(ts: seq<Tree>, c: Tree)
    requires DistinctNames(ts) && c in ts && c.Dir?
    ensures DistinctNames(c.children)
  {
    if c != ts[0] {
      ChildDistinct(ts[1..], c);
    }
  }

  // ---------- List ----------

  /** ServiceV2.List over the tree found at fullPath. The walk reports an error after failsAfter visits
      if it has more to make; a missing path fails at once. Without an error the result is the pruned tree. */
  method List(t: Tree, fullPath: Path, skipNames: seq<string>, failsAfter: nat)
      returns (files: seq<FsFileInfo>, ok: bool, ghost region: set<FsFileInfo>)
    requires t.Dir? ==> DistinctNames(t.children)
    ensures ok <==> failsAfter >= |Walk(fullPath, t)|
    ensures fresh(region)
    ensures ok ==> RepresentsAll(files, if t.Dir? && t.name !in skipNames then Prune(t.children, skipNames) else [],
                                 fullPath, region)
  {
    var vs := Walk(fullPath, t);
    WalkIsPreOrder(fullPath, t);
    var dirMap: map<Path, FsFileInfo> := map[];
    ghost var nodeAt: map<Path, FsFileInfo> := map[];
    var n := if failsAfter < |vs| then failsAfter else |vs|;
    for i := 0 to n
      invariant Built(vs[..i], nodeAt, skipNames) && Maps(dirMap, vs[..i], nodeAt, skipNames)
      invariant fresh(nodeAt.Values)
    {
      PrefixApart(vs, i);
      ghost var seen := vs[..i];
      dirMap, nodeAt := OnVisit(vs[i], dirMap, skipNames, seen, nodeAt);
    }
    ok := n == |vs|;
    files := if fullPath in dirMap then dirMap[fullPath].children else [];
    region := nodeAt.Values;
    if ok {
      assert vs[..n] == vs;
      RootBuilt(vs, nodeAt, dirMap, t, fullPath, skipNames);
    }
  }

  lemma PrefixApart(vs: seq<Visit>, i: nat)
    requires PreOrder(vs) && i < |vs|
    ensures forall w | w in vs[..i] :: !(vs[i].path <= w.path)
    ensures forall x, y | x in vs[..i] && y in vs[..i] && x.path == y.path :: x == y
    ensures vs[..i + 1] == vs[..i] + [vs[i]]
  {
  }

  lemma RootBuilt(vs: seq<Visit>, nodeAt: map<Path, FsFileInfo>, dirMap: map<Path, FsFileInfo>, t: Tree,
                  fullPath: Path, skipNames: seq<string>)
    requires vs == Walk(fullPath, t) && (t.Dir? ==> DistinctNames(t.children))
    requires Built(vs, nodeAt, skipNames) && Maps(dirMap, vs, nodeAt, skipNames)
    ensures RepresentsAll(if fullPath in dirMap then dirMap[fullPath].children else [],
                          if t.Dir? && t.name !in skipNames then Prune(t.children, skipNames) else [],
                          fullPath, nodeAt.Values)
  {
    var root := vs[0];
    assert root == Visit(fullPath, t.name, t.Dir?) && root in vs;
    WalkExtends(fullPath, t);
    assert forall v | v in vs :: v == root || v in vs[1..];
    if Kept(root, skipNames) && root.isDir {
      TreeBuilt(vs, nodeAt, fullPath, t, skipNames, nodeAt.Values);
    }
  }
}
