/** SyncRemoteToLocal (fs/seaweedfs_manager.go): bringing a local directory in line with a remote one. Nothing is
    assumed of the local root but that it is a clean path: what becomes of a disk whose paths contain the root a
    second time is part of the specification. */
module RemoteToLocal {
  import opened FileIndex
  import opened LocalDisk
  import opened RemoteTree
  import opened Sequences
  import opened Text

  // ---------- mirrors ----------

  /** p is the place of a remote file. */
  ghost predicate IsPlace(p: string, remote: set<Entry>, r: Roots) {
    exists e | e in remote && e.File? :: r.Place(e) == p
  }

  ghost predicate AllInPlace(files: map<string, string>, remote: set<Entry>, r: Roots) {
    forall e | e in remote && e.File? :: Holds(files, r.Place(e), e.md5)
  }

  /** A local file that a mirror must not have. */
  ghost predicate IsStray(p: string, remote: set<Entry>, r: Roots) {
    Under(p, r.local) && !IsGitFile(p) && !IsPlace(p, remote, r)
  }

  /** The remote files are present below the local root with equal checksums, and every other file there belongs to a
      .git directory. */
  ghost predicate Mirrors(files: map<string, string>, remote: set<Entry>, r: Roots) {
    AllInPlace(files, remote, r) && forall p | p in files :: !IsStray(p, remote, r)
  }

  /** Files outside the root, and .git files the remote lacks, are as before. */
  ghost predicate Spares(before: map<string, string>, after: map<string, string>, remote: set<Entry>, r: Roots) {
    forall p | !IsPlace(p, remote, r) && !IsStray(p, remote, r) :: Same(before, after, p)
  }

  /** The conditions leave no freedom: they determine the synchronised disk. */
  lemma MirrorIsDetermined(before: map<string, string>, one: map<string, string>, two: map<string, string>,
                           remote: set<Entry>, r: Roots)
    requires Mirrors(one, remote, r) && Spares(before, one, remote, r)
    requires Mirrors(two, remote, r) && Spares(before, two, remote, r)
    ensures one == two
  {
    forall p ensures Same(one, two, p) {
      if IsPlace(p, remote, r) {
        var e :| e in remote && e.File? && r.Place(e) == p;
        assert Holds(one, r.Place(e), e.md5) && Holds(two, r.Place(e), e.md5);
      } else if !IsStray(p, remote, r) {
        assert Same(before, one, p) && Same(before, two, p);
      }
    }
    assert forall p | p in one || p in two :: Same(one, two, p);
  }

  // ---------- what a run does ----------

  function Paths(remote: set<Entry>): set<string> {
    set e | e in remote :: e.path
  }

  /** The delete pass of one synchronisation keeps p: it is outside, a .git file, or its key is a remote path. */
  ghost predicate Stays(p: string, remote: set<Entry>, r: Roots)
    requires r.local != ""
  {
    Under(p, r.local) && !IsGitFile(p) ==> r.Key(p) in Paths(remote)
  }

  /** So do the delete passes of the nested synchronisations of these directories. */
  ghost predicate StaysIn(p: string, remote: set<Entry>, dirs: set<Entry>, r: Roots)
    requires r.local != ""
  {
    forall d | d in dirs && d.Dir? :: Stays(p, PartOf(remote, d.path), r.Sub(d))
  }

  /** Every delete pass of a run keeps p. */
  ghost predicate AlwaysStays(p: string, remote: set<Entry>, r: Roots)
    requires r.local != ""
  {
    Stays(p, remote, r) && StaysIn(p, remote, remote, r)
  }

  /** The index calls the remote file e up to date: the last local file with its key has its checksum. */
  ghost predicate Called(listed: seq<FileInfo>, e: Entry, r: Roots)
    requires r.local != "" && e.File?
  {
    exists f :: IsLastWith(listed, f, e.path, r.local, r.remote) && f.md5 == e.md5
  }

  /** e lies in the root itself, not in a listed directory. */
  ghost predicate Direct(e: Entry, remote: set<Entry>) {
    forall d | d in remote && d.Dir? :: !Below(e.path, d.path)
  }

  /** q may come to hold this content in a run: it does, and the delete pass keeps it, or it is the place of a remote
      file with this content. */
  ghost predicate MayHold(q: string, md5: string, before: map<string, string>, remote: set<Entry>, r: Roots)
    requires r.local != ""
  {
    || (Holds(before, q, md5) && Stays(q, remote, r))
    || exists f | f in remote && f.File? && f.md5 == md5 :: r.Place(f) == q
  }

  /** The file lies in its place, and every delete pass keeps it. */
  ghost predicate KeptInPlace(e: Entry, before: map<string, string>, remote: set<Entry>, r: Roots)
    requires r.local != "" && e.File?
  {
    Holds(before, r.Place(e), e.md5) && AlwaysStays(r.Place(e), remote, r)
  }

  /** In the synchronisation of its own directory, no other file with the same content has the key of e. */
  ghost predicate Unmistaken(e: Entry, before: map<string, string>, remote: set<Entry>, r: Roots)
    requires r.local != "" && e.File?
  {
    forall d | d in remote && d.Dir? && Below(e.path, d.path) && Direct(e, PartOf(remote, d.path)) ::
      NoImpostor(e, d, before, remote, r)
  }

  ghost predicate NoImpostor(e: Entry, d: Entry, before: map<string, string>, remote: set<Entry>, r: Roots)
    requires r.local != "" && e.File?
  {
    forall q | Under(q, r.Sub(d).local) && q != r.Place(e) && r.Sub(d).Key(q) == e.path ::
      !MayHold(q, e.md5, before, remote, r)
  }

  /** The synchronisation of every directory above e is sure to mistake another file for it. */
  ghost predicate Fooled(e: Entry, before: map<string, string>, remote: set<Entry>, r: Roots)
    requires r.local != "" && e.File?
  {
    forall d | d in remote && d.Dir? && Below(e.path, d.path) :: FooledIn(e, d, before, remote, r)
  }

  /** A file with its key and content is there throughout, and no file that may be there has its key and other
      content. */
  ghost predicate FooledIn(e: Entry, d: Entry, before: map<string, string>, remote: set<Entry>, r: Roots)
    requires r.local != "" && e.File?
  {
    && (exists q :: Impostor(q, e, d, before, remote, r))
    && (forall q, md5 | MayHold(q, md5, before, remote, r) :: HasKey(q, e, d, r) ==> md5 == e.md5)
  }

  predicate HasKey(q: string, e: Entry, d: Entry, r: Roots)
    requires r.local != ""
  {
    Under(q, r.Sub(d).local) && r.Sub(d).Key(q) == e.path
  }

  ghost predicate Impostor(q: string, e: Entry, d: Entry, before: map<string, string>, remote: set<Entry>, r: Roots)
    requires r.local != "" && e.File?
  {
    HasKey(q, e, d, r) && Holds(before, q, e.md5) && AlwaysStays(q, remote, r)
  }

  /** What is no place of a remote file is only ever removed: by the outer delete pass, or by that of a directory
      already done. Nothing is removed that all delete passes keep. */
  ghost predicate StrayPart(before: map<string, string>, now: map<string, string>, remote: set<Entry>,
                            done: set<Entry>, r: Roots)
    requires r.local != ""
  {
    && (forall p | p in now && !IsPlace(p, remote, r) ::
          Holds(before, p, now[p]) && Stays(p, remote, r) && StaysIn(p, remote, done, r))
    && (forall p | p in before && !IsPlace(p, remote, r) && AlwaysStays(p, remote, r) :: p in now)
  }

  /** The place of a remote file holds its content, or what was there before and the delete pass keeps. What lies in
      place and is always kept remains. */
  ghost predicate ContentPart(before: map<string, string>, now: map<string, string>, remote: set<Entry>, r: Roots)
    requires r.local != ""
  {
    && (forall e | e in remote && e.File? && r.Place(e) in now ::
          || now[r.Place(e)] == e.md5
          || (Holds(before, r.Place(e), now[r.Place(e)]) && Stays(r.Place(e), remote, r)))
    && (forall e | e in remote && e.File? && KeptInPlace(e, before, remote, r) :: Holds(now, r.Place(e), e.md5))
  }

  /** A file in the root itself is written unless the index calls it up to date; then its place is left as the delete
      pass leaves it. */
  ghost predicate DirectPart(before: map<string, string>, now: map<string, string>, listed: seq<FileInfo>,
                             remote: set<Entry>, done: set<Entry>, r: Roots)
    requires r.local != ""
  {
    forall e | e in remote && e.File? && Direct(e, remote) :: DirectOk(before, now, listed, e, e in done, remote, r)
  }

  ghost predicate DirectOk(before: map<string, string>, now: map<string, string>, listed: seq<FileInfo>, e: Entry,
                           finished: bool, remote: set<Entry>, r: Roots)
    requires r.local != "" && e.File?
  {
    var p := r.Place(e);
    if finished && !Called(listed, e, r) then Holds(now, p, e.md5)
    else if Stays(p, remote, r) then Same(before, now, p)
    else p !in now
  }

  /** A file in a listed directory is in place if the outer index does not call it up to date, or if its own directory
      does not mistake another file for it. It is not written if the outer index calls it up to date and all directories
      above it are fooled. */
  ghost predicate DeepPart(before: map<string, string>, now: map<string, string>, listed: seq<FileInfo>,
                           remote: set<Entry>, done: set<Entry>, r: Roots)
    requires r.local != ""
  {
    forall e | e in remote && e.File? && !Direct(e, remote) :: DeepOk(before, now, listed, e, remote, done, r)
  }

  ghost predicate DeepOk(before: map<string, string>, now: map<string, string>, listed: seq<FileInfo>, e: Entry,
                         remote: set<Entry>, done: set<Entry>, r: Roots)
    requires r.local != "" && e.File?
  {
    && (e in done && !Called(listed, e, r) ==> Holds(now, r.Place(e), e.md5))
    && (Entered(e, done) && Unmistaken(e, before, remote, r) ==> Holds(now, r.Place(e), e.md5))
    && (Called(listed, e, r) && Fooled(e, before, remote, r) && r.Place(e) !in before ==> r.Place(e) !in now)
  }

  ghost predicate Entered(e: Entry, done: set<Entry>) {
    exists d | d in done && d.Dir? :: Below(e.path, d.path)
  }

  /** What holds between two entries of the copy pass, done being those dealt with. */
  ghost predicate Progress(before: map<string, string>, now: map<string, string>, listed: seq<FileInfo>,
                           remote: set<Entry>, done: set<Entry>, r: Roots)
    requires r.local != ""
  {
    && StrayPart(before, now, remote, done, r)
    && ContentPart(before, now, remote, r)
    && DirectPart(before, now, listed, remote, done, r)
    && DeepPart(before, now, listed, remote, done, r)
  }

  /** What an error-free run makes of the disk, listed being the local listing it started from. */
  ghost predicate Outcome(before: map<string, string>, after: map<string, string>, listed: seq<FileInfo>,
                          remote: set<Entry>, r: Roots)
    requires r.local != ""
  {
    Progress(before, after, listed, remote, remote, r)
  }

  // ---------- places ----------

  /** Where the copy pass puts an entry. */
  function LocalPathOf(e: Entry, r: Roots): string {
    r.local + ReplaceFirst(e.path, r.remote, "")
  }

  lemma PlaceIs(e: Entry, r: Roots)
    requires Below(e.path, r.remote)
    ensures LocalPathOf(e, r) == r.Place(e) && Under(r.Place(e), r.local) && r.Place(e) != r.local
    ensures Rel(r.Place(e), r.local) == Rel(e.path, r.remote) && e.path == r.remote + Rel(e.path, r.remote)
  {
    EraseFirst(e.path, r.remote);
    RelStarts(e.path, r.remote);
    PlusRel(r.local, Rel(e.path, r.remote));
    UnderPlus(r.local, Rel(e.path, r.remote));
  }

  lemma RelStarts(path: string, root: string)
    requires Below(path, root)
    ensures "/" <= Rel(path, root)
  {
    assert path[|root|] == (root + "/")[|root|];
  }

  lemma PlusRel(root: string, rel: string)
    ensures Rel(root + rel, root) == rel
  {
  }

  lemma UnderPlus(root: string, rel: string)
    requires "/" <= rel
    ensures Under(root + rel, root) && root + rel != root
  {
    assert root + rel == root + "/" + rel[1..];
    assert |root + rel| > |root|;
  }

  lemma EraseFirst(path: string, root: string)
    requires root <= path
    ensures ReplaceFirst(path, root, "") == Rel(path, root) && path == root + Rel(path, root)
  {
    assert OccursAt(path, root, 0);
    FirstIndexIs(path, root, 0);
    assert path[..0] + "" + path[|root|..] == path[|root|..];
  }

  /** Two entries in the same place are one. */
  lemma PlacesAreUnique(remote: set<Entry>, e: Entry, f: Entry, r: Roots)
    requires Proper(remote, r.remote) && e in remote && f in remote && r.Place(e) == r.Place(f)
    ensures e == f
  {
    PlaceIs(e, r);
    PlaceIs(f, r);
  }

  /** A nested synchronisation puts an entry in the same place. */
  lemma PlaceFromSub(e: Entry, d: Entry, r: Roots)
    requires Below(d.path, r.remote) && Below(e.path, d.path)
    ensures r.Sub(d).Place(e) == r.Place(e)
  {
    PlaceIs(d, r);
    RelTwice(e.path, r.remote, Rel(d.path, r.remote));
    Assoc(r.local, Rel(d.path, r.remote), Rel(e.path, d.path));
  }

  lemma UnderTwice(p: string, root: string, rel: string)
    requires Under(p, root + rel) && "/" <= rel
    ensures Under(p, root)
  {
  }

  lemma UnderSub(p: string, d: Entry, r: Roots)
    requires Below(d.path, r.remote) && Under(p, r.Sub(d).local)
    ensures Under(p, r.local)
  {
    PlaceIs(d, r);
    UnderTwice(p, r.local, Rel(d.path, r.remote));
  }

  /** The place of a file lies under that of a directory exactly when the file lies below the directory. */
  lemma PlaceUnderSub(remote: set<Entry>, e: Entry, d: Entry, r: Roots)
    requires Proper(remote, r.remote) && e in remote && e.File? && d in remote && d.Dir?
    ensures Under(r.Place(e), r.Sub(d).local) <==> Below(e.path, d.path)
  {
    PlaceIs(e, r);
    PlaceIs(d, r);
    if r.Place(e) == r.Place(d) {
      PlacesAreUnique(remote, e, d, r);
    }
    SamePrefix(r.local, Rel(d.path, r.remote) + "/", Rel(e.path, r.remote));
    SamePrefix(r.remote, Rel(d.path, r.remote) + "/", Rel(e.path, r.remote));
    Assoc(r.local, Rel(d.path, r.remote), "/");
    Assoc(r.remote, Rel(d.path, r.remote), "/");
  }

  lemma SamePrefix(a: string, s: string, t: string)
    ensures a + s <= a + t <==> s <= t
  {
    if a + s <= a + t {
      assert s == (a + t)[|a|..|a| + |s|] == t[..|s|];
    }
    if s <= t {
      assert a + t == a + s + t[|s|..];
    }
  }

  /** Below a directory, the places of the whole and of the part are the same. */
  lemma PlacesUnderSub(remote: set<Entry>, d: Entry, p: string, r: Roots)
    requires Proper(remote, r.remote) && d in remote && d.Dir? && Under(p, r.Sub(d).local)
    ensures IsPlace(p, remote, r) <==> IsPlace(p, PartOf(remote, d.path), r.Sub(d))
  {
    forall e | e in remote && e.File? && r.Place(e) == p
      ensures e in PartOf(remote, d.path) && r.Sub(d).Place(e) == p
    {
      PlaceUnderSub(remote, e, d, r);
      PlaceFromSub(e, d, r);
    }
    forall e | e in PartOf(remote, d.path) && e.File? && r.Sub(d).Place(e) == p
      ensures e in remote && r.Place(e) == p
    {
      PlaceFromSub(e, d, r);
    }
  }

  lemma PlacesOutsideSub(remote: set<Entry>, d: Entry, p: string, r: Roots)
    requires Proper(remote, r.remote) && d in remote && d.Dir? && !Under(p, r.Sub(d).local)
    ensures !IsPlace(p, PartOf(remote, d.path), r.Sub(d))
  {
    forall e | e in PartOf(remote, d.path) && e.File? ensures r.Sub(d).Place(e) != p {
      PlaceFromSub(e, d, r);
      PlaceUnderSub(remote, e, d, r);
    }
  }

  lemma PartOfPart(remote: set<Entry>, d: Entry, x: Entry)
    requires Below(x.path, d.path)
    ensures PartOf(PartOf(remote, d.path), x.path) == PartOf(remote, x.path)
  {
    forall e: Entry | Below(e.path, x.path) ensures Below(e.path, d.path) {
      assert d.path + "/" <= x.path <= e.path;
    }
  }

  // ---------- the steps of the copy pass ----------

  /** Removing the local files whose key is no remote path starts the copy pass off. */
  lemma ProgressStarts(before: map<string, string>, now: map<string, string>, listed: seq<FileInfo>, remote: set<Entry>,
                       r: Roots)
    requires r.local != ""
    requires forall p :: p in now <==> p in before && Stays(p, remote, r)
    requires forall p | p in now :: now[p] == before[p]
    ensures Progress(before, now, listed, remote, {}, r)
  {
    StraysStart(before, now, remote, r);
    FilesStart(before, now, listed, remote, r);
  }

  lemma StraysStart(before: map<string, string>, now: map<string, string>, remote: set<Entry>, r: Roots)
    requires r.local != ""
    requires forall p :: p in now <==> p in before && Stays(p, remote, r)
    requires forall p | p in now :: now[p] == before[p]
    ensures StrayPart(before, now, remote, {}, r) && ContentPart(before, now, remote, r)
  {
  }

  lemma FilesStart(before: map<string, string>, now: map<string, string>, listed: seq<FileInfo>, remote: set<Entry>,
                   r: Roots)
    requires r.local != ""
    requires forall p :: p in now <==> p in before && Stays(p, remote, r)
    requires forall p | p in now :: now[p] == before[p]
    ensures DirectPart(before, now, listed, remote, {}, r) && DeepPart(before, now, listed, remote, {}, r)
  {
    forall e | e in remote && e.File? ensures !Entered(e, {}) && e !in {} {
    }
  }

  ghost predicate FileStepped(now: map<string, string>, next: map<string, string>, listed: seq<FileInfo>, f: Entry,
                              r: Roots)
    requires r.local != "" && f.File?
  {
    next == if Called(listed, f, r) then now else now[r.Place(f) := f.md5]
  }

  lemma FileStep(before: map<string, string>, now: map<string, string>, next: map<string, string>,
                 listed: seq<FileInfo>, remote: set<Entry>, done: set<Entry>, f: Entry, r: Roots)
    requires r.local != "" && Proper(remote, r.remote) && f in remote && f.File?
    requires Progress(before, now, listed, remote, done, r) && FileStepped(now, next, listed, f, r)
    ensures Progress(before, next, listed, remote, done + {f}, r)
  {
    FileStepStrays(before, now, next, listed, remote, done, f, r);
    forall e | e in remote && e.File? && e != f ensures Same(now, next, r.Place(e)) {
      if r.Place(e) == r.Place(f) { PlacesAreUnique(remote, e, f, r); }
    }
    FileStepContents(before, now, next, listed, remote, f, r);
    FileStepDirects(before, now, next, listed, remote, done, f, r);
    FileStepDeeps(before, now, next, listed, remote, done, f, r);
  }

  lemma FileStepStrays(before: map<string, string>, now: map<string, string>, next: map<string, string>,
                       listed: seq<FileInfo>, remote: set<Entry>, done: set<Entry>, f: Entry, r: Roots)
    requires r.local != "" && f in remote && f.File? && FileStepped(now, next, listed, f, r)
    requires StrayPart(before, now, remote, done, r)
    ensures StrayPart(before, next, remote, done + {f}, r)
  {
    forall p | !IsPlace(p, remote, r) ensures Same(now, next, p) {
      assert p != r.Place(f);
    }
  }

  lemma FileStepContents(before: map<string, string>, now: map<string, string>, next: map<string, string>,
                         listed: seq<FileInfo>, remote: set<Entry>, f: Entry, r: Roots)
    requires r.local != "" && f in remote && f.File? && FileStepped(now, next, listed, f, r)
    requires forall e | e in remote && e.File? && e != f :: Same(now, next, r.Place(e))
    requires ContentPart(before, now, remote, r)
    ensures ContentPart(before, next, remote, r)
  {
  }

  lemma FileStepDirects(before: map<string, string>, now: map<string, string>, next: map<string, string>,
                        listed: seq<FileInfo>, remote: set<Entry>, done: set<Entry>, f: Entry, r: Roots)
    requires r.local != "" && f in remote && f.File? && FileStepped(now, next, listed, f, r)
    requires forall e | e in remote && e.File? && e != f :: Same(now, next, r.Place(e))
    requires DirectPart(before, now, listed, remote, done, r)
    ensures DirectPart(before, next, listed, remote, done + {f}, r)
  {
    forall e | e in remote && e.File? && Direct(e, remote)
      ensures DirectOk(before, next, listed, e, e in done + {f}, remote, r)
    {
      assert DirectOk(before, now, listed, e, e in done, remote, r);
    }
  }

  lemma FileStepDeeps(before: map<string, string>, now: map<string, string>, next: map<string, string>,
                      listed: seq<FileInfo>, remote: set<Entry>, done: set<Entry>, f: Entry, r: Roots)
    requires r.local != "" && f in remote && f.File? && FileStepped(now, next, listed, f, r)
    requires forall e | e in remote && e.File? && e != f :: Same(now, next, r.Place(e))
    requires DeepPart(before, now, listed, remote, done, r)
    ensures DeepPart(before, next, listed, remote, done + {f}, r)
  {
    forall e | e in remote && e.File? && !Direct(e, remote)
      ensures DeepOk(before, next, listed, e, remote, done + {f}, r)
    {
      assert DeepOk(before, now, listed, e, remote, done, r);
      assert Entered(e, done + {f}) <==> Entered(e, done);
    }
  }

  /** What the finished synchronisation of a directory guarantees. */
  ghost predicate DirStepped(now: map<string, string>, next: map<string, string>, listed: seq<FileInfo>,
                             remote: set<Entry>, d: Entry, r: Roots)
    requires r.local != ""
  {
    && Outcome(now, next, listed, PartOf(remote, d.path), r.Sub(d))
    && Lists(listed, now, r.Sub(d).local)
  }

  /** A nested synchronisation removes, of what is no remote file, what its own delete passes do not keep. */
  lemma SubStray(now: map<string, string>, next: map<string, string>, listed: seq<FileInfo>, remote: set<Entry>,
                 d: Entry, p: string, r: Roots)
    requires r.local != "" && Proper(remote, r.remote) && d in remote && d.Dir? && !IsPlace(p, remote, r)
    requires DirStepped(now, next, listed, remote, d, r)
    ensures p in next ==> Holds(now, p, next[p]) && Stays(p, PartOf(remote, d.path), r.Sub(d))
    ensures p in now && StaysIn(p, remote, remote, r) ==> p in next
  {
    var part, sub := PartOf(remote, d.path), r.Sub(d);
    if Under(p, sub.local) {
      PlacesUnderSub(remote, d, p, r);
    } else {
      PlacesOutsideSub(remote, d, p, r);
    }
    if StaysIn(p, remote, remote, r) { AlwaysStaysBelow(remote, d, p, r); }
  }

  /** What every delete pass keeps, those from a directory on do. */
  lemma AlwaysStaysBelow(remote: set<Entry>, d: Entry, p: string, r: Roots)
    requires r.local != "" && Proper(remote, r.remote) && d in remote && d.Dir? && StaysIn(p, remote, remote, r)
    ensures AlwaysStays(p, PartOf(remote, d.path), r.Sub(d))
  {
    var part, sub := PartOf(remote, d.path), r.Sub(d);
    assert Stays(p, part, sub);
    forall x | x in part && x.Dir? ensures Stays(p, PartOf(part, x.path), sub.Sub(x)) {
      PartOfPart(remote, d, x);
      PlaceFromSub(x, d, r);
      assert Stays(p, PartOf(remote, x.path), r.Sub(x));
    }
  }

  lemma OutsideSub(now: map<string, string>, next: map<string, string>, listed: seq<FileInfo>, remote: set<Entry>,
                   d: Entry, p: string, r: Roots)
    requires r.local != "" && Proper(remote, r.remote) && d in remote && d.Dir? && !Under(p, r.Sub(d).local)
    requires DirStepped(now, next, listed, remote, d, r)
    ensures Same(now, next, p)
  {
    var part, sub := PartOf(remote, d.path), r.Sub(d);
    PlacesOutsideSub(remote, d, p, r);
    OutsideStays(p, part, sub);
    assert AlwaysStays(p, part, sub) by {
      forall x | x in part && x.Dir? ensures Stays(p, PartOf(part, x.path), sub.Sub(x)) {
        PlaceIs(x, sub);
        if Under(p, sub.Sub(x).local) { UnderSub(p, x, sub); }
      }
    }
  }

  lemma OutsideStays(p: string, remote: set<Entry>, r: Roots)
    requires r.local != "" && !Under(p, r.local)
    ensures Stays(p, remote, r)
  {
  }

  lemma DirStep(before: map<string, string>, now: map<string, string>, next: map<string, string>, listed: seq<FileInfo>,
                below: seq<FileInfo>, remote: set<Entry>, done: set<Entry>, d: Entry, r: Roots)
    requires r.local != "" && Proper(remote, r.remote) && d in remote && d.Dir?
    requires Progress(before, now, listed, remote, done, r) && DirStepped(now, next, below, remote, d, r)
    requires forall e | e in done :: !Below(e.path, d.path)
    ensures Progress(before, next, listed, remote, done + {d}, r)
  {
    DirStepStrays(before, now, next, below, remote, done, d, r);
    forall e | e in remote && e.File? && !Below(e.path, d.path) ensures Same(now, next, r.Place(e)) {
      PlaceUnderSub(remote, e, d, r);
      OutsideSub(now, next, below, remote, d, r.Place(e), r);
    }
    DirStepContents(before, now, next, below, remote, d, r);
    DirStepDirects(before, now, next, listed, remote, done, d, r);
    DirStepDeeps(before, now, next, listed, below, remote, done, d, r);
  }

  lemma DirStepStrays(before: map<string, string>, now: map<string, string>, next: map<string, string>,
                      below: seq<FileInfo>, remote: set<Entry>, done: set<Entry>, d: Entry, r: Roots)
    requires r.local != "" && Proper(remote, r.remote) && d in remote && d.Dir?
    requires StrayPart(before, now, remote, done, r) && DirStepped(now, next, below, remote, d, r)
    ensures StrayPart(before, next, remote, done + {d}, r)
  {
    forall p | !IsPlace(p, remote, r)
      ensures p in next ==> Holds(now, p, next[p]) && Stays(p, PartOf(remote, d.path), r.Sub(d))
      ensures p in now && AlwaysStays(p, remote, r) ==> p in next
    {
      SubStray(now, next, below, remote, d, p, r);
    }
  }

  lemma DirStepContents(before: map<string, string>, now: map<string, string>, next: map<string, string>,
                        below: seq<FileInfo>, remote: set<Entry>, d: Entry, r: Roots)
    requires r.local != "" && Proper(remote, r.remote) && d in remote && d.Dir?
    requires ContentPart(before, now, remote, r) && DirStepped(now, next, below, remote, d, r)
    requires forall e | e in remote && e.File? && !Below(e.path, d.path) :: Same(now, next, r.Place(e))
    ensures ContentPart(before, next, remote, r)
  {
    var part, sub := PartOf(remote, d.path), r.Sub(d);
    forall e | e in remote && e.File? && Below(e.path, d.path)
      ensures e in part && sub.Place(e) == r.Place(e)
      ensures KeptInPlace(e, before, remote, r) ==> KeptInPlace(e, now, part, sub)
    {
      PlaceFromSub(e, d, r);
      if KeptInPlace(e, before, remote, r) { AlwaysStaysBelow(remote, d, r.Place(e), r); }
    }
  }

  lemma DirStepDirects(before: map<string, string>, now: map<string, string>, next: map<string, string>,
                       listed: seq<FileInfo>, remote: set<Entry>, done: set<Entry>, d: Entry, r: Roots)
    requires r.local != "" && d in remote && d.Dir? && DirectPart(before, now, listed, remote, done, r)
    requires forall e | e in remote && e.File? && !Below(e.path, d.path) :: Same(now, next, r.Place(e))
    ensures DirectPart(before, next, listed, remote, done + {d}, r)
  {
    forall e | e in remote && e.File? && Direct(e, remote)
      ensures DirectOk(before, next, listed, e, e in done + {d}, remote, r)
    {
      assert DirectOk(before, now, listed, e, e in done, remote, r);
    }
  }

  lemma DirStepDeeps(before: map<string, string>, now: map<string, string>, next: map<string, string>,
                     listed: seq<FileInfo>,
                     below: seq<FileInfo>, remote: set<Entry>, done: set<Entry>, d: Entry, r: Roots)
    requires r.local != "" && Proper(remote, r.remote) && d in remote && d.Dir?
    requires Progress(before, now, listed, remote, done, r) && DirStepped(now, next, below, remote, d, r)
    requires forall e | e in done :: !Below(e.path, d.path)
    requires forall e | e in remote && e.File? && !Below(e.path, d.path) :: Same(now, next, r.Place(e))
    ensures DeepPart(before, next, listed, remote, done + {d}, r)
  {
    forall e | e in remote && e.File? && !Direct(e, remote)
      ensures DeepOk(before, next, listed, e, remote, done + {d}, r)
    {
      assert DeepOk(before, now, listed, e, remote, done, r);
      if Below(e.path, d.path) {
        if Unmistaken(e, before, remote, r) {
          BelowEndsInPlace(before, now, next, listed, below, remote, done, e, d, r);
        }
        if Called(listed, e, r) && Fooled(e, before, remote, r) && r.Place(e) !in before {
          BelowIsNotWritten(before, now, next, listed, below, remote, done, e, d, r);
        }
      } else {
        assert Entered(e, done + {d}) <==> Entered(e, done);
      }
    }
  }

  /** What a disk on the way holds could be held in the first place. */
  lemma MayHoldLater(before: map<string, string>, now: map<string, string>, listed: seq<FileInfo>, remote: set<Entry>,
                     done: set<Entry>, q: string, md5: string, r: Roots)
    requires r.local != "" && Progress(before, now, listed, remote, done, r) && Holds(now, q, md5)
    ensures MayHold(q, md5, before, remote, r)
  {
    if IsPlace(q, remote, r) {
      var e :| e in remote && e.File? && r.Place(e) == q;
      assert r.Place(e) in now;
    }
  }

  /** So for the synchronisation of a directory. */
  lemma MayHoldBelow(before: map<string, string>, now: map<string, string>, listed: seq<FileInfo>, remote: set<Entry>,
                     done: set<Entry>, d: Entry, q: string, md5: string, r: Roots)
    requires r.local != "" && Proper(remote, r.remote) && d in remote && d.Dir?
    requires Progress(before, now, listed, remote, done, r)
    requires MayHold(q, md5, now, PartOf(remote, d.path), r.Sub(d))
    ensures MayHold(q, md5, before, remote, r)
  {
    if Holds(now, q, md5) {
      MayHoldLater(before, now, listed, remote, done, q, md5, r);
    } else {
      var f :| f in PartOf(remote, d.path) && f.File? && f.md5 == md5 && r.Sub(d).Place(f) == q;
      PlaceFromSub(f, d, r);
    }
  }

  /** An impostor that is there throughout is there on the way. */
  lemma ImpostorStays(before: map<string, string>, now: map<string, string>, listed: seq<FileInfo>, remote: set<Entry>,
                      done: set<Entry>, e: Entry, d: Entry, q: string, r: Roots)
    requires r.local != "" && e.File? && Progress(before, now, listed, remote, done, r)
    requires FooledIn(e, d, before, remote, r) && Impostor(q, e, d, before, remote, r)
    ensures Holds(now, q, e.md5)
  {
    if IsPlace(q, remote, r) {
      var f :| f in remote && f.File? && r.Place(f) == q;
      assert MayHold(q, f.md5, before, remote, r);
      assert KeptInPlace(f, before, remote, r);
    }
  }

  /** The last of the listed files with a key. */
  lemma {:induction false} LastExists(listed: seq<FileInfo>, f: FileInfo, k: string, r: Roots) returns (g: FileInfo)
    requires r.local != "" && f in listed && r.Key(f.path) == k
    ensures IsLastWith(listed, g, k, r.local, r.remote)
    decreases |listed|
  {
    var n := |listed| - 1;
    if r.Key(listed[n].path) == k {
      g := listed[n];
      assert IsLastAt(listed, n, k, r.local, r.remote);
    } else {
      g := LastExists(listed[..n], f, k, r);
      assert listed == listed[..n] + [listed[n]];
      LastOfMore(listed[..n], g, listed[n], k, r.local, r.remote);
    }
  }

  /** The index of a fooled directory calls the file up to date. */
  lemma FooledIsCalled(before: map<string, string>, now: map<string, string>, listed: seq<FileInfo>,
                       below: seq<FileInfo>, remote: set<Entry>, done: set<Entry>, e: Entry, d: Entry, r: Roots)
    requires r.local != "" && e.File? && Progress(before, now, listed, remote, done, r)
    requires FooledIn(e, d, before, remote, r) && Lists(below, now, r.Sub(d).local)
    ensures Called(below, e, r.Sub(d))
  {
    var q :| Impostor(q, e, d, before, remote, r);
    ImpostorStays(before, now, listed, remote, done, e, d, q, r);
    assert FileInfo(q, e.md5) in below;
    var f := LastExists(below, FileInfo(q, e.md5), e.path, r.Sub(d));
    assert f in below;
    MayHoldLater(before, now, listed, remote, done, f.path, f.md5, r);
    assert HasKey(f.path, e, d, r);
  }

  /** A directory above e, seen from d, is fooled as it was from the root. */
  lemma FooledBelow(before: map<string, string>, now: map<string, string>, listed: seq<FileInfo>, remote: set<Entry>,
                    done: set<Entry>, e: Entry, d: Entry, r: Roots)
    requires r.local != "" && Proper(remote, r.remote) && d in remote && d.Dir? && e.File?
    requires Fooled(e, before, remote, r) && Progress(before, now, listed, remote, done, r)
    ensures Fooled(e, now, PartOf(remote, d.path), r.Sub(d))
  {
    var part, sub := PartOf(remote, d.path), r.Sub(d);
    forall x | x in part && x.Dir? && Below(e.path, x.path) ensures FooledIn(e, x, now, part, sub) {
      PlaceFromSub(x, d, r);
      assert FooledIn(e, x, before, remote, r) && sub.Sub(x) == r.Sub(x);
      var q :| Impostor(q, e, x, before, remote, r);
      ImpostorStays(before, now, listed, remote, done, e, x, q, r);
      AlwaysStaysBelow(remote, d, q, r);
      assert Impostor(q, e, x, now, part, sub);
      forall q, md5 | MayHold(q, md5, now, part, sub) ensures HasKey(q, e, x, sub) ==> md5 == e.md5 {
        MayHoldBelow(before, now, listed, remote, done, d, q, md5, r);
        assert HasKey(q, e, x, sub) <==> HasKey(q, e, x, r);
      }
    }
  }

  lemma BelowIsNotWritten(before: map<string, string>, now: map<string, string>, next: map<string, string>,
                          listed: seq<FileInfo>, below: seq<FileInfo>, remote: set<Entry>, done: set<Entry>, e: Entry,
                          d: Entry, r: Roots)
    requires r.local != "" && Proper(remote, r.remote) && d in remote && d.Dir?
    requires e in remote && e.File? && Below(e.path, d.path) && Fooled(e, before, remote, r) && r.Place(e) !in now
    requires Progress(before, now, listed, remote, done, r) && DirStepped(now, next, below, remote, d, r)
    ensures r.Place(e) !in next
  {
    var part, sub := PartOf(remote, d.path), r.Sub(d);
    PlaceFromSub(e, d, r);
    assert e in part && FooledIn(e, d, before, remote, r);
    FooledIsCalled(before, now, listed, below, remote, done, e, d, r);
    if Direct(e, part) {
      assert DirectOk(now, next, below, e, true, part, sub);
    } else {
      FooledBelow(before, now, listed, remote, done, e, d, r);
      assert DeepOk(now, next, below, e, part, part, sub);
    }
  }

  /** A file below d that its own directory does not mistake is in place after the synchronisation of d. */
  lemma BelowEndsInPlace(before: map<string, string>, now: map<string, string>, next: map<string, string>,
                         listed: seq<FileInfo>, below: seq<FileInfo>, remote: set<Entry>, done: set<Entry>, e: Entry,
                         d: Entry, r: Roots)
    requires r.local != "" && Proper(remote, r.remote) && d in remote && d.Dir?
    requires e in remote && e.File? && Below(e.path, d.path) && Unmistaken(e, before, remote, r)
    requires Progress(before, now, listed, remote, done, r) && DirStepped(now, next, below, remote, d, r)
    ensures Holds(next, r.Place(e), e.md5)
  {
    var part, sub := PartOf(remote, d.path), r.Sub(d);
    PlaceFromSub(e, d, r);
    assert e in part;
    if Direct(e, part) {
      assert NoImpostor(e, d, before, remote, r);
      assert DirectOk(now, next, below, e, true, part, sub);
      if Called(below, e, sub) {
        CalledIsOwn(before, now, listed, below, remote, done, e, d, r);
      }
    } else {
      UnmistakenBelow(before, now, listed, remote, done, e, d, r);
      assert DeepOk(now, next, below, e, part, part, sub);
      assert Entered(e, part);
    }
  }

  /** If its own directory's index calls an unmistaken file up to date, it is in place, and stays. */
  lemma CalledIsOwn(before: map<string, string>, now: map<string, string>, listed: seq<FileInfo>, below: seq<FileInfo>,
                    remote: set<Entry>, done: set<Entry>, e: Entry, d: Entry, r: Roots)
    requires r.local != "" && d in remote && d.Dir? && e in PartOf(remote, d.path) && e.File?
    requires NoImpostor(e, d, before, remote, r) && Progress(before, now, listed, remote, done, r)
    requires Lists(below, now, r.Sub(d).local) && Called(below, e, r.Sub(d))
    ensures Holds(now, r.Place(e), e.md5) && Stays(r.Place(e), PartOf(remote, d.path), r.Sub(d))
  {
    var sub := r.Sub(d);
    var f :| IsLastWith(below, f, e.path, sub.local, sub.remote) && f.md5 == e.md5;
    assert f in below && sub.Key(f.path) == e.path;
    MayHoldLater(before, now, listed, remote, done, f.path, e.md5, r);
    assert f.path == r.Place(e);
    assert e.path in Paths(PartOf(remote, d.path));
  }

  /** What is unmistaken from the root is unmistaken from a directory above it. */
  lemma UnmistakenBelow(before: map<string, string>, now: map<string, string>, listed: seq<FileInfo>,
                        remote: set<Entry>, done: set<Entry>, e: Entry, d: Entry, r: Roots)
    requires r.local != "" && Proper(remote, r.remote) && d in remote && d.Dir?
    requires e in PartOf(remote, d.path) && e.File? && Unmistaken(e, before, remote, r)
    requires Progress(before, now, listed, remote, done, r)
    ensures Unmistaken(e, now, PartOf(remote, d.path), r.Sub(d))
  {
    var part, sub := PartOf(remote, d.path), r.Sub(d);
    PlaceFromSub(e, d, r);
    forall x | x in part && x.Dir? && Below(e.path, x.path) && Direct(e, PartOf(part, x.path))
      ensures NoImpostor(e, x, now, part, sub)
    {
      PartOfPart(remote, d, x);
      PlaceFromSub(x, d, r);
      assert NoImpostor(e, x, before, remote, r);
      forall q | Under(q, sub.Sub(x).local) && q != sub.Place(e) && sub.Sub(x).Key(q) == e.path
        ensures !MayHold(q, e.md5, now, part, sub)
      {
        assert !MayHold(q, e.md5, before, remote, r);
        if MayHold(q, e.md5, now, part, sub) {
          MayHoldBelow(before, now, listed, remote, done, d, q, e.md5, r);
        }
      }
    }
  }

  // ---------- when a run mirrors ----------

  /** No local file that a mirror must not have is kept by every delete pass that meets it. */
  ghost predicate NoStrayKept(before: map<string, string>, remote: set<Entry>, r: Roots)
    requires r.local != ""
  {
    forall p | p in before && IsStray(p, remote, r) :: !AlwaysStays(p, remote, r)
  }

  /** Every file of the root that the index calls up to date lies in its own place, and the delete pass keeps it. */
  ghost predicate CalledInPlace(before: map<string, string>, listed: seq<FileInfo>, remote: set<Entry>, r: Roots)
    requires r.local != ""
  {
    forall e | e in remote && e.File? && Direct(e, remote) && Called(listed, e, r) ::
      Holds(before, r.Place(e), e.md5) && Stays(r.Place(e), remote, r)
  }

  /** No file in a listed directory is mistaken twice, by the outer index and by that of its own directory, unless it
      lies in place and is kept there. */
  ghost predicate NoneMistakenTwice(before: map<string, string>, listed: seq<FileInfo>, remote: set<Entry>, r: Roots)
    requires r.local != ""
  {
    forall e | e in remote && e.File? && !Direct(e, remote) && Called(listed, e, r) ::
      KeptInPlace(e, before, remote, r) || Unmistaken(e, before, remote, r)
  }

  /** No missing file in a listed directory is mistaken by the outer index and, to be sure, by those of all directories
      above it. */
  ghost predicate NoneFooled(before: map<string, string>, listed: seq<FileInfo>, remote: set<Entry>, r: Roots)
    requires r.local != ""
  {
    forall e | e in remote && e.File? && !Direct(e, remote) && Called(listed, e, r) && r.Place(e) !in before ::
      !Fooled(e, before, remote, r)
  }

  /** A missing file that all indexes mistake stays missing. */
  lemma FooledStaysMissing(before: map<string, string>, after: map<string, string>, listed: seq<FileInfo>,
                           remote: set<Entry>, e: Entry, r: Roots)
    requires r.local != "" && Outcome(before, after, listed, remote, r) && e in remote && e.File? && !Direct(e, remote)
    requires Called(listed, e, r) && Fooled(e, before, remote, r) && r.Place(e) !in before
    ensures r.Place(e) !in after && !Mirrors(after, remote, r)
  {
    assert DeepOk(before, after, listed, e, remote, remote, r);
    assert !AllInPlace(after, remote, r);
  }

  /** What a run leaves is a mirror only if no stray is kept, the index is right about the files of the root, and no
      directory is fooled about a missing file. The first two are enough as well, unless a file in a listed directory is
      mistaken twice. */
  lemma MirrorsExactlyWhen(before: map<string, string>, after: map<string, string>, listed: seq<FileInfo>,
                           remote: set<Entry>, r: Roots)
    requires r.local != "" && Proper(remote, r.remote) && Outcome(before, after, listed, remote, r)
    ensures Mirrors(after, remote, r) ==>
            NoStrayKept(before, remote, r) && CalledInPlace(before, listed, remote, r)
            && NoneFooled(before, listed, remote, r)
    ensures NoneMistakenTwice(before, listed, remote, r) ==>
            (Mirrors(after, remote, r) <==> NoStrayKept(before, remote, r) && CalledInPlace(before, listed, remote, r))
    ensures Spares(before, after, remote, r)
  {
    forall e | e in remote && e.File? && Direct(e, remote)
      ensures Holds(after, r.Place(e), e.md5)
              <==> (Called(listed, e, r) ==> Holds(before, r.Place(e), e.md5) && Stays(r.Place(e), remote, r))
    {
      assert DirectOk(before, after, listed, e, true, remote, r);
    }
    forall e | e in remote && e.File? && !Direct(e, remote)
      ensures NoneMistakenTwice(before, listed, remote, r) ==> Holds(after, r.Place(e), e.md5)
    {
      assert DeepOk(before, after, listed, e, remote, remote, r);
      assert Entered(e, remote);
    }
    forall e | e in remote && e.File? && !Direct(e, remote) && Called(listed, e, r) && r.Place(e) !in before
      ensures Mirrors(after, remote, r) ==> !Fooled(e, before, remote, r)
    {
      if Fooled(e, before, remote, r) { FooledStaysMissing(before, after, listed, remote, e, r); }
    }
    OutcomeSpares(before, after, listed, remote, r);
  }

  lemma OutcomeSpares(before: map<string, string>, after: map<string, string>, listed: seq<FileInfo>,
                      remote: set<Entry>, r: Roots)
    requires r.local != "" && Proper(remote, r.remote) && Outcome(before, after, listed, remote, r)
    ensures Spares(before, after, remote, r)
  {
    forall p | !IsPlace(p, remote, r) && !IsStray(p, remote, r) ensures Same(before, after, p) {
      if IsGitFile(p) {
        assert AlwaysStays(p, remote, r);
      } else {
        forall d | d in remote && d.Dir? ensures Stays(p, PartOf(remote, d.path), r.Sub(d)) {
          if Under(p, r.Sub(d).local) { UnderSub(p, d, r); }
        }
      }
    }
  }

  /** For a listing without directories there is no other condition. */
  lemma FlatMirrorsExactlyWhen(before: map<string, string>, after: map<string, string>, listed: seq<FileInfo>,
                               remote: set<Entry>, r: Roots)
    requires r.local != "" && Proper(remote, r.remote) && Outcome(before, after, listed, remote, r)
    requires forall e | e in remote :: e.File?
    ensures Mirrors(after, remote, r) <==>
            && (forall p | p in before && IsStray(p, remote, r) :: r.Key(p) !in Paths(remote))
            && (forall e | e in remote && Called(listed, e, r) ::
                  Holds(before, r.Place(e), e.md5) && (IsGitFile(r.Place(e)) || r.Key(r.Place(e)) in Paths(remote)))
  {
    MirrorsExactlyWhen(before, after, listed, remote, r);
    forall e | e in remote ensures Direct(e, remote) && Under(r.Place(e), r.local) {
      PlaceIs(e, r);
    }
    forall p | p in before && IsStray(p, remote, r)
      ensures AlwaysStays(p, remote, r) <==> r.Key(p) in Paths(remote)
    {
    }
  }

  // ---------- roots that do not recur ----------

  /** The local root occurs in no path below it, local or remote, a second time. */
  ghost predicate Clean(paths: set<string>, remote: set<Entry>, r: Roots) {
    RootDoesNotRecur(paths, r.local) && forall e | e in remote :: !Occurs(Rel(e.path, r.remote), r.local)
  }

  ghost function Places(remote: set<Entry>, r: Roots): set<string> {
    set e | e in remote && e.File? :: r.Place(e)
  }

  lemma PlacesAreClean(paths: set<string>, remote: set<Entry>, r: Roots)
    requires Proper(remote, r.remote) && Clean(paths, remote, r)
    ensures Clean(paths + Places(remote, r), remote, r)
  {
    forall e | e in remote ensures Rel(r.Place(e), r.local) == Rel(e.path, r.remote) {
      PlaceIs(e, r);
    }
  }

  /** From the root or from a directory below it, the key of a path is its relative one. */
  lemma KeyIsRelative(p: string, paths: set<string>, remote: set<Entry>, r: Roots)
    requires Clean(paths, remote, r) && p in paths && Under(p, r.local)
    ensures r.Key(p) == r.remote + Rel(p, r.local)
  {
    KeyOf(p, paths, r.local, r.remote);
  }

  lemma KeyOfPlace(p: string, e: Entry, paths: set<string>, remote: set<Entry>, r: Roots)
    requires Clean(paths, remote, r) && p in paths && Under(p, r.local) && Below(e.path, r.remote)
    ensures r.Key(p) == e.path <==> p == r.Place(e)
  {
    KeyIsRelative(p, paths, remote, r);
    PlaceIs(e, r);
    assert p == r.local + Rel(p, r.local);
  }

  /** Clean roots stay clean in a directory below. */
  lemma SubIsClean(paths: set<string>, remote: set<Entry>, d: Entry, r: Roots)
    requires Proper(remote, r.remote) && d in remote && Clean(paths, remote, r)
    ensures Clean(paths, PartOf(remote, d.path), r.Sub(d))
  {
    SubIsValid(d, r);
    SubDoesNotRecur(paths, d, r);
    forall e | e in PartOf(remote, d.path) ensures !Occurs(Rel(e.path, d.path), r.Sub(d).local) {
      SubEntryAvoids(e, d, r);
    }
  }

  lemma SubIsValid(d: Entry, r: Roots)
    requires Below(d.path, r.remote) && d.path[|d.path| - 1] != '/' && r.local != ""
    ensures r.Sub(d).Valid()
  {
    LastOf(r.local, d.path, r.remote);
  }

  lemma SubDoesNotRecur(paths: set<string>, d: Entry, r: Roots)
    requires Below(d.path, r.remote) && RootDoesNotRecur(paths, r.local) && r.Sub(d).Valid()
    ensures RootDoesNotRecur(paths, r.Sub(d).local)
  {
    forall p | p in paths && Under(p, r.Sub(d).local) ensures !Occurs(Rel(p, r.Sub(d).local), r.Sub(d).local) {
      SubPathAvoids(paths, d, p, r);
    }
  }

  lemma SubPathAvoids(paths: set<string>, d: Entry, p: string, r: Roots)
    requires Below(d.path, r.remote) && RootDoesNotRecur(paths, r.local) && p in paths && Under(p, r.Sub(d).local)
    ensures !Occurs(Rel(p, r.Sub(d).local), r.Sub(d).local)
  {
    UnderSub(p, d, r);
    SubAvoids(p, r.local, Rel(d.path, r.remote), r.local);
  }

  lemma SubEntryAvoids(e: Entry, d: Entry, r: Roots)
    requires Below(d.path, r.remote) && Below(e.path, d.path) && !Occurs(Rel(e.path, r.remote), r.local)
    ensures !Occurs(Rel(e.path, d.path), r.Sub(d).local)
  {
    PlaceIs(d, r);
    SubAvoids(e.path, r.remote, Rel(d.path, r.remote), r.local);
  }

  lemma LastOf(before: string, path: string, root: string)
    requires Below(path, root)
    ensures var moved := before + Rel(path, root); moved != "" && moved[|moved| - 1] == path[|path| - 1]
  {
  }

  lemma SubAvoids(p: string, prefix: string, rel: string, localPath: string)
    requires prefix + rel <= p && !Occurs(Rel(p, prefix), localPath)
    ensures !Occurs(Rel(p, prefix + rel), localPath + rel)
  {
    if Occurs(Rel(p, prefix + rel), localPath + rel) {
      OccursFurther(p, prefix, rel, localPath);
    }
  }

  /** If the longer root occurs after the longer prefix, the root occurs after the prefix. */
  lemma OccursFurther(p: string, prefix: string, rel: string, localPath: string)
    requires prefix + rel <= p && Occurs(Rel(p, prefix + rel), localPath + rel)
    ensures Occurs(Rel(p, prefix), localPath)
  {
    var rest := Rel(p, prefix + rel);
    RelTwice(p, prefix, rel);
    OccursPrefix(rest, localPath, rel);
    OccursInContext(rel, rest, "", localPath);
    assert rel + rest + "" == rel + rest;
  }

  lemma OccursPrefix(s: string, w: string, rest: string)
    requires Occurs(s, w + rest)
    ensures Occurs(s, w)
  {
    var i :| 0 <= i <= |s| && OccursAt(s, w + rest, i);
    assert s[i..i + |w|] == s[i..i + |w + rest|][..|w|] == w;
    assert OccursAt(s, w, i);
  }

  /** With clean roots the condition for a mirror always holds. */
  lemma CleanRunsMirror(before: map<string, string>, after: map<string, string>, listed: seq<FileInfo>,
                        remote: set<Entry>, r: Roots)
    requires Proper(remote, r.remote) && Clean(before.Keys, remote, r) && Lists(listed, before, r.local)
    requires Outcome(before, after, listed, remote, r)
    ensures Mirrors(after, remote, r) && Spares(before, after, remote, r)
  {
    forall p | p in before && IsStray(p, remote, r) ensures !AlwaysStays(p, remote, r) {
      StrayIsRemoved(before, remote, p, r);
    }
    forall e | e in remote && e.File? && Called(listed, e, r)
      ensures Holds(before, r.Place(e), e.md5) && Stays(r.Place(e), remote, r)
    {
      var f :| IsLastWith(listed, f, e.path, r.local, r.remote) && f.md5 == e.md5;
      assert f in listed;
      KeyOfPlace(f.path, e, before.Keys, remote, r);
    }
    forall e | e in remote && e.File? ensures Unmistaken(e, before, remote, r) {
      CleanIsUnmistaken(before, remote, e, r);
    }
    MirrorsExactlyWhen(before, after, listed, remote, r);
  }

  /** A stray has the key of a remote directory at most, whose own delete pass removes it then. */
  lemma StrayIsRemoved(before: map<string, string>, remote: set<Entry>, p: string, r: Roots)
    requires Proper(remote, r.remote) && Clean(before.Keys, remote, r) && p in before && IsStray(p, remote, r)
    ensures !AlwaysStays(p, remote, r)
  {
    if r.Key(p) in Paths(remote) {
      var d :| d in remote && d.path == r.Key(p);
      KeyOfPlace(p, d, before.Keys, remote, r);
      EraseLeading(p, "");
      assert p + "" == p && d.path + "" == d.path;
      assert r.Sub(d).Key(p) == d.path;
      assert !Stays(p, PartOf(remote, d.path), r.Sub(d));
    }
  }

  lemma CleanIsUnmistaken(before: map<string, string>, remote: set<Entry>, e: Entry, r: Roots)
    requires Proper(remote, r.remote) && Clean(before.Keys, remote, r) && e in remote && e.File?
    ensures Unmistaken(e, before, remote, r)
  {
    var paths := before.Keys + Places(remote, r);
    PlacesAreClean(before.Keys, remote, r);
    forall d, q | d in remote && d.Dir? && Below(e.path, d.path) && Under(q, r.Sub(d).local) && q != r.Place(e)
                  && r.Sub(d).Key(q) == e.path
      ensures !MayHold(q, e.md5, before, remote, r)
    {
      if q in paths {
        SubIsClean(paths, remote, d, r);
        KeyOfPlace(q, e, paths, PartOf(remote, d.path), r.Sub(d));
        PlaceFromSub(e, d, r);
      }
    }
  }

  /** A mirror of the whole is a mirror of each directory. */
  lemma MirrorsSub(files: map<string, string>, remote: set<Entry>, d: Entry, r: Roots)
    requires Proper(remote, r.remote) && d in remote && d.Dir? && Mirrors(files, remote, r)
    ensures Mirrors(files, PartOf(remote, d.path), r.Sub(d))
  {
    forall p | p in files && Under(p, r.Sub(d).local) && !IsGitFile(p)
      ensures IsPlace(p, PartOf(remote, d.path), r.Sub(d))
    {
      UnderSub(p, d, r);
      assert !IsStray(p, remote, r);
      PlacesUnderSub(remote, d, p, r);
    }
    forall e | e in PartOf(remote, d.path) && e.File? ensures Holds(files, r.Sub(d).Place(e), e.md5) {
      PlaceFromSub(e, d, r);
    }
  }

  /** In a clean mirror all files stay, and the index calls all remote files up to date. */
  lemma CleanMirrorIsCurrent(files: map<string, string>, listed: seq<FileInfo>, remote: set<Entry>, r: Roots)
    requires Proper(remote, r.remote) && Clean(files.Keys, remote, r) && Lists(listed, files, r.local)
    requires Mirrors(files, remote, r)
    ensures forall p | p in files :: Stays(p, remote, r)
    ensures forall e | e in remote && e.File? :: Called(listed, e, r)
  {
    forall p | p in files && Under(p, r.local) && !IsGitFile(p) ensures r.Key(p) in Paths(remote) {
      assert !IsStray(p, remote, r);
      var e :| e in remote && e.File? && r.Place(e) == p;
      KeyOfPlace(p, e, files.Keys, remote, r);
    }
    forall e | e in remote && e.File? ensures Called(listed, e, r) {
      assert Holds(files, r.Place(e), e.md5);
      InPlaceIsCalled(files, listed, remote, e, r);
    }
  }

  lemma InPlaceIsCalled(files: map<string, string>, listed: seq<FileInfo>, remote: set<Entry>, e: Entry, r: Roots)
    requires Proper(remote, r.remote) && Clean(files.Keys, remote, r) && Lists(listed, files, r.local)
    requires e in remote && e.File? && Holds(files, r.Place(e), e.md5)
    ensures Called(listed, e, r)
  {
    PlaceIs(e, r);
    assert FileInfo(r.Place(e), e.md5) in listed;
    var i :| 0 <= i < |listed| && listed[i] == FileInfo(r.Place(e), e.md5);
    forall j | i <= j < |listed| ensures r.Key(listed[j].path) == e.path <==> j == i {
      assert listed[j] in listed;
      KeyOfPlace(listed[j].path, e, files.Keys, remote, r);
    }
    assert IsLastAt(listed, i, e.path, r.local, r.remote);
    assert IsLastWith(listed, listed[i], e.path, r.local, r.remote);
  }

  // ---------- what even a failed attempt keeps ----------

  /** Remote files in place stay so, what a mirror may have otherwise is untouched, strays are only removed, and no
      other file appears. */
  ghost predicate Harmless(before: map<string, string>, after: map<string, string>, remote: set<Entry>, r: Roots) {
    && (forall e | e in remote && e.File? && Holds(before, r.Place(e), e.md5) :: Holds(after, r.Place(e), e.md5))
    && Spares(before, after, remote, r)
    && (forall p | p in after && !IsPlace(p, remote, r) :: Holds(before, p, after[p]))
  }

  lemma HarmlessTwice(a: map<string, string>, b: map<string, string>, c: map<string, string>, remote: set<Entry>,
                      r: Roots)
    requires Harmless(a, b, remote, r) && Harmless(b, c, remote, r)
    ensures Harmless(a, c, remote, r)
  {
    forall p | !IsPlace(p, remote, r) && !IsStray(p, remote, r) ensures Same(a, c, p) {
      assert Same(a, b, p) && Same(b, c, p);
    }
  }

  lemma StaysClean(before: map<string, string>, after: map<string, string>, remote: set<Entry>, r: Roots)
    requires Proper(remote, r.remote) && Clean(before.Keys, remote, r) && Harmless(before, after, remote, r)
    ensures Clean(after.Keys, remote, r)
  {
    PlacesAreClean(before.Keys, remote, r);
    forall p | p in after ensures p in before.Keys + Places(remote, r) {
      if IsPlace(p, remote, r) {
        var e :| e in remote && e.File? && r.Place(e) == p;
      }
    }
  }

  /** An attempt on a directory, seen from the root. */
  lemma HarmlessAbove(before: map<string, string>, after: map<string, string>, remote: set<Entry>, d: Entry, r: Roots)
    requires Proper(remote, r.remote) && d in remote && d.Dir?
    requires Harmless(before, after, PartOf(remote, d.path), r.Sub(d))
    requires UnchangedOutside(before, after, r.Sub(d).local)
    ensures Harmless(before, after, remote, r)
  {
    var part, sub := PartOf(remote, d.path), r.Sub(d);
    forall e | e in remote && e.File? && Holds(before, r.Place(e), e.md5) ensures Holds(after, r.Place(e), e.md5) {
      if Below(e.path, d.path) {
        PlaceFromSub(e, d, r);
        assert e in part;
      } else {
        PlaceUnderSub(remote, e, d, r);
        assert Same(before, after, r.Place(e));
      }
    }
    forall p | !IsPlace(p, remote, r)
      ensures p in after ==> Holds(before, p, after[p])
      ensures !IsStray(p, remote, r) ==> Same(before, after, p)
    {
      if Under(p, sub.local) {
        PlacesUnderSub(remote, d, p, r);
        UnderSub(p, d, r);
      } else {
        assert Same(before, after, p);
      }
    }
  }

  /** The files done are in place, and the strays left have the place of a directory yet to come. */
  ghost predicate CleanDone(now: map<string, string>, remote: set<Entry>, done: set<Entry>, r: Roots) {
    && (forall e | e in done && e.File? :: Holds(now, r.Place(e), e.md5))
    && (forall p | p in now && IsStray(p, remote, r) :: exists d | d in remote - done && d.Dir? :: r.Place(d) == p)
  }

  lemma CleanStarts(before: map<string, string>, now: map<string, string>, remote: set<Entry>, r: Roots)
    requires Proper(remote, r.remote) && Clean(before.Keys, remote, r)
    requires forall p | p in now :: Holds(before, p, now[p])
    requires forall p | p in before && Stays(p, remote, r) :: p in now
    ensures Harmless(before, now, remote, r)
  {
    forall e | e in remote && e.File? && Holds(before, r.Place(e), e.md5) ensures Stays(r.Place(e), remote, r) {
      PlaceIs(e, r);
      KeyOfPlace(r.Place(e), e, before.Keys, remote, r);
    }
    forall p | !IsPlace(p, remote, r) && !IsStray(p, remote, r) ensures Stays(p, remote, r) {
    }
  }

  lemma CleanDoneStarts(before: map<string, string>, now: map<string, string>, remote: set<Entry>, r: Roots)
    requires Proper(remote, r.remote) && Clean(before.Keys, remote, r)
    requires forall p | p in now :: p in before && Stays(p, remote, r)
    ensures CleanDone(now, remote, {}, r)
  {
    forall p | p in now && IsStray(p, remote, r) ensures exists d | d in remote && d.Dir? :: r.Place(d) == p {
      var d :| d in remote && d.path == r.Key(p);
      KeyOfPlace(p, d, before.Keys, remote, r);
    }
  }

  /** A file entry: it is up to date and in place, or is written, or the writing fails half-way. */
  lemma CleanFileStep(before: map<string, string>, now: map<string, string>, next: map<string, string>,
                      listed: seq<FileInfo>, remote: set<Entry>, f: Entry, r: Roots)
    requires Proper(remote, r.remote) && Clean(before.Keys, remote, r) && Lists(listed, before, r.local)
    requires f in remote && f.File? && Harmless(before, now, remote, r)
    requires if Called(listed, f, r) then next == now else PartlyWritten(now, next, r.Place(f))
    ensures Harmless(before, next, remote, r)
    ensures Called(listed, f, r) ==> Holds(next, r.Place(f), f.md5)
  {
    if Called(listed, f, r) {
      CleanCalledInPlace(before, listed, remote, f, r);
    } else {
      if Holds(before, r.Place(f), f.md5) { InPlaceIsCalled(before, listed, remote, f, r); }
      forall e | e in remote && e.File? && e != f ensures Same(now, next, r.Place(e)) {
        if r.Place(e) == r.Place(f) { PlacesAreUnique(remote, e, f, r); }
      }
    }
  }

  lemma CleanCalledInPlace(before: map<string, string>, listed: seq<FileInfo>, remote: set<Entry>, f: Entry, r: Roots)
    requires Proper(remote, r.remote) && Clean(before.Keys, remote, r) && Lists(listed, before, r.local)
    requires f in remote && f.File? && Called(listed, f, r)
    ensures Holds(before, r.Place(f), f.md5)
  {
    var g :| IsLastWith(listed, g, f.path, r.local, r.remote) && g.md5 == f.md5;
    assert g in listed;
    KeyOfPlace(g.path, f, before.Keys, remote, r);
  }

  lemma CleanFileDone(now: map<string, string>, next: map<string, string>, remote: set<Entry>, done: set<Entry>,
                      f: Entry, r: Roots)
    requires Proper(remote, r.remote) && f in remote && f.File? && done <= remote && CleanDone(now, remote, done, r)
    requires PartlyWritten(now, next, r.Place(f)) && Holds(next, r.Place(f), f.md5)
    ensures CleanDone(next, remote, done + {f}, r)
  {
    forall e | e in done && e.File? && e != f ensures r.Place(e) != r.Place(f) {
      if r.Place(e) == r.Place(f) { PlacesAreUnique(remote, e, f, r); }
    }
    forall p | p in next && IsStray(p, remote, r)
      ensures exists d | d in remote - (done + {f}) && d.Dir? :: r.Place(d) == p
    {
      assert p in now;
      var d :| d in remote - done && d.Dir? && r.Place(d) == p;
      assert d in remote - (done + {f});
    }
  }

  lemma NoStrayAtDir(next: map<string, string>, remote: set<Entry>, d: Entry, r: Roots)
    requires Proper(remote, r.remote) && d in remote && d.Dir?
    requires Mirrors(next, PartOf(remote, d.path), r.Sub(d))
    ensures r.Place(d) in next ==> !IsStray(r.Place(d), remote, r)
  {
    PlacesUnderSub(remote, d, r.Place(d), r);
  }

  lemma CleanDirDone(now: map<string, string>, next: map<string, string>, remote: set<Entry>, done: set<Entry>,
                     d: Entry, r: Roots)
    requires Proper(remote, r.remote) && d in remote && d.Dir? && done <= remote && CleanDone(now, remote, done, r)
    requires Harmless(now, next, remote, r) && Mirrors(next, PartOf(remote, d.path), r.Sub(d))
    ensures CleanDone(next, remote, done + {d}, r)
  {
    NoStrayAtDir(next, remote, d, r);
    forall p | p in next && IsStray(p, remote, r)
      ensures exists x | x in remote - (done + {d}) && x.Dir? :: r.Place(x) == p
    {
      var x :| x in remote - done && x.Dir? && r.Place(x) == p;
      assert x in remote - (done + {d});
    }
  }

  /** Between two entries of the copy pass: without a fault so far, what Progress says; with clean roots in any case,
      what CleanDone says. */
  ghost predicate OnTheWay(before: map<string, string>, now: map<string, string>, listed: seq<FileInfo>,
                           remote: set<Entry>, done: set<Entry>, r: Roots, faultless: bool)
    requires r.local != ""
  {
    && (faultless ==> Progress(before, now, listed, remote, done, r))
    && (Clean(before.Keys, remote, r) ==> Harmless(before, now, remote, r) && CleanDone(now, remote, done, r))
  }

  lemma FileOnTheWay(before: map<string, string>, now: map<string, string>, next: map<string, string>,
                     listed: seq<FileInfo>, remote: set<Entry>, done: set<Entry>, f: Entry, r: Roots, faultless: bool)
    requires r.local != "" && Proper(remote, r.remote) && f in remote && f.File? && done <= remote
    requires Lists(listed, before, r.local) && OnTheWay(before, now, listed, remote, done, r, faultless)
    requires FileStepped(now, next, listed, f, r)
    ensures OnTheWay(before, next, listed, remote, done + {f}, r, faultless)
  {
    if faultless { FileStep(before, now, next, listed, remote, done, f, r); }
    if Clean(before.Keys, remote, r) {
      CleanFileStep(before, now, next, listed, remote, f, r);
      CleanFileDone(now, next, remote, done, f, r);
    }
  }

  lemma DirOnTheWay(before: map<string, string>, now: map<string, string>, next: map<string, string>,
                    listed: seq<FileInfo>, below: seq<FileInfo>, remote: set<Entry>, done: set<Entry>, d: Entry,
                    r: Roots, faultless: bool)
    requires r.local != "" && Proper(remote, r.remote) && d in remote && d.Dir? && done <= remote
    requires OnTheWay(before, now, listed, remote, done, r, faultless) && forall e | e in done :: !Below(e.path, d.path)
    requires faultless ==> DirStepped(now, next, below, remote, d, r)
    requires Clean(now.Keys, remote, r) ==>
             Harmless(now, next, remote, r) && Mirrors(next, PartOf(remote, d.path), r.Sub(d))
    ensures OnTheWay(before, next, listed, remote, done + {d}, r, faultless)
  {
    if faultless { DirStep(before, now, next, listed, below, remote, done, d, r); }
    if Clean(before.Keys, remote, r) {
      StaysClean(before, now, remote, r);
      HarmlessTwice(before, now, next, remote, r);
      CleanDirDone(now, next, remote, done, d, r);
    }
  }

  lemma CleanDoneMirrors(now: map<string, string>, remote: set<Entry>, r: Roots)
    requires CleanDone(now, remote, remote, r)
    ensures Mirrors(now, remote, r)
  {
  }

  // ---------- the synchronisation ----------

  /** The first loop after i files: those of them that do not stay are gone. */
  ghost predicate Sorted(localFiles: seq<FileInfo>, before: map<string, string>, i: nat, gone: set<string>,
                         remote: set<Entry>, r: Roots)
    requires r.local != ""
  {
    && i <= |localFiles| && gone <= before.Keys && Lists(localFiles, before, r.local)
    && (forall p | p in gone :: !Stays(p, remote, r))
    && (forall j | i <= j < |localFiles| :: localFiles[j].path !in gone)
    && (forall j | 0 <= j < i :: localFiles[j].path in gone || Stays(localFiles[j].path, remote, r))
  }

  lemma NextIsSorted(localFiles: seq<FileInfo>, before: map<string, string>, i: nat, gone: set<string>,
                     remote: set<Entry>, r: Roots)
    requires r.local != "" && Sorted(localFiles, before, i, gone, remote, r) && i < |localFiles|
    ensures var p := localFiles[i].path;
            && p in before && p !in gone && Under(p, r.local)
            && Sorted(localFiles, before, i + 1, if Stays(p, remote, r) then gone else gone + {p}, remote, r)
  {
    assert localFiles[i] in localFiles;
  }

  lemma AllSorted(localFiles: seq<FileInfo>, before: map<string, string>, gone: set<string>, remote: set<Entry>,
                  r: Roots)
    requires r.local != "" && Sorted(localFiles, before, |localFiles|, gone, remote, r)
    ensures forall p | p in before :: p in gone <==> !Stays(p, remote, r)
  {
    forall p | p in before && p !in gone ensures Stays(p, remote, r) {
      if Under(p, r.local) {
        assert FileInfo(p, before[p]) in localFiles;
        assert FileInfo(p, before[p]).path == p;
      }
    }
  }

  lemma RemovedOnly(before: map<string, string>, now: map<string, string>, gone: set<string>, remote: set<Entry>,
                    r: Roots)
    requires r.local != "" && now == before - gone && gone <= before.Keys
    requires forall p | p in gone :: !Stays(p, remote, r)
    ensures UnchangedOutside(before, now, r.local)
    ensures (forall p | p in before :: Stays(p, remote, r)) ==> now == before && gone == {}
  {
  }

  lemma WithoutOneMore(before: map<string, string>, gone: set<string>, p: string)
    ensures before - gone - {p} == before - (gone + {p})
  {
  }

  /** First loop: a local file that is in no .git directory and whose key is no remote path is removed. */
  method RemoveAbsent(disk: Disk, localFiles: seq<FileInfo>, remoteFilesMap: map<string, Entry>,
                      ghost remote: set<Entry>, r: Roots) returns (ok: bool)
    requires r.local != "" && Lists(localFiles, disk.files, r.local) && remoteFilesMap.Keys == Paths(remote)
    modifies disk
    ensures disk.begun == old(disk.begun)
    ensures UnchangedOutside(old(disk.files), disk.files, r.local)
    ensures ok ==> forall p :: p in disk.files <==> p in old(disk.files) && Stays(p, remote, r)
    ensures forall p | p in disk.files :: Holds(old(disk.files), p, disk.files[p])
    ensures forall p | p in old(disk.files) && Stays(p, remote, r) :: p in disk.files
    ensures (forall p | p in old(disk.files) :: Stays(p, remote, r)) ==>
            disk.files == old(disk.files) && disk.writes == old(disk.writes)
    ensures old(disk.calls) <= disk.calls && (!ok ==> disk.Faulted(old(disk.calls)))
  {
    ghost var before := disk.files;
    ghost var gone: set<string> := {};
    for i := 0 to |localFiles|
      invariant disk.begun == old(disk.begun)
      invariant disk.files == before - gone && (gone == {} ==> disk.writes == old(disk.writes))
      invariant Sorted(localFiles, before, i, gone, remote, r) && old(disk.calls) <= disk.calls
    {
      NextIsSorted(localFiles, before, i, gone, remote, r);
      ok := RemoveIfAbsent(disk, localFiles[i], remoteFilesMap, remote, r);
      if !ok {
        RemovedOnly(before, disk.files, gone, remote, r);
        return;
      }
      if !Stays(localFiles[i].path, remote, r) {
        WithoutOneMore(before, gone, localFiles[i].path);
        gone := gone + {localFiles[i].path};
      }
    }
    RemovedOnly(before, disk.files, gone, remote, r);
    AllSorted(localFiles, before, gone, remote, r);
    ok := true;
  }

  /** The body of the first loop. */
  method RemoveIfAbsent(disk: Disk, localFile: FileInfo, remoteFilesMap: map<string, Entry>, ghost remote: set<Entry>,
                        r: Roots) returns (ok: bool)
    requires r.local != "" && Under(localFile.path, r.local) && remoteFilesMap.Keys == Paths(remote)
    modifies disk
    ensures disk.begun == old(disk.begun)
    ensures if Stays(localFile.path, remote, r)
            then ok && disk.files == old(disk.files) && disk.writes == old(disk.writes)
            else disk.files == if ok then old(disk.files) - {localFile.path} else old(disk.files)
    ensures old(disk.calls) <= disk.calls
    ensures localFile.path in old(disk.files) && !ok ==> disk.Faulted(old(disk.calls))
  {
    if IsGitFile(localFile.path) { return true; }
    var fileRemotePath := RemoteKey(localFile.path, r.local, r.remote);
    if fileRemotePath !in remoteFilesMap {
      ok := disk.Remove(localFile.path);
    } else {
      ok := true;
    }
  }

  /** The index says up to date exactly when the last file with the key has the remote checksum. */
  lemma IndexAnswers(m: map<string, FileInfo>, listed: seq<FileInfo>, e: Entry, r: Roots)
    requires r.local != "" && e.File? && e.md5 != "" && IndexesLocal(m, listed, r.local, r.remote)
    ensures e.path in m && m[e.path].md5 == e.md5 <==> Called(listed, e, r)
  {
    if Called(listed, e, r) {
      var f :| IsLastWith(listed, f, e.path, r.local, r.remote) && f.md5 == e.md5;
      var i :| 0 <= i < |listed| && listed[i] == f && IsLastAt(listed, i, e.path, r.local, r.remote);
      assert f in listed;
      LastIsUnique(listed, m[e.path], f, e.path, r);
    }
  }

  lemma LastIsUnique(listed: seq<FileInfo>, f: FileInfo, g: FileInfo, k: string, r: Roots)
    requires r.local != ""
    ensures IsLastWith(listed, f, k, r.local, r.remote) && IsLastWith(listed, g, k, r.local, r.remote) ==> f == g
  {
    if IsLastWith(listed, f, k, r.local, r.remote) && IsLastWith(listed, g, k, r.local, r.remote) {
      var i :| 0 <= i < |listed| && listed[i] == f && IsLastAt(listed, i, k, r.local, r.remote);
      var j :| 0 <= j < |listed| && listed[j] == g && IsLastAt(listed, j, k, r.local, r.remote);
      assert i == j;
    }
  }

  lemma PartlyTwice(a: map<string, string>, b: map<string, string>, c: map<string, string>, p: string)
    requires PartlyWritten(a, b, p) && PartlyWritten(b, c, p)
    ensures PartlyWritten(a, c, p)
  {
    if p in c {
      assert c == b || c == b[p := c[p]];
    }
  }

  lemma WrittenOver(a: map<string, string>, b: map<string, string>, p: string, md5: string)
    requires PartlyWritten(a, b, p)
    ensures b[p := md5] == a[p := md5]
  {
  }

  /** An attempt that failed adds a fault to those before. */
  lemma OneMoreFault(fails: nat -> bool, from: nat, start: nat, now: nat, n: nat)
    requires from <= start <= now && Faults(fails, from, start) >= n
    requires exists k: nat | start <= k < now :: fails(k)
    ensures Faults(fails, from, now) >= n + 1
  {
    FaultsAdd(fails, from, start, now);
    FaultsExactlyWhen(fails, start, now);
  }

  lemma FaultsGrow(fails: nat -> bool, from: nat, start: nat, now: nat)
    requires from <= start <= now
    ensures Faults(fails, from, start) <= Faults(fails, from, now)
  {
    FaultsAdd(fails, from, start, now);
  }

  lemma FaultsAreFaulted(disk: Disk, since: nat)
    ensures disk.Faulted(since) <==> disk.FaultsSince(since) > 0
  {
    FaultsExactlyWhen(disk.fails, since, disk.calls);
  }

  /** DownloadFile, a request of its own: it is tried until it works, at most retryNum + 1 times. Each attempt is one
      write, and each but the last has failed. */
  method DownloadFile(disk: Disk, p: string, md5: string, retryNum: nat) returns (ok: bool)
    modifies disk
    ensures ok ==> disk.files == old(disk.files)[p := md5]
    ensures PartlyWritten(old(disk.files), disk.files, p)
    ensures old(disk.writes) < disk.writes <= old(disk.writes) + retryNum + 1 && disk.begun == old(disk.begun)
    ensures disk.FaultsSince(old(disk.calls)) >= disk.writes - old(disk.writes) - 1
    ensures !ok ==> disk.writes == old(disk.writes) + retryNum + 1
    ensures disk.FaultsSince(old(disk.calls)) <= retryNum ==> ok
    ensures old(disk.calls) <= disk.calls && (!ok ==> disk.Faulted(old(disk.calls)))
  {
    ok := false;
    for attempt := 0 to retryNum + 1
      invariant PartlyWritten(old(disk.files), disk.files, p) && old(disk.calls) <= disk.calls
      invariant disk.writes == old(disk.writes) + attempt && disk.begun == old(disk.begun)
      invariant disk.FaultsSince(old(disk.calls)) >= attempt
    {
      ghost var now, start := disk.files, disk.calls;
      ok := disk.Download(p, md5);
      PartlyTwice(old(disk.files), now, disk.files, p);
      WrittenOver(old(disk.files), now, p, md5);
      FaultsGrow(disk.fails, old(disk.calls), start, disk.calls);
      if ok { return; }
      OneMoreFault(disk.fails, old(disk.calls), start, disk.calls, attempt);
    }
    FaultsAreFaulted(disk, old(disk.calls));
  }

  /** Second loop, a file entry: it is downloaded unless the index has it with an equal checksum. */
  method SyncFile(disk: Disk, remoteFile: Entry, localFilesMap: map<string, FileInfo>, ghost listed: seq<FileInfo>,
                  r: Roots, retryNum: nat)
      returns (ok: bool)
    requires r.local != "" && remoteFile.File? && remoteFile.md5 != "" && Below(remoteFile.path, r.remote)
    requires IndexesLocal(localFilesMap, listed, r.local, r.remote)
    modifies disk
    ensures ok ==> FileStepped(old(disk.files), disk.files, listed, remoteFile, r)
    ensures Called(listed, remoteFile, r) ==> ok && disk.files == old(disk.files) && disk.writes == old(disk.writes)
    ensures PartlyWritten(old(disk.files), disk.files, r.Place(remoteFile))
    ensures UnchangedOutside(old(disk.files), disk.files, r.local) && disk.begun == old(disk.begun)
    ensures disk.writes <= old(disk.writes) + retryNum + 1
    ensures disk.FaultsSince(old(disk.calls)) <= retryNum ==> ok
    ensures old(disk.calls) <= disk.calls && (!ok ==> disk.Faulted(old(disk.calls)))
  {
    PlaceIs(remoteFile, r);
    IndexAnswers(localFilesMap, listed, remoteFile, r);
    var localFilePath := LocalPathOf(remoteFile, r);
    if remoteFile.path !in localFilesMap {
      ok := DownloadFile(disk, localFilePath, remoteFile.md5, retryNum);
    } else if remoteFile.md5 != localFilesMap[remoteFile.path].md5 {
      ok := DownloadFile(disk, localFilePath, remoteFile.md5, retryNum);
    } else {
      ok := true;
    }
    WrittenInside(old(disk.files), disk.files, localFilePath, r.local);
  }

  lemma OutsideOfSub(before: map<string, string>, after: map<string, string>, d: Entry, r: Roots)
    requires Below(d.path, r.remote) && UnchangedOutside(before, after, r.Sub(d).local)
    ensures UnchangedOutside(before, after, r.local)
  {
    forall p ensures Under(p, r.local) || Same(before, after, p) {
      assert Under(p, r.Sub(d).local) || Same(before, after, p);
      if Under(p, r.Sub(d).local) { UnderSub(p, d, r); }
    }
  }

  /** A clean mirror: nothing is to be done. */
  ghost predicate IsCleanMirror(files: map<string, string>, remote: set<Entry>, r: Roots) {
    Clean(files.Keys, remote, r) && Mirrors(files, remote, r)
  }

  lemma SubIsCleanMirror(files: map<string, string>, remote: set<Entry>, d: Entry, r: Roots)
    requires Proper(remote, r.remote) && d in remote && d.Dir?
    ensures IsCleanMirror(files, remote, r) ==> IsCleanMirror(files, PartOf(remote, d.path), r.Sub(d))
  {
    if IsCleanMirror(files, remote, r) {
      SubIsClean(files.Keys, remote, d, r);
      MirrorsSub(files, remote, d, r);
    }
  }

  /** Only synchronisations of directories below the root have been begun. */
  ghost predicate BegunBelow(was: multiset<string>, now: multiset<string>, root: string) {
    forall p | !Below(p, root) :: now[p] == was[p]
  }

  lemma BegunTwice(a: multiset<string>, b: multiset<string>, c: multiset<string>, root: string)
    requires BegunBelow(a, b, root) && BegunBelow(b, c, root)
    ensures BegunBelow(a, c, root)
  {
  }

  /** Some number of times at the root itself, and otherwise below it. */
  ghost predicate BegunAt(was: multiset<string>, now: multiset<string>, root: string, n: nat) {
    now[root] == was[root] + n && forall p | p != root && !Below(p, root) :: now[p] == was[p]
  }

  lemma NotBelowItself(root: string)
    ensures !Below(root, root)
  {
    assert |root + "/"| > |root|;
  }

  lemma BegunAbove(was: multiset<string>, now: multiset<string>, path: string, root: string, n: nat)
    requires BegunAt(was, now, path, n) && Below(path, root)
    ensures BegunBelow(was, now, root)
  {
    forall p | p == path || Below(p, path) ensures Below(p, root) {
      assert root + "/" <= path <= p;
    }
  }

  /** What a synchronisation, or several attempts at it, may do with clean roots, and what it has done if it is ok. */
  ghost predicate CleanResult(before: map<string, string>, after: map<string, string>, remote: set<Entry>, r: Roots,
                              ok: bool)
  {
    Clean(before.Keys, remote, r) ==> Harmless(before, after, remote, r) && (ok ==> Mirrors(after, remote, r))
  }

  lemma NextAttempt(a: map<string, string>, b: map<string, string>, c: map<string, string>, remote: set<Entry>,
                    r: Roots, ok: bool)
    requires Proper(remote, r.remote)
    requires CleanResult(a, b, remote, r, false) && CleanResult(b, c, remote, r, ok)
    ensures CleanResult(a, c, remote, r, ok)
  {
    if Clean(a.Keys, remote, r) {
      StaysClean(a, b, remote, r);
      HarmlessTwice(a, b, c, remote, r);
    }
  }

  /** Second loop, a directory entry: a nested synchronisation of the directory below the local root. */
  method SyncDir(disk: Disk, ghost es: seq<Entry>, remoteDir: Entry, r: Roots, retryNum: nat)
      returns (ok: bool, ghost below: seq<FileInfo>)
    requires r.Valid() && WellFormed(es, r.remote) && remoteDir in Flatten(es) && remoteDir.Dir?
    modifies disk
    ensures BegunBelow(old(disk.begun), disk.begun, r.remote)
    ensures ok && !disk.Faulted(old(disk.calls)) ==>
            DirStepped(old(disk.files), disk.files, below, EntriesOf(es), remoteDir, r)
    ensures Clean(old(disk.files).Keys, EntriesOf(es), r) ==>
            && Harmless(old(disk.files), disk.files, EntriesOf(es), r)
            && (ok ==> Mirrors(disk.files, PartOf(EntriesOf(es), remoteDir.path), r.Sub(remoteDir)))
    ensures UnchangedOutside(old(disk.files), disk.files, r.local)
    ensures IsCleanMirror(old(disk.files), EntriesOf(es), r) ==>
            disk.files == old(disk.files) && disk.writes == old(disk.writes)
    ensures disk.FaultsSince(old(disk.calls)) <= retryNum ==> ok
    ensures old(disk.calls) <= disk.calls && (!ok ==> disk.Faulted(old(disk.calls)))
    decreases Height(es), 0, 0
  {
    ghost var before, remote := disk.files, EntriesOf(es);
    HeightDescends(es, remoteDir);
    SubEntries(es, r.remote, remoteDir);
    EntriesAreProper(es, r.remote);
    SubIsValid(remoteDir, r);
    PlaceIs(remoteDir, r);
    SubIsCleanMirror(disk.files, remote, remoteDir, r);
    var localDirPath := LocalPathOf(remoteDir, r);
    ghost var begun, tries := disk.begun, 0;
    ok, below, tries := RequestSync(disk, remoteDir.children, Roots(remoteDir.path, localDirPath), retryNum);
    BegunAbove(begun, disk.begun, remoteDir.path, r.remote, tries);
    OutsideOfSub(before, disk.files, remoteDir, r);
    if Clean(before.Keys, remote, r) {
      SubIsClean(before.Keys, remote, remoteDir, r);
      HarmlessAbove(before, disk.files, remote, remoteDir, r);
    }
  }

  /** SyncRemoteToLocal, the request: the directory is listed and synchronised until an attempt reports no error, at
      most retryNum + 1 times; each attempt but the last has failed. Listing may fail as well. Attempts that fail may
      leave files half-written; with clean roots the last one makes up for that. */
  method RequestSync(disk: Disk, es: seq<Entry>, r: Roots, retryNum: nat)
      returns (ok: bool, ghost listed: seq<FileInfo>, ghost tries: nat)
    requires r.Valid() && WellFormed(es, r.remote)
    modifies disk
    ensures BegunAt(old(disk.begun), disk.begun, r.remote, tries) && 1 <= tries <= retryNum + 1
    ensures disk.FaultsSince(old(disk.calls)) >= tries - 1
    ensures !ok ==> tries == retryNum + 1
    ensures disk.FaultsSince(old(disk.calls)) <= retryNum ==> ok
    ensures ok && !disk.Faulted(old(disk.calls)) ==>
            && Lists(listed, old(disk.files), r.local)
            && Outcome(old(disk.files), disk.files, listed, EntriesOf(es), r)
    ensures CleanResult(old(disk.files), disk.files, EntriesOf(es), r, ok)
    ensures UnchangedOutside(old(disk.files), disk.files, r.local)
    ensures IsCleanMirror(old(disk.files), EntriesOf(es), r) ==>
            disk.files == old(disk.files) && disk.writes == old(disk.writes)
    ensures old(disk.calls) <= disk.calls && (!ok ==> disk.Faulted(old(disk.calls)))
    decreases Height(es), 2
  {
    ok, listed, tries := false, [], 0;
    EntriesAreProper(es, r.remote);
    for attempt := 0 to retryNum + 1
      invariant attempt == 0 ==> disk.files == old(disk.files) && disk.calls == old(disk.calls)
      invariant tries == attempt && BegunAt(old(disk.begun), disk.begun, r.remote, tries)
      invariant disk.FaultsSince(old(disk.calls)) >= attempt
      invariant CleanResult(old(disk.files), disk.files, EntriesOf(es), r, false)
      invariant UnchangedOutside(old(disk.files), disk.files, r.local) && old(disk.calls) <= disk.calls
      invariant IsCleanMirror(old(disk.files), EntriesOf(es), r) ==>
                disk.files == old(disk.files) && disk.writes == old(disk.writes)
    {
      ghost var now, start, begun := disk.files, disk.calls, disk.begun;
      ok, listed := Attempt(disk, es, r, retryNum);
      tries := tries + 1;
      NextAttempt(old(disk.files), now, disk.files, EntriesOf(es), r, ok);
      OutsideTwice(old(disk.files), now, disk.files, r.local);
      FaultsGrow(disk.fails, old(disk.calls), start, disk.calls);
      BegunAgain(old(disk.begun), begun, disk.begun, r.remote, attempt);
      if ok {
        if attempt > 0 { FaultsAreFaulted(disk, old(disk.calls)); }
        return;
      }
      OneMoreFault(disk.fails, old(disk.calls), start, disk.calls, attempt);
    }
    FaultsAreFaulted(disk, old(disk.calls));
  }

  lemma BegunAgain(a: multiset<string>, b: multiset<string>, c: multiset<string>, root: string, n: nat)
    requires BegunAt(a, b, root, n) && BegunAt(b, c, root, 1)
    ensures BegunAt(a, c, root, n + 1)
  {
  }

  lemma BegunOnce(a: multiset<string>, b: multiset<string>, c: multiset<string>, root: string)
    requires b == a + multiset{root} && BegunBelow(b, c, root)
    ensures BegunAt(a, c, root, 1)
  {
    NotBelowItself(root);
  }

  /** One attempt. */
  method Attempt(disk: Disk, es: seq<Entry>, r: Roots, retryNum: nat) returns (ok: bool, ghost listed: seq<FileInfo>)
    requires r.Valid() && WellFormed(es, r.remote)
    modifies disk
    ensures BegunAt(old(disk.begun), disk.begun, r.remote, 1)
    ensures ok && !disk.Faulted(old(disk.calls)) ==>
            && Lists(listed, old(disk.files), r.local)
            && Outcome(old(disk.files), disk.files, listed, EntriesOf(es), r)
    ensures CleanResult(old(disk.files), disk.files, EntriesOf(es), r, ok)
    ensures UnchangedOutside(old(disk.files), disk.files, r.local)
    ensures IsCleanMirror(old(disk.files), EntriesOf(es), r) ==>
            disk.files == old(disk.files) && disk.writes == old(disk.writes)
    ensures old(disk.calls) <= disk.calls && (!ok ==> disk.Faulted(old(disk.calls)))
    decreases Height(es), 1, 1
  {
    disk.Begin(r.remote);
    ghost var begun := disk.begun;
    var fault := disk.Fault();
    if fault {
      ok, listed := SyncRemoteToLocal(disk, Failed, r, retryNum);
    } else {
      ok, listed := SyncRemoteToLocal(disk, Listed(es), r, retryNum);
    }
    BegunOnce(old(disk.begun), begun, disk.begun, r.remote);
  }

  /** syncRemoteToLocal. The remote side is a listing; a missing one counts as empty. An error is reported only if the
      listing or a call to the disk failed; whatever happens, nothing outside the local root changes. If all goes well
      the disk is what Outcome says. If the local root does not recur, it is a mirror even if attempts at downloads and
      nested synchronisations failed before others worked, an error does no harm, and a mirror is not written. */
  method SyncRemoteToLocal(disk: Disk, listing: Listing, r: Roots, retryNum: nat)
      returns (ok: bool, ghost listed: seq<FileInfo>)
    requires r.Valid() && WellFormed(listing.Entries(), r.remote)
    modifies disk
    ensures BegunBelow(old(disk.begun), disk.begun, r.remote)
    ensures ok ==> Lists(listed, old(disk.files), r.local)
    ensures ok && !disk.Faulted(old(disk.calls)) ==>
            Outcome(old(disk.files), disk.files, listed, EntriesOf(listing.Entries()), r)
    ensures CleanResult(old(disk.files), disk.files, EntriesOf(listing.Entries()), r, ok)
    ensures UnchangedOutside(old(disk.files), disk.files, r.local)
    ensures listing.Failed? ==> !ok && disk.files == old(disk.files) && disk.writes == old(disk.writes)
    ensures IsCleanMirror(old(disk.files), EntriesOf(listing.Entries()), r) ==>
            disk.files == old(disk.files) && disk.writes == old(disk.writes)
    ensures old(disk.calls) <= disk.calls && (!ok ==> listing.Failed? || disk.Faulted(old(disk.calls)))
    decreases Height(listing.Entries()), 1, 0
  {
    listed := [];
    // creating the local directory if it is missing may fail
    var fault := disk.Fault();
    if fault { return false, []; }
    var localFiles;
    ok, localFiles := disk.ListFilesRecursive(r.local);
    if !ok { return; }
    listed := localFiles;
    var localFilesMap := IndexLocal(localFiles, r.local, r.remote);
    if listing.Failed? { return false, listed; }
    var remoteFiles := GetFlattenRemoteFiles(listing.Entries());
    var remoteFilesMap := IndexRemote(remoteFiles);
    ok := BothPasses(disk, localFiles, localFilesMap, remoteFiles, remoteFilesMap, listing.Entries(), r, retryNum);
  }

  method BothPasses(disk: Disk, localFiles: seq<FileInfo>, localFilesMap: map<string, FileInfo>,
                    remoteFiles: seq<Entry>, remoteFilesMap: map<string, Entry>, ghost es: seq<Entry>, r: Roots,
                    retryNum: nat) returns (ok: bool)
    requires r.Valid() && WellFormed(es, r.remote) && Lists(localFiles, disk.files, r.local)
    requires IndexesLocal(localFilesMap, localFiles, r.local, r.remote)
    requires remoteFiles == Flatten(es) && IndexesRemote(remoteFilesMap, remoteFiles)
    modifies disk
    ensures BegunBelow(old(disk.begun), disk.begun, r.remote)
    ensures ok && !disk.Faulted(old(disk.calls)) ==>
            Outcome(old(disk.files), disk.files, localFiles, EntriesOf(es), r)
    ensures CleanResult(old(disk.files), disk.files, EntriesOf(es), r, ok)
    ensures UnchangedOutside(old(disk.files), disk.files, r.local)
    ensures IsCleanMirror(old(disk.files), EntriesOf(es), r) ==>
            disk.files == old(disk.files) && disk.writes == old(disk.writes)
    ensures old(disk.calls) <= disk.calls && (!ok ==> disk.Faulted(old(disk.calls)))
    decreases Height(es), 0, 3
  {
    ghost var before, remote := disk.files, EntriesOf(es);
    EntriesAreProper(es, r.remote);
    if IsCleanMirror(before, remote, r) { CleanMirrorIsCurrent(before, localFiles, remote, r); }
    ok := RemoveAbsent(disk, localFiles, remoteFilesMap, remote, r);
    ghost var now := disk.files;
    if Clean(before.Keys, remote, r) { CleanStarts(before, now, remote, r); }
    if !ok { return; }
    PassStarts(before, now, localFiles, remote, r);
    ok := CopyPass(disk, before, es, remoteFiles, localFilesMap, localFiles, r, retryNum);
    OutsideTwice(before, now, disk.files, r.local);
  }

  lemma PassStarts(before: map<string, string>, now: map<string, string>, listed: seq<FileInfo>, remote: set<Entry>,
                   r: Roots)
    requires r.local != "" && Proper(remote, r.remote)
    requires forall p :: p in now <==> p in before && Stays(p, remote, r)
    requires forall p | p in now :: Holds(before, p, now[p])
    ensures OnTheWay(before, now, listed, remote, {}, r, true)
  {
    ProgressStarts(before, now, listed, remote, r);
    if Clean(before.Keys, remote, r) {
      CleanStarts(before, now, remote, r);
      CleanDoneStarts(before, now, remote, r);
    }
  }

  /** The entries dealt with after k rounds, none of which lies below the next one. */
  ghost predicate FirstOf(done: set<Entry>, remoteFiles: seq<Entry>, k: nat) {
    k <= |remoteFiles| && done == set e | e in remoteFiles[..k]
  }

  lemma FirstOfMore(done: set<Entry>, remoteFiles: seq<Entry>, k: nat)
    requires FirstOf(done, remoteFiles, k) && k < |remoteFiles| && TopDown(remoteFiles)
    ensures FirstOf(done + {remoteFiles[k]}, remoteFiles, k + 1)
    ensures forall e | e in done :: !Below(e.path, remoteFiles[k].path)
  {
    assert remoteFiles[..k + 1] == remoteFiles[..k] + [remoteFiles[k]];
  }

  /** The second loop. */
  method CopyPass(disk: Disk, ghost before: map<string, string>, ghost es: seq<Entry>, remoteFiles: seq<Entry>,
                  localFilesMap: map<string, FileInfo>, ghost listed: seq<FileInfo>, r: Roots, retryNum: nat)
      returns (ok: bool)
    requires r.Valid() && WellFormed(es, r.remote) && remoteFiles == Flatten(es)
    requires OnTheWay(before, disk.files, listed, EntriesOf(es), {}, r, true)
    requires IndexesLocal(localFilesMap, listed, r.local, r.remote) && Lists(listed, before, r.local)
    modifies disk
    ensures BegunBelow(old(disk.begun), disk.begun, r.remote)
    ensures ok && !disk.Faulted(old(disk.calls)) ==> Outcome(before, disk.files, listed, EntriesOf(es), r)
    ensures CleanResult(before, disk.files, EntriesOf(es), r, ok)
    ensures UnchangedOutside(old(disk.files), disk.files, r.local)
    ensures IsCleanMirror(before, EntriesOf(es), r) && old(disk.files) == before ==>
            disk.files == before && disk.writes == old(disk.writes)
    ensures old(disk.calls) <= disk.calls && (!ok ==> disk.Faulted(old(disk.calls)))
    decreases Height(es), 0, 2
  {
    ghost var remote := EntriesOf(es);
    ghost var done: set<Entry> := {};
    FlattenIsTopDown(es, r.remote);
    for k := 0 to |remoteFiles|
      invariant BegunBelow(old(disk.begun), disk.begun, r.remote)
      invariant FirstOf(done, remoteFiles, k) && done <= remote && old(disk.calls) <= disk.calls
      invariant OnTheWay(before, disk.files, listed, remote, done, r, !disk.Faulted(old(disk.calls)))
      invariant UnchangedOutside(old(disk.files), disk.files, r.local)
      invariant IsCleanMirror(before, remote, r) && old(disk.files) == before ==>
                disk.files == before && disk.writes == old(disk.writes)
    {
      ghost var begun := disk.begun;
      ghost var now, faultless := disk.files, !disk.Faulted(old(disk.calls));
      FirstOfMore(done, remoteFiles, k);
      ok := SyncEntry(disk, before, es, done, remoteFiles[k], localFilesMap, listed, r, retryNum, faultless);
      BegunTwice(old(disk.begun), begun, disk.begun, r.remote);
      OutsideTwice(old(disk.files), now, disk.files, r.local);
      if !ok { return; }
      done := done + {remoteFiles[k]};
    }
    assert remoteFiles[..|remoteFiles|] == remoteFiles;
    assert done == remote;
    if Clean(before.Keys, remote, r) { CleanDoneMirrors(disk.files, remote, r); }
    ok := true;
  }

  /** The body of the second loop. */
  method SyncEntry(disk: Disk, ghost before: map<string, string>, ghost es: seq<Entry>, ghost done: set<Entry>,
                   remoteFile: Entry, localFilesMap: map<string, FileInfo>, ghost listed: seq<FileInfo>, r: Roots,
                   retryNum: nat, ghost faultless: bool) returns (ok: bool)
    requires r.Valid() && WellFormed(es, r.remote) && remoteFile in Flatten(es) && done <= EntriesOf(es)
    requires OnTheWay(before, disk.files, listed, EntriesOf(es), done, r, faultless)
    requires forall e | e in done :: !Below(e.path, remoteFile.path)
    requires IndexesLocal(localFilesMap, listed, r.local, r.remote) && Lists(listed, before, r.local)
    modifies disk
    ensures BegunBelow(old(disk.begun), disk.begun, r.remote)
    ensures ok ==> OnTheWay(before, disk.files, listed, EntriesOf(es), done + {remoteFile}, r,
                            faultless && !disk.Faulted(old(disk.calls)))
    ensures CleanResult(before, disk.files, EntriesOf(es), r, false)
    ensures UnchangedOutside(old(disk.files), disk.files, r.local)
    ensures IsCleanMirror(before, EntriesOf(es), r) && old(disk.files) == before ==>
            disk.files == before && disk.writes == old(disk.writes)
    ensures old(disk.calls) <= disk.calls && (!ok ==> disk.Faulted(old(disk.calls)))
    decreases Height(es), 0, 1
  {
    ghost var now, remote := disk.files, EntriesOf(es);
    EntriesAreProper(es, r.remote);
    if Clean(before.Keys, remote, r) { StaysClean(before, now, remote, r); }
    if remoteFile.Dir? {
      ghost var below;
      ok, below := SyncDir(disk, es, remoteFile, r, retryNum);
      if Clean(before.Keys, remote, r) { HarmlessTwice(before, now, disk.files, remote, r); }
      if ok {
        DirOnTheWay(before, now, disk.files, listed, below, remote, done, remoteFile, r,
                    faultless && !disk.Faulted(old(disk.calls)));
      }
    } else {
      if IsCleanMirror(before, remote, r) { CleanMirrorIsCurrent(before, listed, remote, r); }
      ok := SyncFile(disk, remoteFile, localFilesMap, listed, r, retryNum);
      if Clean(before.Keys, remote, r) {
        CleanFileStep(before, now, disk.files, listed, remote, remoteFile, r);
      }
      if ok { FileOnTheWay(before, now, disk.files, listed, remote, done, remoteFile, r, faultless); }
    }
  }

  // ---------- a root that recurs ----------

  /** A remote root, a local one that starts at the top, and the name of the one remote file; below the local root its
      whole path is there a second time, and holds a file of that name. */
  datatype Example = Example(r: Roots, name: string)
  {
    predicate Proper() {
      && r.Valid() && r.local[0] == '/' && name != "" && '/' !in name
      && !Occurs("/" + name, r.local) && !IsGitFile(Stray())
    }

    function Wanted(): Entry {
      File(r.remote + ("/" + name), "1")
    }

    function Stray(): string {
      r.local + (r.local + ("/" + name))
    }
  }

  lemma ExampleKey(x: Example)
    requires x.Proper()
    ensures x.r.Key(x.Stray()) == x.Wanted().path
  {
    EraseLeading(x.r.local, x.r.local + ("/" + x.name));
    EraseLeading(x.r.local, "/" + x.name);
    EraseAllIsIdentity("/" + x.name, x.r.local);
  }

  lemma ExamplePlace(x: Example)
    requires x.Proper()
    ensures x.r.Place(x.Wanted()) == x.r.local + ("/" + x.name) != x.Stray() && Under(x.Stray(), x.r.local)
  {
    PlusRel(x.r.remote, "/" + x.name);
    assert |x.Stray()| > |x.r.local + ("/" + x.name)|;
    assert x.r.local + "/" <= x.Stray();
  }

  lemma TwoPaths(listed: seq<FileInfo>, p: string)
    requires |listed| >= 2 && listed[0].path != listed[1].path
    ensures exists k | 0 <= k < |listed| :: listed[k].path != p
  {
    if listed[0].path == p {
      assert listed[1].path != p;
    }
  }

  /** The listing of a single file. */
  lemma OnlyFile(listed: seq<FileInfo>, f: FileInfo, root: string)
    requires Lists(listed, map[f.path := f.md5], root) && Under(f.path, root)
    ensures listed == [f]
  {
    assert f in listed;
    forall k | 0 <= k < |listed| ensures listed[k] == f {
      assert listed[k] in listed;
    }
    if |listed| >= 2 { TwoPaths(listed, f.path); }
  }

  lemma ExampleIsCalled(x: Example, md5: string)
    requires x.Proper()
    ensures Called([FileInfo(x.Stray(), md5)], x.Wanted(), x.r) <==> md5 == "1"
  {
    var listed := [FileInfo(x.Stray(), md5)];
    ExampleKey(x);
    assert IsLastAt(listed, 0, x.Wanted().path, x.r.local, x.r.remote);
    assert IsLastWith(listed, listed[0], x.Wanted().path, x.r.local, x.r.remote);
  }

  lemma ExampleOutcome(x: Example, before: map<string, string>, after: map<string, string>, listed: seq<FileInfo>,
                       md5: string)
    requires x.Proper() && before == map[x.Stray() := md5] && Lists(listed, before, x.r.local)
    requires Outcome(before, after, listed, {x.Wanted()}, x.r)
    ensures after == if md5 == "1" then before else before[x.r.local + ("/" + x.name) := "1"]
    ensures !Mirrors(after, {x.Wanted()}, x.r)
  {
    var p, q, remote := x.r.local + ("/" + x.name), x.Stray(), {x.Wanted()};
    ExamplePlace(x);
    ExampleIsCalled(x, md5);
    OnlyFile(listed, FileInfo(q, md5), x.r.local);
    ExampleStrayStays(x);
    assert x.Wanted() in remote && Direct(x.Wanted(), remote);
    assert DirectOk(before, after, listed, x.Wanted(), true, remote, x.r);
    assert IsStray(q, remote, x.r);
    AtMostTwo(before, after, p, q);
  }

  lemma ExampleStrayStays(x: Example)
    requires x.Proper()
    ensures AlwaysStays(x.Stray(), {x.Wanted()}, x.r)
    ensures forall p :: IsPlace(p, {x.Wanted()}, x.r) <==> p == x.r.local + ("/" + x.name)
  {
    ExampleKey(x);
    ExamplePlace(x);
    assert x.Wanted() in {x.Wanted()};
  }

  lemma AtMostTwo(before: map<string, string>, after: map<string, string>, p: string, q: string)
    requires before.Keys == {q} && p != q && q in after && after[q] == before[q]
    requires forall o | o in after && o != p :: o in before
    ensures after == if p in after then before[p := after[p]] else before
  {
  }

  /** A run without errors on a disk that holds just the stray file, of whatever content. The stray file is kept; and if
      it happens to have the content of the remote file, that is taken for present, and not downloaded. */
  method RunWithRecurringRoot(x: Example, md5: string, retryNum: nat) returns (disk: Disk, ok: bool)
    requires x.Proper()
    ensures ok
    ensures disk.files == if md5 == "1" then map[x.Stray() := "1"]
                          else map[x.Stray() := md5, x.r.local + ("/" + x.name) := "1"]
    ensures !Mirrors(disk.files, {x.Wanted()}, x.r)
  {
    disk := new Disk(map[x.Stray() := md5], n => false, n => "");
    ghost var before := disk.files;
    ExampleListing(x);
    ghost var listed;
    ok, listed := SyncRemoteToLocal(disk, Listed([x.Wanted()]), x.r, retryNum);
    ExampleOutcome(x, before, disk.files, listed, md5);
  }

  lemma ExampleListing(x: Example)
    requires x.Proper()
    ensures WellFormed([x.Wanted()], x.r.remote) && EntriesOf([x.Wanted()]) == {x.Wanted()}
  {
    var root := x.r.remote;
    assert root + "/" <= x.Wanted().path && x.Wanted().path[|root| + 1..] == x.name;
    assert [x.Wanted()][1..] == [] && Flatten([x.Wanted()]) == [x.Wanted()];
  }

  /** For one, the local root /a with /a/a/c below it. */
  lemma RecurringExample()
    ensures var x := Example(Roots("/r", "/a"), "c");
            x.Proper() && x.Stray() == "/a/a/c" && x.Wanted() == File("/r/c", "1") && x.r.Place(x.Wanted()) == "/a/c"
  {
    var x := Example(Roots("/r", "/a"), "c");
    assert "/" + "c" == "/c" && "/a" + "/c" == "/a/c" && "/r" + "/c" == "/r/c";
    assert "/a" + "/a/c" == "/a/a/c";
    MissingChar("/c", "/a", 1);
    NoDotNoGit("/a/a/c");
    assert x.r.Place(File("/r/c", "1")) == "/a" + "/r/c"[2..];
    assert "/r/c"[2..] == "/c";
  }

  // ---------- a file mistaken twice ----------

  /** A directory below the remote root with one file, and below the local root two files in .git directories: one with
      the whole root in its path a second time, the other with the place of the directory. */
  datatype Nested = Nested(r: Roots, dir: string, name: string)
  {
    predicate Proper() {
      && r.Valid() && r.local[0] == '/' && dir != "" && '/' !in dir && name != "" && '/' !in name
      && !Occurs("/" + dir + ("/" + name), r.local) && !Occurs("/" + name, r.local + ("/" + dir))
      && IsGitFile(First()) && IsGitFile(Second())
    }

    function Wanted(): Entry {
      File(r.remote + ("/" + dir) + ("/" + name), "1")
    }

    function Folder(): Entry {
      Dir(r.remote + ("/" + dir), [Wanted()])
    }

    function First(): string {
      r.local + (r.local + ("/" + dir + ("/" + name)))
    }

    function Second(): string {
      r.local + ("/" + dir) + (r.local + ("/" + dir) + ("/" + name))
    }

    function Files(): map<string, string> {
      map[First() := "1", Second() := "1"]
    }
  }

  lemma NestedPlaces(x: Nested)
    requires x.Proper()
    ensures x.r.Sub(x.Folder()) == Roots(x.Folder().path, x.r.local + ("/" + x.dir))
    ensures x.r.Place(x.Wanted()) == x.r.local + ("/" + x.dir + ("/" + x.name))
    ensures Below(x.Wanted().path, x.Folder().path)
  {
    var g, n := "/" + x.dir, "/" + x.name;
    PlusRel(x.r.remote, g);
    Assoc(x.r.remote, g, n);
    PlusRel(x.r.remote, g + n);
    BelowPlus(x.Folder().path, n);
  }

  lemma BelowPlus(root: string, rel: string)
    requires "/" <= rel
    ensures Below(root + rel, root) && Under(root + rel, root)
  {
    UnderPlus(root, rel);
  }

  lemma NestedKeys(x: Nested)
    requires x.Proper()
    ensures Under(x.First(), x.r.local) && x.r.Key(x.First()) == x.Wanted().path
    ensures HasKey(x.Second(), x.Wanted(), x.Folder(), x.r)
  {
    var g, n, place := "/" + x.dir, "/" + x.name, x.r.local + ("/" + x.dir);
    NestedPlaces(x);
    EraseTwice(x.r.local, g + n);
    Assoc(x.r.remote, g, n);
    EraseTwice(place, n);
    UnderPlus(x.r.local, x.r.local + (g + n));
    UnderPlus(place, place + n);
  }

  lemma NestedMissing(x: Nested)
    requires x.Proper()
    ensures x.r.Place(x.Wanted()) !in x.Files()
  {
    NestedPlaces(x);
    assert |x.First()| > |x.r.Place(x.Wanted())| && |x.Second()| > |x.r.Place(x.Wanted())|;
  }

  ghost predicate OneContent(files: map<string, string>, md5: string) {
    forall p | p in files :: files[p] == md5
  }

  /** Where all files have the same content, one with the key is enough. */
  lemma OneContentFools(before: map<string, string>, d: Entry, e: Entry, q: string, r: Roots)
    requires r.local != "" && d.Dir? && e.File? && OneContent(before, e.md5)
    requires q in before && IsGitFile(q) && HasKey(q, e, d, r)
    ensures Fooled(e, before, {d, e}, r)
  {
    assert AlwaysStays(q, {d, e}, r);
    assert Impostor(q, e, d, before, {d, e}, r);
  }

  lemma OneContentIsCalled(listed: seq<FileInfo>, files: map<string, string>, e: Entry, p: string, r: Roots)
    requires r.local != "" && e.File? && OneContent(files, e.md5) && Lists(listed, files, r.local)
    requires p in files && Under(p, r.local) && r.Key(p) == e.path
    ensures Called(listed, e, r)
  {
    assert FileInfo(p, files[p]) in listed;
    var f := LastExists(listed, FileInfo(p, files[p]), e.path, r);
    assert f in listed;
  }

  lemma NestedIsFooled(x: Nested)
    requires x.Proper()
    ensures Fooled(x.Wanted(), x.Files(), {x.Folder(), x.Wanted()}, x.r)
    ensures !Direct(x.Wanted(), {x.Folder(), x.Wanted()})
  {
    NestedKeys(x);
    NestedPlaces(x);
    OneContentFools(x.Files(), x.Folder(), x.Wanted(), x.Second(), x.r);
    assert x.Folder() in {x.Folder(), x.Wanted()};
  }

  lemma NestedIsCalled(x: Nested, listed: seq<FileInfo>)
    requires x.Proper() && Lists(listed, x.Files(), x.r.local)
    ensures Called(listed, x.Wanted(), x.r)
  {
    NestedKeys(x);
    OneContentIsCalled(listed, x.Files(), x.Wanted(), x.First(), x.r);
  }

  /** The two local files are no strays, being .git files. */
  lemma NestedHasNoStray(x: Nested)
    requires x.Proper()
    ensures NoStrayKept(x.Files(), {x.Folder(), x.Wanted()}, x.r)
  {
    forall p | p in x.Files() ensures IsGitFile(p) {
    }
  }

  /** No stray is kept, and no file of the root is mistaken; but the file of the directory is, by both indexes. */
  lemma NestedOutcome(x: Nested, after: map<string, string>, listed: seq<FileInfo>)
    requires x.Proper() && Lists(listed, x.Files(), x.r.local)
    requires Outcome(x.Files(), after, listed, {x.Folder(), x.Wanted()}, x.r)
    ensures NoStrayKept(x.Files(), {x.Folder(), x.Wanted()}, x.r)
    ensures CalledInPlace(x.Files(), listed, {x.Folder(), x.Wanted()}, x.r)
    ensures x.r.Place(x.Wanted()) !in after && !Mirrors(after, {x.Folder(), x.Wanted()}, x.r)
  {
    NestedHasNoStray(x);
    NestedIsFooled(x);
    NestedIsCalled(x, listed);
    NestedMissing(x);
    NoneDirect(x.Files(), listed, x.Folder(), x.Wanted(), x.r);
    FooledStaysMissing(x.Files(), after, listed, {x.Folder(), x.Wanted()}, x.Wanted(), x.r);
  }

  lemma NoneDirect(before: map<string, string>, listed: seq<FileInfo>, d: Entry, e: Entry, r: Roots)
    requires r.local != "" && d.Dir? && !Direct(e, {d, e})
    ensures CalledInPlace(before, listed, {d, e}, r)
  {
  }

  lemma MemberPlus(root: string, name: string)
    requires name != "" && '/' !in name
    ensures MemberOf(root + ("/" + name), root)
  {
    var path := root + ("/" + name);
    assert path == root + "/" + name;
    assert path[|root| + 1..] == name;
  }

  lemma OneDirListing(d: Entry, e: Entry, root: string)
    requires d == Dir(d.path, [e]) && e.File? && e.md5 != "" && MemberOf(d.path, root) && MemberOf(e.path, d.path)
    ensures WellFormed([d], root) && EntriesOf([d]) == {d, e}
  {
    assert [d][1..] == [] && [e][1..] == [];
    assert Flatten([e]) == [e];
    assert Flatten([d]) == [d] + [e] + [];
    assert WellFormed([e], d.path);
  }

  lemma NestedListing(x: Nested)
    requires x.Proper()
    ensures WellFormed([x.Folder()], x.r.remote) && EntriesOf([x.Folder()]) == {x.Folder(), x.Wanted()}
  {
    MemberPlus(x.r.remote, x.dir);
    MemberPlus(x.Folder().path, x.name);
    OneDirListing(x.Folder(), x.Wanted(), x.r.remote);
  }

  /** A run without errors never downloads the missing file. */
  method RunMistakenTwice(x: Nested, retryNum: nat) returns (disk: Disk, ok: bool)
    requires x.Proper()
    ensures ok
    ensures x.r.Place(x.Wanted()) !in disk.files && !Mirrors(disk.files, {x.Folder(), x.Wanted()}, x.r)
  {
    disk := new Disk(map[x.First() := "1", x.Second() := "1"], n => false, n => "");
    NestedListing(x);
    ghost var listed;
    ok, listed := SyncRemoteToLocal(disk, Listed([x.Folder()]), x.r, retryNum);
    NestedOutcome(x, disk.files, listed);
  }

  lemma BothAreGit()
    ensures IsGitFile("/a/a/.git/c") && IsGitFile("/a/.git/a/.git/c")
  {
    assert OccursAt("/a/a/.git/c", ".git/", 5) && OccursAt("/a/.git/a/.git/c", ".git/", 3);
  }

  /** For one, the local root /a with /a/a/.git/c and /a/.git/a/.git/c, and the remote file /r/.git/c. */
  lemma MistakenExample()
    ensures var x := Nested(Roots("/r", "/a"), ".git", "c");
            && x.Proper() && x.First() == "/a/a/.git/c" && x.Second() == "/a/.git/a/.git/c"
            && x.Wanted() == File("/r/.git/c", "1")
  {
    var x := Nested(Roots("/r", "/a"), ".git", "c");
    assert "/" + ".git" == "/.git" && "/" + "c" == "/c" && "/.git" + "/c" == "/.git/c";
    assert "/a" + "/.git" == "/a/.git" && "/a" + "/.git/c" == "/a/.git/c" && "/a/.git" + "/c" == "/a/.git/c";
    assert x.First() == "/a/a/.git/c" && x.Second() == "/a/.git/a/.git/c";
    BothAreGit();
    MissingChar("/.git/c", "/a", 1);
    MissingChar("/c", "/a/.git", 1);
    assert "/r" + "/.git" + "/c" == "/r/.git/c";
  }
}
