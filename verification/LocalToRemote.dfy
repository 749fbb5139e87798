/** SyncLocalToRemote (fs/seaweedfs_manager.go): bringing a remote directory in line with a local one. */
module LocalToRemote {
  import opened Text
  import opened RemoteTree
  import opened FileIndex
  import opened LocalDisk

  /** The directories a path lies in. */
  function Ancestors(p: string): set<string> {
    set i | 0 < i < |p| && p[i] == '/' :: p[..i]
  }

  /** Filer content: checksums of files, and the directories. */
  datatype Store = Store(files: map<string, string>, dirs: set<string>)
  {
    /** No path is both a file and a directory, and what lies below the root has its directories. */
    ghost predicate Valid(root: string) {
      && files.Keys !! dirs
      && (forall p, a | (p in files || p in dirs) && a in Ancestors(p) && Below(a, root) :: a in dirs)
    }

    function DeleteDir(d: string): Store {
      Store(map p | p in files && !Below(p, d) :: files[p], set p | p in dirs && p != d && !Below(p, d))
    }

    function DeleteFile(f: string): Store {
      Store(files - {f}, dirs)
    }

    /** The filer refuses to turn a directory into a file or a file into a directory. */
    predicate Accepts(p: string) {
      p !in dirs && Ancestors(p) !! files.Keys
    }

    function Upload(p: string, md5: string): Store {
      Store(files[p := md5], dirs + Ancestors(p))
    }
  }

  datatype Request = DeleteDirOf(dir: string) | DeleteFileOf(file: string) | UploadTo(path: string, md5: string)

  /** The remote side: its content, the requests that were to change it, and the attempts at them. Any attempt may fail:
      the n-th one does exactly when fails(n). Deletes are idempotent. */
  class Filer {
    var store: Store
    var requests: seq<Request>
    var calls: nat
    const fails: nat -> bool
    const retryNum: nat

    constructor (fails: nat -> bool, retryNum: nat)
      ensures this.fails == fails && this.retryNum == retryNum
      ensures store == Store(map[], {}) && requests == [] && calls == 0
    {
      this.fails, this.retryNum := fails, retryNum;
      store, requests, calls := Store(map[], {}), [], 0;
    }

    ghost function FaultsSince(since: nat): nat
      reads this
    {
      Faults(fails, since, calls)
    }

    /** More attempts have failed since the given one than are made again for one request. */
    ghost predicate TooManyFaults(since: nat)
      reads this
    {
      FaultsSince(since) > retryNum
    }

    /** The request is not an upload that the filer refuses. */
    predicate Takes(r: Request)
      reads this
    {
      r.UploadTo? ==> store.Accepts(r.path)
    }

    function Done(r: Request): Store
      reads this
    {
      match r
      case DeleteDirOf(d) => store.DeleteDir(d)
      case DeleteFileOf(f) => store.DeleteFile(f)
      case UploadTo(p, md5) => store.Upload(p, md5)
    }

    /** One attempt. */
    method Attempt(r: Request) returns (ok: bool)
      modifies `store, `calls
      ensures calls == old(calls) + 1 && ok == (!fails(old(calls)) && old(Takes(r)))
      ensures store == if ok then old(Done(r)) else old(store)
    {
      ok := !fails(calls) && Takes(r);
      calls := calls + 1;
      if ok {
        store := Done(r);
      }
    }

    /** A request is made again until it succeeds, at most retryNum times. */
    method Send(r: Request) returns (ok: bool)
      modifies this
      ensures requests == old(requests) + [r]
      ensures old(calls) < calls <= old(calls) + retryNum + 1
      ensures store == if ok then old(Done(r)) else old(store)
      ensures ok ==> old(Takes(r)) && FaultsSince(old(calls)) == calls - old(calls) - 1
      ensures !ok ==> calls == old(calls) + retryNum + 1 && (old(Takes(r)) ==> TooManyFaults(old(calls)))
    {
      requests := requests + [r];
      for attempt := 0 to retryNum + 1
        invariant requests == old(requests) + [r] && store == old(store) && calls == old(calls) + attempt
        invariant old(Takes(r)) ==> FaultsSince(old(calls)) == attempt
      {
        ok := Attempt(r);
        if ok { return; }
      }
      ok := false;
    }
  }

  lemma MoreFaults(filer: Filer, since: nat, from: nat)
    requires since <= from <= filer.calls && filer.TooManyFaults(from)
    ensures filer.TooManyFaults(since)
  {
    FaultsAdd(filer.fails, since, from, filer.calls);
  }

  /** es is a recursive listing of the directory root of the store. */
  ghost predicate Snapshot(es: seq<Entry>, store: Store, root: string) {
    && (forall e | e in Flatten(es) :: Below(e.path, root))
    && (forall e | e in Flatten(es) && e.File? :: Holds(store.files, e.path, e.md5))
    && (forall e | e in Flatten(es) && e.Dir? :: e.path in store.dirs)
    && (forall p | p in store.files && Below(p, root) :: File(p, store.files[p]) in Flatten(es))
    && (forall p | p in store.dirs && Below(p, root) :: exists e | e in Flatten(es) :: e.Dir? && e.path == p)
  }

  // ---------- the local side, seen through its remote keys ----------

  function KeyFor(f: string, r: Roots): string {
    r.remote + Rel(f, r.local)
  }

  /** The keys of the local files. */
  ghost function Keys(local: map<string, string>, r: Roots): set<string> {
    set f | f in local && Under(f, r.local) :: KeyFor(f, r)
  }

  /** The keys of the local index: those of the files and of the directories directly holding one. */
  ghost function Indexed(local: map<string, string>, r: Roots): set<string> {
    Keys(local, r) + set k | k in Keys(local, r) :: ParentDir(k)
  }

  /** The local path a remote path stands for lies in a .git directory. */
  predicate IsGitKey(k: string, r: Roots) {
    IsGitFile(r.local + Rel(k, r.remote))
  }

  /** The files the upload pass handles: their checksums by key. */
  ghost function Wanted(local: map<string, string>, r: Roots): map<string, string> {
    map k | k in Keys(local, r) && !IsGitKey(k, r) && r.local + Rel(k, r.remote) in local
      :: local[r.local + Rel(k, r.remote)]
  }

  lemma KeyRoundTrip(f: string, r: Roots)
    requires Under(f, r.local)
    ensures r.local + Rel(KeyFor(f, r), r.remote) == f
  {
  }

  lemma WantedIs(local: map<string, string>, f: string, r: Roots)
    requires f in local && Under(f, r.local)
    ensures KeyFor(f, r) in Keys(local, r)
    ensures KeyFor(f, r) in Wanted(local, r) <==> !IsGitFile(f)
    ensures !IsGitFile(f) ==> Wanted(local, r)[KeyFor(f, r)] == local[f]
  {
    KeyRoundTrip(f, r);
  }

  /** Every file key that is not a .git one is wanted. */
  lemma KeysAreWantedOrGit(local: map<string, string>, r: Roots)
    ensures forall k | k in Keys(local, r) ::
              k in Wanted(local, r) || IsGitKey(k, r)
  {
    forall k | k in Keys(local, r)
      ensures k in Wanted(local, r) || IsGitKey(k, r)
    {
      var f :| f in local && Under(f, r.local) && k == KeyFor(f, r);
      WantedIs(local, f, r);
      KeyRoundTrip(f, r);
    }
  }

  // ---------- what one error-free run leaves ----------

  /** The delete pass removes a directory above p: one the snapshot has and the index lacks. */
  ghost predicate Swept(p: string, store: Store, indexed: set<string>, remotePath: string) {
    exists d | d in store.dirs && Below(d, remotePath) :: d !in indexed && Below(p, d)
  }

  ghost predicate Survives(p: string, store: Store, indexed: set<string>, remotePath: string) {
    Below(p, remotePath) ==> p in indexed && !Swept(p, store, indexed, remotePath)
  }

  ghost function AfterDeletes(store: Store, indexed: set<string>, remotePath: string): Store {
    Store(map p | p in store.files && Survives(p, store, indexed, remotePath) :: store.files[p],
          set d | d in store.dirs && Survives(d, store, indexed, remotePath))
  }

  /** The wanted files that the snapshot, taken before the deletes, does not have up to date. */
  ghost function Outdated(store: Store, wanted: map<string, string>): map<string, string> {
    map p | p in wanted && !Holds(store.files, p, wanted[p]) :: wanted[p]
  }

  ghost function UploadAll(store: Store, uploads: map<string, string>): Store {
    Store(store.files + uploads, store.dirs + set p, d | p in uploads && d in Ancestors(p) :: d)
  }

  /** What an error-free run makes of the store. */
  ghost function After(store: Store, local: map<string, string>, r: Roots): Store {
    UploadAll(AfterDeletes(store, Indexed(local, r), r.remote),
              Outdated(store, Wanted(local, r)))
  }

  ghost predicate AllIndexed(store: Store, indexed: set<string>, remotePath: string) {
    forall p | p in store.files.Keys + store.dirs && Below(p, remotePath) :: p in indexed
  }

  /** A run has nothing to do. */
  ghost predicate Quiet(store: Store, local: map<string, string>, r: Roots) {
    && AllIndexed(store, Indexed(local, r), r.remote)
    && Outdated(store, Wanted(local, r)) == map[]
  }

  /** The remote files below the root, .git directories aside, are the local ones with their checksums. */
  ghost predicate Mirrored(store: Store, local: map<string, string>, r: Roots) {
    var wanted := Wanted(local, r);
    && (forall p | p in wanted :: Holds(store.files, p, wanted[p]))
    && (forall p | p in store.files && Below(p, r.remote) && !IsGitKey(p, r) :: p in wanted)
  }

  // ---------- when one run mirrors, and when the next one is quiet ----------

  /** No up-to-date file lies below a remote directory that the index lacks. */
  ghost predicate NoneLost(store: Store, local: map<string, string>, r: Roots) {
    var wanted := Wanted(local, r);
    forall p | p in wanted && Holds(store.files, p, wanted[p]) :: !Swept(p, store, Indexed(local, r), r.remote)
  }

  /** No remote file that escapes the delete pass has the path of a local directory. */
  ghost predicate NoneShadowed(store: Store, local: map<string, string>, r: Roots) {
    forall p | p in store.files && Below(p, r.remote) && !IsGitKey(p, r)
            && Survives(p, store, Indexed(local, r), r.remote) ::
      p in Keys(local, r)
  }

  /** Every directory between the root and a wanted file directly holds a local file. */
  ghost predicate AncestorsHoldFiles(local: map<string, string>, r: Roots) {
    forall p, a | p in Wanted(local, r) && a in Ancestors(p) && Below(a, r.remote) ::
      a in Indexed(local, r)
  }

  lemma WantedAfter(store: Store, local: map<string, string>, p: string, r: Roots)
    requires p in Wanted(local, r)
    ensures var md5 := Wanted(local, r)[p];
            Holds(After(store, local, r).files, p, md5)
            <==> !(Holds(store.files, p, md5) && Swept(p, store, Indexed(local, r), r.remote))
  {
    SweptIsBelow(p, store, Indexed(local, r), r.remote);
  }

  lemma SweptIsBelow(p: string, store: Store, indexed: set<string>, remotePath: string)
    ensures Swept(p, store, indexed, remotePath) ==> Below(p, remotePath)
  {
  }

  /** Each wanted path is uploaded with its checksum, or is not uploaded, up to date and not deleted. */
  ghost predicate WantedArrive(store: Store, indexed: set<string>, due: map<string, string>, local: map<string, string>,
                               r: Roots)
  {
    var wanted := Wanted(local, r);
    forall p | p in wanted ::
      if p in due then due[p] == wanted[p]
      else Holds(store.files, p, wanted[p]) && Survives(p, store, indexed, r.remote)
  }

  /** Every other upload goes to a .git path or out of the remote directory. */
  ghost predicate NothingElseSent(due: map<string, string>, local: map<string, string>, r: Roots) {
    forall p | p in due && Below(p, r.remote) && !IsGitKey(p, r) :: p in Wanted(local, r)
  }

  /** What the deletes leave is wanted, or overwritten, or a .git file. */
  ghost predicate NothingElseStays(store: Store, indexed: set<string>, due: map<string, string>,
                                   local: map<string, string>, r: Roots)
  {
    forall p | p in store.files && Below(p, r.remote) && !IsGitKey(p, r) && Survives(p, store, indexed, r.remote) ::
      p in Wanted(local, r) || p in due
  }

  /** Of deletes by whatever index and of whatever uploads: they lead to a mirror exactly when the wanted files arrive
      and nothing else is sent or stays. */
  lemma ReachesMirrorExactlyWhen(store: Store, indexed: set<string>, due: map<string, string>,
                                 local: map<string, string>, r: Roots)
    ensures Mirrored(UploadAll(AfterDeletes(store, indexed, r.remote), due), local, r)
            <==> && WantedArrive(store, indexed, due, local, r)
                 && NothingElseSent(due, local, r)
                 && NothingElseStays(store, indexed, due, local, r)
  {
    var after := UploadAll(AfterDeletes(store, indexed, r.remote), due);
    forall p
      ensures p in after.files <==> p in due || (p in store.files && Survives(p, store, indexed, r.remote))
      ensures p in after.files ==> after.files[p] == if p in due then due[p] else store.files[p]
    {
    }
  }

  /** One run with a root that does not recur mirrors the local directory exactly when nothing is lost and nothing
      shadowed. */
  lemma MirrorsExactlyWhen(store: Store, local: map<string, string>, r: Roots)
    ensures Mirrored(After(store, local, r), local, r)
            <==> NoneLost(store, local, r) && NoneShadowed(store, local, r)
  {
    var indexed, due := Indexed(local, r), Outdated(store, Wanted(local, r));
    ReachesMirrorExactlyWhen(store, indexed, due, local, r);
    forall p | p in Wanted(local, r)
      ensures Survives(p, store, indexed, r.remote) <==> !Swept(p, store, indexed, r.remote)
    {
      SweptIsBelow(p, store, indexed, r.remote);
    }
    KeysAreWantedOrGit(local, r);
  }

  // ---------- validity, the next run, and the run after a loss ----------

  lemma AncestorsNest(p: string, a: string, b: string)
    requires a in Ancestors(p) && b in Ancestors(a)
    ensures b in Ancestors(p)
  {
    var i :| 0 < i < |p| && p[i] == '/' && a == p[..i];
    var j :| 0 < j < |a| && a[j] == '/' && b == a[..j];
    assert p[j] == '/' && p[..j] == b;
  }

  lemma BelowIsAncestor(p: string, d: string)
    ensures Below(p, d) && d != "" ==> d in Ancestors(p)
  {
    if Below(p, d) && d != "" {
      assert p[|d|] == (d + "/")[|d|] == '/';
      assert p[..|d|] == d;
    }
  }

  lemma AncestorIsAbove(p: string, a: string)
    requires a in Ancestors(p)
    ensures Below(p, a)
  {
  }

  /** Deleting leaves a valid store valid: whatever survives keeps its directories. */
  lemma DeletesKeepValid(store: Store, indexed: set<string>, remotePath: string)
    requires store.Valid(remotePath)
    ensures AfterDeletes(store, indexed, remotePath).Valid(remotePath)
  {
    var mid := AfterDeletes(store, indexed, remotePath);
    forall p, a | (p in mid.files || p in mid.dirs) && a in Ancestors(p) && Below(a, remotePath)
      ensures a in mid.dirs
    {
      AncestorIsAbove(p, a);
      assert remotePath + "/" <= a <= a + "/" <= p;
      if a !in indexed {
        assert Swept(p, store, indexed, remotePath);
      }
    }
  }

  lemma UploadKeepsValid(store: Store, p: string, md5: string, remotePath: string)
    requires store.Valid(remotePath) && store.Accepts(p)
    ensures store.Upload(p, md5).Valid(remotePath)
  {
    var after := store.Upload(p, md5);
    forall q, a | (q in after.files || q in after.dirs) && a in Ancestors(q) && Below(a, remotePath)
      ensures a in after.dirs
    {
      if q in Ancestors(p) {
        AncestorsNest(p, q, a);
      }
    }
    forall a | a in Ancestors(p) ensures a != p {
      AncestorIsAbove(p, a);
    }
  }

  /** Of a mirror that the next run finds nothing to do on, and of the local side: one first run reaches it
      exactly when every directory above a wanted file directly holds a file and nothing is shadowed. */
  lemma QuietExactlyWhen(store: Store, local: map<string, string>, r: Roots)
    requires After(store, local, r).Valid(r.remote)
    ensures var after := After(store, local, r);
            Mirrored(after, local, r) && Quiet(after, local, r)
            <==> AncestorsHoldFiles(local, r) && NoneShadowed(store, local, r)
  {
    if AncestorsHoldFiles(local, r) && NoneShadowed(store, local, r) {
      QuietWhen(store, local, r);
    } else if Mirrored(After(store, local, r), local, r)
           && Quiet(After(store, local, r), local, r) {
      QuietOnlyWhen(store, local, r);
    }
  }

  lemma NothingSwept(store: Store, local: map<string, string>, p: string, r: Roots)
    requires AncestorsHoldFiles(local, r) && p in Wanted(local, r)
    ensures !Swept(p, store, Indexed(local, r), r.remote)
  {
    forall d | Below(d, r.remote) && Below(p, d) ensures d in Indexed(local, r) {
      BelowIsAncestor(p, d);
    }
  }

  lemma QuietWhen(store: Store, local: map<string, string>, r: Roots)
    requires AncestorsHoldFiles(local, r) && NoneShadowed(store, local, r)
    ensures Mirrored(After(store, local, r), local, r)
    ensures Quiet(After(store, local, r), local, r)
  {
    forall p | p in Wanted(local, r) ensures !Swept(p, store, Indexed(local, r), r.remote) {
      NothingSwept(store, local, p, r);
    }
    MirrorsExactlyWhen(store, local, r);
    EverythingIndexed(store, local, r);
  }

  lemma EverythingIndexed(store: Store, local: map<string, string>, r: Roots)
    requires AncestorsHoldFiles(local, r)
    ensures AllIndexed(After(store, local, r), Indexed(local, r), r.remote)
  {
  }

  lemma QuietOnlyWhen(store: Store, local: map<string, string>, r: Roots)
    requires After(store, local, r).Valid(r.remote)
    requires Mirrored(After(store, local, r), local, r)
    requires Quiet(After(store, local, r), local, r)
    ensures AncestorsHoldFiles(local, r) && NoneShadowed(store, local, r)
  {
  }

  /** A wanted file below a directory that holds no file itself flickers: a run uploads it exactly
      when the run before left it out, and loses it exactly when it was up to date. */
  lemma Flickers(store: Store, local: map<string, string>, p: string, a: string, r: Roots)
    requires store.Valid(r.remote)
    requires p in Wanted(local, r)
    requires a in Ancestors(p) && Below(a, r.remote) && a !in Indexed(local, r)
    ensures var md5 := Wanted(local, r)[p];
            Holds(After(store, local, r).files, p, md5) <==> !Holds(store.files, p, md5)
  {
    AncestorIsAbove(p, a);
    WantedAfter(store, local, p, r);
  }

  // ---------- the synchronisation ----------

  /** The store after removing these files and directories. */
  ghost function Without(store: Store, files: set<string>, dirs: set<string>): Store {
    Store(map p | p in store.files && p !in files && (forall d | d in dirs :: !Below(p, d)) :: store.files[p],
          set p | p in store.dirs && p !in dirs && (forall d | d in dirs :: !Below(p, d)))
  }

  /** The paths of the entries, files or directories, that the index lacks. */
  ghost function Lacking(es: seq<Entry>, indexed: set<string>, dirs: bool): set<string> {
    set e | e in es && e.Dir? == dirs && e.path !in indexed :: e.path
  }

  ghost function WithoutLacking(store: Store, es: seq<Entry>, indexed: set<string>): Store {
    Without(store, Lacking(es, indexed, false), Lacking(es, indexed, true))
  }

  lemma LackingNone(store: Store, indexed: set<string>)
    ensures WithoutLacking(store, [], indexed) == store
  {
  }

  lemma LackingGrows(store: Store, es: seq<Entry>, i: nat, indexed: set<string>)
    requires i < |es|
    ensures WithoutLacking(store, es[..i + 1], indexed) ==
            if es[i].path in indexed then WithoutLacking(store, es[..i], indexed)
            else if es[i].Dir? then WithoutLacking(store, es[..i], indexed).DeleteDir(es[i].path)
            else WithoutLacking(store, es[..i], indexed).DeleteFile(es[i].path)
  {
    var e := es[i];
    assert es[..i + 1] == es[..i] + [e];
    var files, dirs := Lacking(es[..i], indexed, false), Lacking(es[..i], indexed, true);
    var moreFiles, moreDirs := Lacking(es[..i + 1], indexed, false), Lacking(es[..i + 1], indexed, true);
    if e.path in indexed {
      assert moreFiles == files && moreDirs == dirs;
    } else if e.Dir? {
      assert moreFiles == files && moreDirs == dirs + {e.path};
      assert Without(store, files, dirs + {e.path}) == Without(store, files, dirs).DeleteDir(e.path);
    } else {
      assert moreFiles == files + {e.path} && moreDirs == dirs;
      assert Without(store, files + {e.path}, dirs) == Without(store, files, dirs).DeleteFile(e.path);
    }
  }

  /** The body of the first loop. */
  method DeleteIfAbsent(filer: Filer, remoteFile: Entry, localFilesMap: map<string, FileInfo>) returns (ok: bool)
    modifies filer
    ensures if remoteFile.path in localFilesMap
            then ok && filer.store == old(filer.store) && filer.requests == old(filer.requests)
            else |filer.requests| == |old(filer.requests)| + 1 && old(filer.requests) <= filer.requests
    ensures ok && remoteFile.path !in localFilesMap ==>
            filer.store == if remoteFile.Dir? then old(filer.store).DeleteDir(remoteFile.path)
                           else old(filer.store).DeleteFile(remoteFile.path)
    ensures old(filer.calls) <= filer.calls && (!ok ==> filer.TooManyFaults(old(filer.calls)))
  {
    ok := true;
    if remoteFile.path !in localFilesMap {
      if remoteFile.Dir? {
        ok := filer.Send(DeleteDirOf(remoteFile.path));
      } else {
        ok := filer.Send(DeleteFileOf(remoteFile.path));
      }
    }
  }

  /** First loop: remote entries that the local index lacks are deleted. */
  method DeleteAbsent(filer: Filer, remoteFiles: seq<Entry>, localFilesMap: map<string, FileInfo>) returns (ok: bool)
    modifies filer
    ensures ok ==> filer.store == WithoutLacking(old(filer.store), remoteFiles, localFilesMap.Keys)
    ensures (forall e | e in remoteFiles :: e.path in localFilesMap) <==> filer.requests == old(filer.requests)
    ensures old(filer.requests) <= filer.requests
    ensures old(filer.calls) <= filer.calls && (!ok ==> filer.TooManyFaults(old(filer.calls)))
  {
    ghost var indexed := localFilesMap.Keys;
    LackingNone(filer.store, indexed);
    for i := 0 to |remoteFiles|
      invariant Deleted(filer, old(filer.store), old(filer.requests), remoteFiles[..i], indexed)
      invariant old(filer.calls) <= filer.calls
    {
      LackingGrows(old(filer.store), remoteFiles, i, indexed);
      AllListedMore(remoteFiles, i, indexed);
      ghost var from := filer.calls;
      ok := DeleteIfAbsent(filer, remoteFiles[i], localFilesMap);
      if !ok {
        MoreFaults(filer, old(filer.calls), from);
        assert remoteFiles[i] in remoteFiles;
        return;
      }
    }
    assert remoteFiles[..|remoteFiles|] == remoteFiles;
    ok := true;
  }

  ghost predicate AllListed(es: seq<Entry>, indexed: set<string>) {
    forall e | e in es :: e.path in indexed
  }

  lemma AllListedMore(es: seq<Entry>, i: nat, indexed: set<string>)
    requires i < |es|
    ensures AllListed(es[..i + 1], indexed) <==> AllListed(es[..i], indexed) && es[i].path in indexed
  {
  }

  /** The filer after the deletes for these entries. */
  ghost predicate Deleted(filer: Filer, start: Store, sent: seq<Request>, es: seq<Entry>, indexed: set<string>)
    reads filer
  {
    && filer.store == WithoutLacking(start, es, indexed)
    && sent <= filer.requests && (AllListed(es, indexed) <==> filer.requests == sent)
  }

  /** The keys the index has: those of the listed files and of the directories directly holding one. */
  ghost function Known(listed: seq<FileInfo>, r: Roots): set<string>
    requires r.local != ""
  {
    (set f | f in listed :: r.Key(f.path)) + set f | f in listed :: ParentDir(r.Key(f.path))
  }

  lemma IndexKeys(m: map<string, FileInfo>, listed: seq<FileInfo>, r: Roots)
    requires r.local != "" && IndexesLocal(m, listed, r.local, r.remote)
    ensures m.Keys == Known(listed, r)
  {
    forall k | k in m ensures k in Known(listed, r) {
      if IsLastWith(listed, m[k], k, r.local, r.remote) {
        assert m[k] in listed;
      } else {
        assert IsHolder(listed, m[k], k, r.local, r.remote);
      }
    }
  }

  /** Over a snapshot, the first loop is the delete pass. */
  lemma DeletedIsAfterDeletes(es: seq<Entry>, store: Store, indexed: set<string>, remotePath: string)
    requires Snapshot(es, store, remotePath)
    ensures WithoutLacking(store, Flatten(es), indexed) == AfterDeletes(store, indexed, remotePath)
  {
    var files, dirs := Lacking(Flatten(es), indexed, false), Lacking(Flatten(es), indexed, true);
    forall d ensures d in dirs <==> d in store.dirs && Below(d, remotePath) && d !in indexed {
    }
    forall p | p in store.files ensures p in files <==> Below(p, remotePath) && p !in indexed {
      if Below(p, remotePath) { assert File(p, store.files[p]) in Flatten(es); }
    }
    WithoutIsAfterDeletes(store, files, dirs, indexed, remotePath);
  }

  lemma WithoutIsAfterDeletes(store: Store, files: set<string>, dirs: set<string>, indexed: set<string>,
                              remotePath: string)
    requires forall d :: d in dirs <==> d in store.dirs && Below(d, remotePath) && d !in indexed
    requires forall p | p in store.files :: p in files <==> Below(p, remotePath) && p !in indexed
    ensures Without(store, files, dirs) == AfterDeletes(store, indexed, remotePath)
  {
    forall p
      ensures (forall d | d in dirs :: !Below(p, d)) <==> !Swept(p, store, indexed, remotePath)
      ensures Swept(p, store, indexed, remotePath) ==> Below(p, remotePath)
    {
      SweptIsBelow(p, store, indexed, remotePath);
    }
    var a, b := Without(store, files, dirs), AfterDeletes(store, indexed, remotePath);
    assert a.files == b.files && a.dirs == b.dirs;
  }

  /** The upload pass sends this file. */
  ghost predicate IsDue(f: FileInfo, before: Store, r: Roots)
    requires r.local != ""
  {
    !IsGitFile(f.path) && !(Below(r.Key(f.path), r.remote) && Holds(before.files, r.Key(f.path), f.md5))
  }

  /** What the upload pass sends: of two files with one key, the later. */
  ghost function Due(listed: seq<FileInfo>, before: Store, r: Roots): map<string, string>
    requires r.local != ""
  {
    if listed == [] then map[]
    else
      var f := listed[|listed| - 1];
      var was := Due(listed[..|listed| - 1], before, r);
      if IsDue(f, before, r) then was[r.Key(f.path) := f.md5] else was
  }

  lemma UploadOneMore(store: Store, uploads: map<string, string>, k: string, md5: string)
    ensures UploadAll(store, uploads[k := md5]) == UploadAll(store, uploads).Upload(k, md5)
  {
    var one, two := UploadAll(store, uploads[k := md5]), UploadAll(store, uploads).Upload(k, md5);
    assert one.files == two.files;
    assert forall d :: d in one.dirs <==> d in two.dirs;
  }

  /** Of a checksum that is not empty, the remote index answers what the snapshot holds. */
  lemma SnapshotAnswers(es: seq<Entry>, before: Store, m: map<string, Entry>, k: string, md5: string,
                        remotePath: string)
    requires Snapshot(es, before, remotePath) && before.Valid(remotePath) && IndexesRemote(m, Flatten(es))
    requires md5 != ""
    ensures k in m && m[k].Md5() == md5 <==> Below(k, remotePath) && Holds(before.files, k, md5)
  {
    if Below(k, remotePath) && k in before.files {
      assert File(k, before.files[k]) in Flatten(es);
    }
    if k in m {
      assert m[k] in Flatten(es);
    }
  }

  /** The loop body of the upload pass. */
  method UploadIfDifferent(filer: Filer, localFile: FileInfo, remoteFilesMap: map<string, Entry>,
                           ghost before: Store, ghost es: seq<Entry>, r: Roots) returns (ok: bool)
    requires r.local != "" && localFile.md5 != "" && filer.store.Valid(r.remote)
    requires Snapshot(es, before, r.remote) && before.Valid(r.remote) && IndexesRemote(remoteFilesMap, Flatten(es))
    modifies filer
    ensures filer.store.Valid(r.remote)
    ensures if IsDue(localFile, before, r)
            then |filer.requests| == |old(filer.requests)| + 1 && old(filer.requests) <= filer.requests
                 && (ok ==> filer.store == old(filer.store).Upload(r.Key(localFile.path), localFile.md5))
            else ok && filer.store == old(filer.store) && filer.requests == old(filer.requests)
    ensures old(filer.calls) <= filer.calls
    ensures !ok ==> filer.TooManyFaults(old(filer.calls)) || !old(filer.store).Accepts(r.Key(localFile.path))
  {
    if IsGitFile(localFile.path) { return true; }
    var fileRemotePath := RemoteKey(localFile.path, r.local, r.remote);
    SnapshotAnswers(es, before, remoteFilesMap, fileRemotePath, localFile.md5, r.remote);
    if fileRemotePath !in remoteFilesMap || remoteFilesMap[fileRemotePath].Md5() != localFile.md5 {
      ok := filer.Send(UploadTo(fileRemotePath, localFile.md5));
      if ok { UploadKeepsValid(old(filer.store), fileRemotePath, localFile.md5, r.remote); }
    } else {
      ok := true;
    }
  }

  /** The filer after the uploads due: one request each at least, and the store they lead to. */
  ghost predicate Uploaded(filer: Filer, start: Store, sent: seq<Request>, due: map<string, string>, remotePath: string)
    reads filer
  {
    && filer.store == UploadAll(start, due) && filer.store.Valid(remotePath)
    && sent <= filer.requests && (due == map[] <==> filer.requests == sent)
  }

  method UploadNext(filer: Filer, localFile: FileInfo, remoteFilesMap: map<string, Entry>, ghost before: Store,
                    ghost es: seq<Entry>, r: Roots, ghost start: Store, ghost sent: seq<Request>,
                    ghost due: map<string, string>) returns (ok: bool)
    requires r.local != "" && localFile.md5 != "" && Uploaded(filer, start, sent, due, r.remote)
    requires Snapshot(es, before, r.remote) && before.Valid(r.remote) && IndexesRemote(remoteFilesMap, Flatten(es))
    modifies filer
    ensures var now := if IsDue(localFile, before, r) then due[r.Key(localFile.path) := localFile.md5] else due;
            ok ==> Uploaded(filer, start, sent, now, r.remote)
    ensures !ok ==> IsDue(localFile, before, r) && filer.store.Valid(r.remote) && sent <= filer.requests
    ensures old(filer.calls) <= filer.calls
    ensures !ok ==> filer.TooManyFaults(old(filer.calls)) || !UploadAll(start, due).Accepts(r.Key(localFile.path))
  {
    UploadOneMore(start, due, r.Key(localFile.path), localFile.md5);
    ok := UploadIfDifferent(filer, localFile, remoteFilesMap, before, es, r);
  }

  /** A due upload that the filer refuses, after those before it. */
  ghost predicate Refused(start: Store, listed: seq<FileInfo>, before: Store, r: Roots)
    requires r.local != ""
  {
    exists i | 0 <= i < |listed| :: RefusedAt(start, listed, i, before, r)
  }

  ghost predicate RefusedAt(start: Store, listed: seq<FileInfo>, i: nat, before: Store, r: Roots)
    requires r.local != "" && i < |listed|
  {
    && IsDue(listed[i], before, r)
    && !UploadAll(start, Due(listed[..i], before, r)).Accepts(r.Key(listed[i].path))
  }

  ghost predicate HaveChecksums(listed: seq<FileInfo>) {
    forall f | f in listed :: f.md5 != ""
  }

  /** Second loop: local files outside .git directories go up unless the snapshot has them up to date. */
  method UploadEach(filer: Filer, localFiles: seq<FileInfo>, remoteFilesMap: map<string, Entry>, ghost before: Store,
                    ghost es: seq<Entry>, r: Roots) returns (ok: bool)
    requires r.local != "" && HaveChecksums(localFiles) && filer.store.Valid(r.remote)
    requires Snapshot(es, before, r.remote) && before.Valid(r.remote) && IndexesRemote(remoteFilesMap, Flatten(es))
    modifies filer
    ensures var due := Due(localFiles, before, r);
            ok ==> Uploaded(filer, old(filer.store), old(filer.requests), due, r.remote)
    ensures !ok ==> Due(localFiles, before, r) != map[]
    ensures filer.store.Valid(r.remote) && old(filer.requests) <= filer.requests
    ensures old(filer.calls) <= filer.calls
    ensures !ok ==> filer.TooManyFaults(old(filer.calls)) || Refused(old(filer.store), localFiles, before, r)
  {
    ghost var due: map<string, string> := map[];
    ghost var start, sent := filer.store, filer.requests;
    NothingDue(filer.store);
    for i := 0 to |localFiles|
      invariant due == Due(localFiles[..i], before, r)
      invariant Uploaded(filer, start, sent, due, r.remote) && old(filer.calls) <= filer.calls
    {
      DueOneMore(localFiles, i, before, r);
      assert localFiles[i] in localFiles;
      ghost var from := filer.calls;
      ok := UploadNext(filer, localFiles[i], remoteFilesMap, before, es, r, start, sent, due);
      if !ok {
        if filer.TooManyFaults(from) { MoreFaults(filer, old(filer.calls), from); }
        DueHasAll(localFiles, before, localFiles[i], r);
        assert filer.TooManyFaults(old(filer.calls)) || RefusedAt(start, localFiles, i, before, r);
        return;
      }
      due := Due(localFiles[..i + 1], before, r);
    }
    AllOf(localFiles);
    ok := true;
  }

  lemma AllOf(listed: seq<FileInfo>)
    ensures listed[..|listed|] == listed
  {
  }

  lemma NothingDue(store: Store)
    ensures UploadAll(store, map[]) == store
  {
  }

  method UploadDifferent(filer: Filer, localFiles: seq<FileInfo>, remoteFilesMap: map<string, Entry>,
                         ghost before: Store, ghost es: seq<Entry>, r: Roots) returns (ok: bool)
    requires r.local != "" && HaveChecksums(localFiles) && filer.store.Valid(r.remote)
    requires Snapshot(es, before, r.remote) && before.Valid(r.remote) && IndexesRemote(remoteFilesMap, Flatten(es))
    modifies filer
    ensures filer.store.Valid(r.remote)
    ensures ok ==> filer.store == UploadAll(old(filer.store), Due(localFiles, before, r))
    ensures Due(localFiles, before, r) == map[] ==> filer.requests == old(filer.requests)
    ensures ok && filer.requests == old(filer.requests) ==> Due(localFiles, before, r) == map[]
    ensures old(filer.requests) <= filer.requests
    ensures old(filer.calls) <= filer.calls
    ensures !ok ==> filer.TooManyFaults(old(filer.calls)) || Refused(old(filer.store), localFiles, before, r)
  {
    ok := UploadEach(filer, localFiles, remoteFilesMap, before, es, r);
  }

  lemma {:induction false} DueOneMore(listed: seq<FileInfo>, i: nat, before: Store, r: Roots)
    requires r.local != "" && i < |listed|
    ensures var was, f := Due(listed[..i], before, r), listed[i];
            Due(listed[..i + 1], before, r) == if IsDue(f, before, r) then was[r.Key(f.path) := f.md5] else was
  {
    assert listed[..i + 1][..i] == listed[..i];
  }

  /** The upload pass sends only due files, and every key of one. */
  lemma {:induction false} DueOrigin(listed: seq<FileInfo>, before: Store, k: string, r: Roots) returns (f: FileInfo)
    requires r.local != "" && k in Due(listed, before, r)
    ensures f in listed && IsDue(f, before, r) && k == r.Key(f.path) && Due(listed, before, r)[k] == f.md5
  {
    f := listed[|listed| - 1];
    if !(IsDue(f, before, r) && r.Key(f.path) == k) {
      f := DueOrigin(listed[..|listed| - 1], before, k, r);
    }
  }

  lemma {:induction false} DueHasAll(listed: seq<FileInfo>, before: Store, f: FileInfo, r: Roots)
    requires r.local != "" && f in listed && IsDue(f, before, r)
    ensures r.Key(f.path) in Due(listed, before, r)
  {
    if f != listed[|listed| - 1] {
      DueHasAll(listed[..|listed| - 1], before, f, r);
    }
  }

  /** The first loop over a snapshot. */
  method DeletePass(filer: Filer, remoteFiles: seq<Entry>, localFilesMap: map<string, FileInfo>, ghost es: seq<Entry>,
                    ghost remotePath: string) returns (ok: bool)
    requires remoteFiles == Flatten(es) && Snapshot(es, filer.store, remotePath) && filer.store.Valid(remotePath)
    modifies filer
    ensures ok ==> filer.store == AfterDeletes(old(filer.store), localFilesMap.Keys, remotePath)
    ensures ok ==> filer.store.Valid(remotePath)
    ensures AllIndexed(old(filer.store), localFilesMap.Keys, remotePath) <==> filer.requests == old(filer.requests)
    ensures old(filer.requests) <= filer.requests
    ensures old(filer.calls) <= filer.calls && (!ok ==> filer.TooManyFaults(old(filer.calls)))
  {
    DeletedIsAfterDeletes(es, filer.store, localFilesMap.Keys, remotePath);
    DeletesKeepValid(filer.store, localFilesMap.Keys, remotePath);
    ok := DeleteAbsent(filer, remoteFiles, localFilesMap);
  }

  /** Where the upload pass may send something. */
  ghost function Targets(listed: seq<FileInfo>, r: Roots): set<string>
    requires r.local != ""
  {
    set f | f in listed && !IsGitFile(f.path) :: r.Key(f.path)
  }

  /** No path is, or would become, a file for one side and a directory for the other. */
  ghost predicate NoClash(store: Store, targets: set<string>) {
    && targets !! store.dirs
    && (forall p | p in targets :: Ancestors(p) !! store.files.Keys && Ancestors(p) !! targets)
  }

  /** Without a clash the filer refuses no upload. */
  lemma NothingRefused(before: Store, indexed: set<string>, listed: seq<FileInfo>, r: Roots)
    requires r.local != ""
    ensures NoClash(before, Targets(listed, r)) ==> !Refused(AfterDeletes(before, indexed, r.remote), listed, before, r)
  {
    var start, targets := AfterDeletes(before, indexed, r.remote), Targets(listed, r);
    if NoClash(before, targets) {
      forall i | 0 <= i < |listed| ensures !RefusedAt(start, listed, i, before, r) {
        DueIsTargeted(listed, i, before, r);
        if IsDue(listed[i], before, r) {
          AcceptsWithoutClash(start, before, Due(listed[..i], before, r), targets, r.Key(listed[i].path));
        }
      }
    }
  }

  lemma DueIsTargeted(listed: seq<FileInfo>, i: nat, before: Store, r: Roots)
    requires r.local != "" && i < |listed|
    ensures Due(listed[..i], before, r).Keys <= Targets(listed, r)
    ensures IsDue(listed[i], before, r) ==> r.Key(listed[i].path) in Targets(listed, r)
  {
    forall k | k in Due(listed[..i], before, r) ensures k in Targets(listed, r) {
      var f := DueOrigin(listed[..i], before, k, r);
      assert f in listed;
    }
    assert listed[i] in listed;
  }

  lemma AcceptsWithoutClash(start: Store, before: Store, due: map<string, string>, targets: set<string>, p: string)
    requires start.files.Keys <= before.files.Keys && start.dirs <= before.dirs
    requires due.Keys <= targets && p in targets && NoClash(before, targets)
    ensures UploadAll(start, due).Accepts(p)
  {
  }

  /** What an error-free run makes of the store, whatever keys the index gives to the listed files. */
  ghost function AfterRun(store: Store, listed: seq<FileInfo>, r: Roots): Store
    requires r.local != ""
  {
    UploadAll(AfterDeletes(store, Known(listed, r), r.remote), Due(listed, store, r))
  }

  /** The run sends no request. */
  ghost predicate Idle(store: Store, listed: seq<FileInfo>, r: Roots)
    requires r.local != ""
  {
    AllIndexed(store, Known(listed, r), r.remote) && Due(listed, store, r) == map[]
  }

  // ---------- the index and the relative paths ----------

  /** The index keeps the relative path of the file. */
  ghost predicate KeyKept(f: FileInfo, r: Roots)
    requires r.local != ""
  {
    r.Key(f.path) == KeyFor(f.path, r)
  }

  lemma KeyIsNotLonger(f: FileInfo, r: Roots)
    requires r.local != "" && Under(f.path, r.local)
    ensures KeyKept(f, r) <==> !Occurs(Rel(f.path, r.local), r.local)
    ensures |r.Key(f.path)| <= |KeyFor(f.path, r)|
    ensures |r.Key(f.path)| == |KeyFor(f.path, r)| ==> KeyKept(f, r)
  {
    var rel := Rel(f.path, r.local);
    assert f.path == r.local + rel;
    KeyKeepsRelativePath(rel, r.local, r.remote);
    EraseLeading(r.local, rel);
    EraseAllIsIdentity(rel, r.local);
  }

  /** The local root recurs below itself in no path, and is a directory. */
  ghost predicate CleanRoot(local: map<string, string>, r: Roots) {
    RootDoesNotRecur(local.Keys, r.local) && r.local !in local
  }

  lemma CleanKeepsKeys(listed: seq<FileInfo>, local: map<string, string>, r: Roots)
    requires CleanRoot(local, r) && Lists(listed, local, r.local)
    ensures forall f | f in listed :: KeyKept(f, r)
  {
    forall f | f in listed ensures KeyKept(f, r) {
      KeyIsNotLonger(f, r);
    }
  }

  /** Then the index has the keys it should have. */
  lemma KnownIsIndexed(listed: seq<FileInfo>, local: map<string, string>, r: Roots)
    requires CleanRoot(local, r) && Lists(listed, local, r.local)
    ensures Known(listed, r) == Indexed(local, r)
  {
    CleanKeepsKeys(listed, local, r);
    forall k | k in Known(listed, r) ensures k in Indexed(local, r) {
      var f :| f in listed && (k == r.Key(f.path) || k == ParentDir(r.Key(f.path)));
      assert KeyKept(f, r);
      assert KeyFor(f.path, r) in Keys(local, r);
    }
    forall k | k in Indexed(local, r) ensures k in Known(listed, r) {
      var f :| f in local && Under(f, r.local) && (k == KeyFor(f, r) || k == ParentDir(KeyFor(f, r)));
      assert KeyKept(FileInfo(f, local[f]), r);
    }
  }

  lemma LocalFileOf(local: map<string, string>, k: string, r: Roots) returns (f: string)
    requires k in Wanted(local, r)
    ensures f in local && Under(f, r.local) && !IsGitFile(f) && k == KeyFor(f, r)
    ensures Wanted(local, r)[k] == local[f]
  {
    f :| f in local && Under(f, r.local) && k == KeyFor(f, r);
    WantedIs(local, f, r);
  }

  ghost predicate Within(a: map<string, string>, b: map<string, string>) {
    forall k | k in a :: Holds(b, k, a[k])
  }

  lemma WithinBothWays(a: map<string, string>, b: map<string, string>)
    requires Within(a, b) && b.Keys <= a.Keys
    ensures a == b
  {
  }

  lemma KeptIsBelow(f: FileInfo, r: Roots)
    requires Under(f.path, r.local) && f.path != r.local
    ensures Below(KeyFor(f.path, r), r.remote)
  {
    assert Rel(f.path, r.local)[0] == f.path[|r.local|] == (r.local + "/")[|r.local|];
  }

  /** Over a full listing whose files outside .git directories keep their relative paths, the second loop sends exactly
      the outdated files. */
  lemma DueIsOutdated(listed: seq<FileInfo>, before: Store, local: map<string, string>, r: Roots)
    requires r.local != "" && r.local !in local && Lists(listed, local, r.local)
    requires forall f | f in listed && !IsGitFile(f.path) :: KeyKept(f, r)
    ensures Due(listed, before, r) == Outdated(before, Wanted(local, r))
  {
    var due, outdated := Due(listed, before, r), Outdated(before, Wanted(local, r));
    forall k | k in due ensures Holds(outdated, k, due[k]) {
      var f := DueOrigin(listed, before, k, r);
      KeptIsBelow(f, r);
      WantedIs(local, f.path, r);
    }
    forall k | k in outdated ensures k in due {
      var f := LocalFileOf(local, k, r);
      assert KeyKept(FileInfo(f, local[f]), r);
      DueHasAll(listed, before, FileInfo(f, local[f]), r);
    }
    WithinBothWays(due, outdated);
  }

  lemma CleanRun(store: Store, listed: seq<FileInfo>, local: map<string, string>, r: Roots)
    requires CleanRoot(local, r) && Lists(listed, local, r.local)
    ensures AfterRun(store, listed, r) == After(store, local, r)
    ensures Idle(store, listed, r) <==> Quiet(store, local, r)
  {
    KnownIsIndexed(listed, local, r);
    CleanKeepsKeys(listed, local, r);
    DueIsOutdated(listed, store, local, r);
  }

  // ---------- when a run mirrors, whatever the root ----------

  /** One run mirrors the local directory exactly when, by the keys the index gives, the wanted files arrive and nothing
      else is sent or stays. */
  lemma RunMirrorsExactlyWhen(store: Store, listed: seq<FileInfo>, local: map<string, string>, r: Roots)
    requires r.local != ""
    ensures Mirrored(AfterRun(store, listed, r), local, r)
            <==> && WantedArrive(store, Known(listed, r), Due(listed, store, r), local, r)
                 && NothingElseSent(Due(listed, store, r), local, r)
                 && NothingElseStays(store, Known(listed, r), Due(listed, store, r), local, r)
  {
    ReachesMirrorExactlyWhen(store, Known(listed, r), Due(listed, store, r), local, r);
  }

  ghost predicate EmptyBelow(store: Store, root: string) {
    forall p | p in store.files :: !Below(p, root)
  }

  /** The root recurs in no relative path of a file outside .git directories. */
  ghost predicate NoneRecurs(listed: seq<FileInfo>, r: Roots) {
    forall f | f in listed && !IsGitFile(f.path) :: !Occurs(Rel(f.path, r.local), r.local)
  }

  /** Into an empty remote directory, a run puts a mirror exactly when the local root does not recur in a relative path:
      a file in whose path it does goes elsewhere, and its own place is taken by no other in the end. */
  lemma FirstUploadMirrorsExactlyWhen(store: Store, listed: seq<FileInfo>, local: map<string, string>, r: Roots)
    requires r.local != "" && r.local !in local && Lists(listed, local, r.local) && EmptyBelow(store, r.remote)
    ensures Mirrored(AfterRun(store, listed, r), local, r) <==> NoneRecurs(listed, r)
  {
    forall f | f in listed ensures KeyKept(f, r) <==> !Occurs(Rel(f.path, r.local), r.local) {
      KeyIsNotLonger(f, r);
    }
    RunMirrorsExactlyWhen(store, listed, local, r);
    if NoneRecurs(listed, r) {
      FirstUploadArrives(store, listed, local, r);
    } else if WantedArrive(store, Known(listed, r), Due(listed, store, r), local, r) {
      forall f | f in listed && !IsGitFile(f.path) ensures KeyKept(f, r) {
        ArrivalKeepsKey(store, listed, local, f, r);
      }
    }
  }

  lemma FirstUploadArrives(store: Store, listed: seq<FileInfo>, local: map<string, string>, r: Roots)
    requires r.local != "" && r.local !in local && Lists(listed, local, r.local) && EmptyBelow(store, r.remote)
    requires forall f | f in listed && !IsGitFile(f.path) :: KeyKept(f, r)
    ensures WantedArrive(store, Known(listed, r), Due(listed, store, r), local, r)
    ensures NothingElseSent(Due(listed, store, r), local, r)
  {
    var wanted := Wanted(local, r);
    DueIsOutdated(listed, store, local, r);
    forall p | p in wanted ensures p in Outdated(store, wanted) {
      var f := LocalFileOf(local, p, r);
      KeptIsBelow(FileInfo(f, local[f]), r);
    }
  }

  function Longest(listed: seq<FileInfo>): (n: nat)
    ensures forall f | f in listed :: |f.path| <= n
  {
    if listed == [] then 0
    else
      var n := Longest(listed[1..]);
      if |listed[0].path| > n then |listed[0].path| else n
  }

  /** If a file left its place, one with a longer path would have to come there, having left its own. */
  lemma {:induction false} ArrivalKeepsKey(store: Store, listed: seq<FileInfo>, local: map<string, string>, f: FileInfo,
                                           r: Roots)
    requires r.local != "" && r.local !in local && Lists(listed, local, r.local) && EmptyBelow(store, r.remote)
    requires WantedArrive(store, Known(listed, r), Due(listed, store, r), local, r)
    requires f in listed && !IsGitFile(f.path)
    ensures KeyKept(f, r)
    decreases Longest(listed) - |f.path|
  {
    var g := TakesPlace(store, listed, local, f, r);
    KeyIsNotLonger(g, r);
    if KeyKept(g, r) {
      SamePlace(listed, local, f, g, r);
    } else {
      ArrivalKeepsKey(store, listed, local, g, r);
    }
  }

  lemma TakesPlace(store: Store, listed: seq<FileInfo>, local: map<string, string>, f: FileInfo, r: Roots)
      returns (g: FileInfo)
    requires r.local != "" && r.local !in local && Lists(listed, local, r.local) && EmptyBelow(store, r.remote)
    requires WantedArrive(store, Known(listed, r), Due(listed, store, r), local, r)
    requires f in listed && !IsGitFile(f.path)
    ensures g in listed && !IsGitFile(g.path) && r.Key(g.path) == KeyFor(f.path, r)
  {
    WantedIs(local, f.path, r);
    KeptIsBelow(f, r);
    g := DueOrigin(listed, store, KeyFor(f.path, r), r);
  }

  lemma SamePlace(listed: seq<FileInfo>, local: map<string, string>, f: FileInfo, g: FileInfo, r: Roots)
    requires Lists(listed, local, r.local) && f in listed && g in listed && KeyFor(f.path, r) == KeyFor(g.path, r)
    ensures f == g
  {
    KeyRoundTrip(f.path, r);
    KeyRoundTrip(g.path, r);
  }

  // ---------- the whole run ----------

  /** syncLocalToRemote: an error-free run turns the store into AfterRun(store), and sends a request that changes the
      store exactly when there is something to do; a local root that does not recur gives After(store). Where no path is
      a file on one side and a directory on the other, an error is reported only if the listing or the disk failed, or
      more than retryNum attempts of the filer. A failed listing sends nothing. */
  method SyncLocalToRemote(disk: Disk, filer: Filer, listing: Listing, r: Roots)
      returns (ok: bool, ghost listed: seq<FileInfo>)
    requires r.local != "" && forall md5 | md5 in disk.files.Values :: md5 != ""
    requires filer.store.Valid(r.remote) && (listing.Failed? || Snapshot(listing.Entries(), filer.store, r.remote))
    modifies disk`calls, filer
    ensures ok ==> Lists(listed, disk.files, r.local) && filer.store == AfterRun(old(filer.store), listed, r)
    ensures ok ==> filer.store.Valid(r.remote)
    ensures ok ==> (filer.requests == old(filer.requests) <==> Idle(old(filer.store), listed, r))
    ensures ok && CleanRoot(disk.files, r) ==> filer.store == After(old(filer.store), disk.files, r)
    ensures ok && CleanRoot(disk.files, r) ==>
            (filer.requests == old(filer.requests) <==> Quiet(old(filer.store), disk.files, r))
    ensures CleanRoot(disk.files, r) && Quiet(old(filer.store), disk.files, r) ==> filer.requests == old(filer.requests)
    ensures listing.Failed? ==> !ok && filer.requests == old(filer.requests) && filer.store == old(filer.store)
    ensures !ok && NoClash(old(filer.store), Targets(listed, r)) ==>
            listing.Failed? || disk.Faulted(old(disk.calls)) || filer.TooManyFaults(old(filer.calls))
  {
    listed := [];
    // the local path may be missing
    var fault := disk.Fault();
    if fault { return false, []; }
    var localFiles;
    ok, localFiles := disk.ListFilesRecursive(r.local);
    if !ok { return; }
    listed := localFiles;
    var localFilesMap := IndexLocal(localFiles, r.local, r.remote);
    if listing.Failed? { return false, listed; }
    var remoteFiles := GetFlattenRemoteFiles(listing.Entries());
    var remoteFilesMap := IndexRemote(remoteFiles);

    if CleanRoot(disk.files, r) { CleanRun(filer.store, listed, disk.files, r); }
    ListedHaveChecksums(listed, disk.files, r.local);
    ok := BothPasses(filer, localFiles, localFilesMap, remoteFiles, remoteFilesMap, listing.Entries(), r);
  }

  lemma ListedHaveChecksums(listed: seq<FileInfo>, files: map<string, string>, root: string)
    requires Lists(listed, files, root) && forall md5 | md5 in files.Values :: md5 != ""
    ensures HaveChecksums(listed)
  {
    forall f | f in listed ensures f.md5 in files.Values {
      assert files[f.path] == f.md5;
    }
  }

  method BothPasses(filer: Filer, localFiles: seq<FileInfo>, localFilesMap: map<string, FileInfo>,
                    remoteFiles: seq<Entry>, remoteFilesMap: map<string, Entry>, ghost es: seq<Entry>, r: Roots)
      returns (ok: bool)
    requires r.local != "" && HaveChecksums(localFiles) && IndexesLocal(localFilesMap, localFiles, r.local, r.remote)
    requires filer.store.Valid(r.remote) && Snapshot(es, filer.store, r.remote)
    requires remoteFiles == Flatten(es) && IndexesRemote(remoteFilesMap, remoteFiles)
    modifies filer
    ensures ok ==> filer.store == AfterRun(old(filer.store), localFiles, r) && filer.store.Valid(r.remote)
    ensures ok ==> (filer.requests == old(filer.requests) <==> Idle(old(filer.store), localFiles, r))
    ensures Idle(old(filer.store), localFiles, r) ==> filer.requests == old(filer.requests)
    ensures old(filer.calls) <= filer.calls
    ensures !ok && NoClash(old(filer.store), Targets(localFiles, r)) ==> filer.TooManyFaults(old(filer.calls))
  {
    ghost var start, indexed := filer.store, localFilesMap.Keys;
    IndexKeys(localFilesMap, localFiles, r);
    ok := DeletePass(filer, remoteFiles, localFilesMap, es, r.remote);
    if !ok { return; }
    ghost var calls := filer.calls;
    ok := UploadDifferent(filer, localFiles, remoteFilesMap, start, es, r);
    if !ok && filer.TooManyFaults(calls) {
      MoreFaults(filer, old(filer.calls), calls);
    } else if !ok {
      assert Refused(AfterDeletes(start, indexed, r.remote), localFiles, start, r);
      NothingRefused(start, indexed, localFiles, r);
    }
  }

  // ---------- a root that recurs ----------

  /** The first upload of a lone file goes to its key. */
  lemma LoneUpload(f: FileInfo, r: Roots)
    requires r.local != "" && !IsGitFile(f.path)
    ensures AfterRun(Store(map[], {}), [f], r).files == map[r.Key(f.path) := f.md5]
  {
    var store := Store(map[], {});
    assert [f][..0] == [] && [f][0] == f;
    assert Due([], store, r) == map[];
    assert Due([f], store, r) == map[r.Key(f.path) := f.md5];
  }

  /** With the root /a, the file /a/a/c is uploaded to /r/c, and not to /r/a/c. */
  lemma RecurringUpload(r: Roots, f: FileInfo)
    requires r == Roots("/r", "/a") && f == FileInfo("/a/a/c", "1")
    ensures AfterRun(Store(map[], {}), [f], r).files == map["/r/c" := "1"]
    ensures !Mirrored(AfterRun(Store(map[], {}), [f], r), map[f.path := f.md5], r)
  {
    var local := map[f.path := f.md5];
    RecurringKey();
    NoDotNoGit(f.path);
    LoneUpload(f, r);
    WantedIs(local, f.path, r);
    assert KeyFor(f.path, r) == "/r" + "/a/c" && |KeyFor(f.path, r)| == 6;
  }

  lemma RecurringKey()
    ensures RemoteKey("/a/a/c", "/a", "/r") == "/r/c"
    ensures Under("/a/a/c", "/a") && Rel("/a/a/c", "/a") == "/a/c"
  {
    RecurringPaths();
    MissingChar("/c", "/a", 1);
    EraseTwice("/a", "/c");
  }

  lemma RecurringPaths()
    ensures "/a" + ("/a" + "/c") == "/a/a/c" && "/r" + "/c" == "/r/c"
    ensures Under("/a/a/c", "/a") && Rel("/a/a/c", "/a") == "/a/c"
  {
    assert "/a" + "/c" == "/a/c" && "/a" + "/a/c" == "/a/a/c";
  }

  // ---------- a mirror that a run destroys, and one that is not reached ----------

  /** The only remote file is up to date, but a directory above it is not indexed: nothing is left. */
  lemma LoneFileIsLost(store: Store, local: map<string, string>, p: string, d: string, r: Roots)
    requires store.files.Keys == {p} && Wanted(local, r) == store.files
    requires d in store.dirs && Below(d, r.remote) && d !in Indexed(local, r) && Below(p, d)
    ensures Mirrored(store, local, r) && After(store, local, r).files == map[]
  {
    assert Swept(p, store, Indexed(local, r), r.remote);
    WantedAfter(store, local, p, r);
    assert Outdated(store, Wanted(local, r)) == map[];
  }

  /** The loss happens: the only local file lies two directories deep and the remote side is up to date;
      one run deletes it there and uploads nothing. */
  lemma NestedFileIsLost()
    ensures var local: map<string, string> := map["/l/a/b/c" := "1"];
            var store := Store(map["/r/a/b/c" := "1"], {"/r/a", "/r/a/b"});
            var r := Roots("/r", "/l");
            store.Valid("/r") && Mirrored(store, local, r) && After(store, local, r).files == map[]
  {
    var local: map<string, string> := map["/l/a/b/c" := "1"];
    var store := Store(map["/r/a/b/c" := "1"], {"/r/a", "/r/a/b"});
    NestedView(local);
    NestedValid(store);
    NestedPaths();
    LoneFileIsLost(store, local, "/r/a/b/c", "/r/a", Roots("/r", "/l"));
  }

  /** A remote file with the path of a local .git directory: the index has that path, so the file stays, and as files in
      .git directories are not uploaded, nothing is refused. */
  lemma ShadowingFileStays(r: Roots)
    requires r == Roots("/r", "/l")
    ensures var local: map<string, string> := map["/l/.git/x" := "1"];
            var store := Store(map["/r/.git" := "2"], {});
            && store.Valid("/r") && !NoneShadowed(store, local, r)
            && After(store, local, r) == store && !Mirrored(store, local, r)
  {
    var local: map<string, string> := map["/l/.git/x" := "1"];
    var store := Store(map["/r/.git" := "2"], {});
    ShadowView(local, r);
    ShadowPaths();
    LoneFileStays(store, local, "/r/.git", r);
  }

  lemma LoneFileStays(store: Store, local: map<string, string>, p: string, r: Roots)
    requires store.files.Keys == {p} && store.dirs == {} && Below(p, r.remote) && !IsGitKey(p, r)
    requires Wanted(local, r) == map[] && p in Indexed(local, r) && p !in Keys(local, r)
    ensures !NoneShadowed(store, local, r) && After(store, local, r) == store && !Mirrored(store, local, r)
  {
    var after := After(store, local, r);
    assert Survives(p, store, Indexed(local, r), r.remote);
    assert after.files == store.files && after.dirs == store.dirs;
  }

  lemma ShadowView(local: map<string, string>, r: Roots)
    requires local == map["/l/.git/x" := "1"] && r == Roots("/r", "/l")
    ensures Wanted(local, r) == map[] && Keys(local, r) == {"/r/.git/x"} && "/r/.git" in Indexed(local, r)
  {
    var f, k := "/l/.git/x", "/r/.git/x";
    assert OccursAt(f, ".git/", 3);
    assert Under(f, "/l") && KeyFor(f, r) == k;
    WantedIs(local, f, r);
    assert Keys(local, r) == {k};
    assert LastSlash(k) == 7;
    assert ParentDir(k) == "/r/.git";
  }

  lemma ShadowPaths()
    ensures Below("/r/.git", "/r") && !IsGitKey("/r/.git", Roots("/r", "/l"))
    ensures Store(map["/r/.git" := "2"], {}).Valid("/r")
  {
    assert "/l" + Rel("/r/.git", "/r") == "/l/.git";
    forall j | 0 <= j <= 7 ensures !OccursAt("/l/.git", ".git/", j) {
      NotHere("/l/.git", ".git/", j, 4);
    }
    forall a | a in Ancestors("/r/.git") ensures !Below(a, "/r") {
      var i :| 0 < i < 7 && "/r/.git"[i] == '/' && a == "/r/.git"[..i];
      assert i == 2;
    }
  }

  lemma NestedPaths()
    ensures Below("/r/a/b/c", "/r/a") && Below("/r/a", "/r") && "/r/a" !in {"/r/a/b/c", "/r/a/b"}
  {
  }

  lemma NestedView(local: map<string, string>)
    requires local == map["/l/a/b/c" := "1"]
    ensures Indexed(local, Roots("/r", "/l")) == {"/r/a/b/c", "/r/a/b"}
    ensures Wanted(local, Roots("/r", "/l")) == map["/r/a/b/c" := "1"]
  {
    var f, k, r := "/l/a/b/c", "/r/a/b/c", Roots("/r", "/l");
    NoDotNoGit(f);
    assert Under(f, "/l") && KeyFor(f, r) == k;
    assert Keys(local, r) == {k};
    assert LastSlash(k) == 6;
    assert ParentDir(k) == "/r/a/b";
    WantedIs(local, f, r);
  }

  lemma NestedValid(store: Store)
    requires store == Store(map["/r/a/b/c" := "1"], {"/r/a", "/r/a/b"})
    ensures store.Valid("/r")
  {
    forall p, a | (p in store.files || p in store.dirs) && a in Ancestors(p) && Below(a, "/r")
      ensures a in store.dirs
    {
      assert a <= p <= "/r/a/b/c" && |a| >= 3;
      var i :| 0 < i < |p| && p[i] == '/' && a == p[..i];
      assert "/r/a/b/c"[i] == '/';
      assert i == 4 || i == 6;
      assert a == "/r/a/b/c"[..i];
      assert "/r/a/b/c"[..4] == "/r/a";
      assert "/r/a/b/c"[..6] == "/r/a/b";
    }
  }
}
