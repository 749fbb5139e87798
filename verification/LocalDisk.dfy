/** The local disk as the synchronisations see it (fs/seaweedfs_manager.go): checksums by path. */
module LocalDisk {
  import opened FileIndex

  ghost predicate Holds(files: map<string, string>, p: string, md5: string) {
    p in files && files[p] == md5
  }

  ghost predicate Same(before: map<string, string>, after: map<string, string>, p: string) {
    (p in before <==> p in after) && (p in before ==> after[p] == before[p])
  }

  ghost predicate UnchangedOutside(before: map<string, string>, after: map<string, string>, root: string) {
    forall p :: Under(p, root) || Same(before, after, p)
  }

  lemma OutsideTwice(a: map<string, string>, b: map<string, string>, c: map<string, string>, root: string)
    requires UnchangedOutside(a, b, root) && UnchangedOutside(b, c, root)
    ensures UnchangedOutside(a, c, root)
  {
  }

  /** What a failed download leaves in the place of the file: the old one, none, or a part of the new one. */
  ghost predicate PartlyWritten(before: map<string, string>, after: map<string, string>, p: string) {
    after == before || after == before - {p} || (p in after && after == before[p := after[p]])
  }

  lemma WrittenInside(before: map<string, string>, after: map<string, string>, p: string, root: string)
    requires Under(p, root) && PartlyWritten(before, after, p)
    ensures UnchangedOutside(before, after, root)
  {
  }

  /** A listing covers the root: every file at or below it once, with its checksum. */
  ghost predicate Lists(localFiles: seq<FileInfo>, files: map<string, string>, localPath: string) {
    && (forall f | f in localFiles :: Holds(files, f.path, f.md5) && Under(f.path, localPath))
    && (forall i, j | 0 <= i < j < |localFiles| :: localFiles[i].path != localFiles[j].path)
    && (forall p | p in files && Under(p, localPath) :: FileInfo(p, files[p]) in localFiles)
  }

  /** How many of the calls from one number up to another fail. */
  ghost function Faults(fails: nat -> bool, from: nat, to: nat): nat
    decreases to
  {
    if to <= from then 0 else Faults(fails, from, to - 1) + if fails(to - 1) then 1 else 0
  }

  lemma {:induction false} FaultsAdd(fails: nat -> bool, a: nat, b: nat, c: nat)
    requires a <= b <= c
    ensures Faults(fails, a, c) == Faults(fails, a, b) + Faults(fails, b, c)
  {
    if b < c {
      FaultsAdd(fails, a, b, c - 1);
    }
  }

  lemma {:induction false} FaultsExactlyWhen(fails: nat -> bool, from: nat, to: nat)
    ensures Faults(fails, from, to) > 0 <==> exists n: nat | from <= n < to :: fails(n)
  {
    if from < to {
      FaultsExactlyWhen(fails, from, to - 1);
      if fails(to - 1) {
        assert from <= to - 1 < to;
      }
    }
  }

  /** Any call may fail: the n-th one does exactly when fails(n). A write that fails leaves some beginning of the
      content, torn(n) being its checksum. */
  class Disk {
    var files: map<string, string>
    var calls: nat
    var writes: nat
    /** How often the synchronisation of each remote directory has been begun. */
    var begun: multiset<string>
    const fails: nat -> bool
    const torn: nat -> string

    constructor (files: map<string, string>, fails: nat -> bool, torn: nat -> string)
      ensures this.files == files && this.fails == fails && this.torn == torn && calls == 0 && writes == 0
      ensures begun == multiset{}
    {
      this.files, this.fails, this.torn := files, fails, torn;
      calls, writes, begun := 0, 0, multiset{};
    }

    /** Some call since the given one failed. */
    ghost predicate Faulted(since: nat)
      reads this
    {
      exists n: nat | since <= n < calls :: fails(n)
    }

    ghost function FaultsSince(since: nat): nat
      reads this
    {
      Faults(fails, since, calls)
    }

    method Begin(path: string)
      modifies this`begun
      ensures begun == old(begun) + multiset{path}
    {
      begun := begun + multiset{path};
    }

    method Fault() returns (b: bool)
      modifies this`calls
      ensures b == fails(old(calls)) && calls == old(calls) + 1
    {
      b := fails(calls);
      calls := calls + 1;
    }

    /** goseaweedfs.ListFilesRecursive: every file at or below the root, once, in some order. */
    method ListFilesRecursive(root: string) returns (ok: bool, fs: seq<FileInfo>)
      modifies this`calls
      ensures ok ==> Lists(fs, files, root)
      ensures old(calls) <= calls && (!ok ==> Faulted(old(calls)))
    {
      fs := [];
      var fault := Fault();
      if fault { return false, []; }
      var todo := set p | p in files && Under(p, root);
      ghost var all := todo;
      while todo != {}
        invariant todo <= all
        invariant forall f | f in fs :: f.path in all - todo && files[f.path] == f.md5
        invariant forall p | p in all - todo :: FileInfo(p, files[p]) in fs
        invariant forall i, j | 0 <= i < j < |fs| :: fs[i].path != fs[j].path
        decreases |todo|
      {
        var p :| p in todo;
        todo := todo - {p};
        fs := fs + [FileInfo(p, files[p])];
      }
      ok := true;
    }

    /** os.Remove */
    method Remove(p: string) returns (ok: bool)
      modifies this
      ensures ok ==> files == old(files) - {p}
      ensures !ok ==> files == old(files)
      ensures writes == old(writes) + 1 && begun == old(begun)
      ensures old(calls) <= calls && (p in old(files) && !ok ==> Faulted(old(calls)))
    {
      var fault := Fault();
      writes := writes + 1;
      ok := !fault && p in files;
      if ok {
        files := files - {p};
      }
    }

    /** downloadFile: the download, the removal of the old file or the writing of the new one may fail; then the old
        file is still there, or none, or what was written so far. */
    method Download(p: string, md5: string) returns (ok: bool)
      modifies this
      ensures ok ==> files == old(files)[p := md5]
      ensures PartlyWritten(old(files), files, p)
      ensures writes == old(writes) + 1 && begun == old(begun)
      ensures old(calls) <= calls && (!ok ==> Faulted(old(calls)))
    {
      var fault := Fault();
      writes := writes + 1;
      if fault { return false; }
      fault := Fault();
      if fault { return false; }
      files := files - {p};
      fault := Fault();
      if fault { return false; }
      fault := Fault();
      files := files[p := if fault then torn(calls) else md5];
      ok := !fault;
    }
  }
}
