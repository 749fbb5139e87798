/** Path bookkeeping shared by both sync directions (fs/utils.go). */
module FileIndex {
  import opened Text
  import opened RemoteTree

  /** goseaweedfs.FileInfo, as far as the sync passes read it. */
  datatype FileInfo = FileInfo(path: string, md5: string)

  /** What the filer answers to a recursive listing; NotFound is its 404 error. */
  datatype Listing = Listed(entries: seq<Entry>) | NotFound | Failed
  {
    /** The entries the sync passes go on with: a missing directory counts as empty. */
    function Entries(): seq<Entry> {
      if Listed? then entries else []
    }
  }

  /** The path contains ".git/". */
  predicate IsGitFile(path: string) {
    Occurs(path, ".git/")
  }

  /** A match of the regular expression /?\.git/ from i to j: a slash that may be missing, then ".git/". */
  predicate GitMatch(path: string, i: nat, j: nat) {
    i <= j <= |path| && (path[i..j] == "/.git/" || path[i..j] == ".git/")
  }

  /** The regular expression is not anchored, so it matches some part of a path exactly when ".git/" occurs in it,
      whatever the directory is called: that of a/b.git/c counts as well. */
  lemma GitPatternMatchesWhen(path: string)
    ensures (exists i: nat, j: nat :: GitMatch(path, i, j)) <==> IsGitFile(path)
  {
    if i: nat, j: nat :| GitMatch(path, i, j) {
      var at := if path[i..j] == ".git/" then i else i + 1;
      assert "/.git/"[1..] == ".git/" && path[i..j][at - i..] == path[at..j];
      assert OccursAt(path, ".git/", at);
    }
    if IsGitFile(path) {
      var i :| 0 <= i <= |path| && OccursAt(path, ".git/", i);
      assert GitMatch(path, i, i + 5);
    }
  }

  lemma NoDotNoGit(path: string)
    requires '.' !in path
    ensures !IsGitFile(path)
  {
    if IsGitFile(path) {
      OccursFirstChar(path, ".git/");
    }
  }

  /** filepath.Dir of a clean path. */
  function ParentDir(p: string): string {
    var i := LastSlash(p);
    if i == -1 then "." else if i == 0 then "/" else p[..i]
  }

  function LastSlash(p: string): (i: int)
    ensures -1 <= i < |p|
    ensures i >= 0 ==> p[i] == '/'
    ensures forall j :: i < j < |p| ==> p[j] != '/'
  {
    if p == "" then -1
    else if p[|p| - 1] == '/' then |p| - 1
    else LastSlash(p[..|p| - 1])
  }

  /** The parent of a member of a directory is the directory. */
  lemma {:induction false} ParentOfMember(dir: string, name: string)
    requires '/' !in name
    ensures ParentDir(dir + "/" + name) == if dir == "" then "/" else dir
    ensures ParentDir(name) == "."
  {
    var p := dir + "/" + name;
    assert p[|dir|] == '/' && p[..|dir|] == dir;
    assert forall j | |dir| < j < |p| :: p[j] == name[j - |dir| - 1];
    assert LastSlash(p) == |dir|;
  }

  /** The remote path the index gives to a local file. */
  function RemoteKey(path: string, localPath: string, remotePath: string): string
    requires localPath != ""
  {
    remotePath + ReplaceAll(path, localPath, "")
  }

  /** path is the local root itself or lies below it: what a recursive listing of the root visits. */
  predicate Under(path: string, root: string) {
    path == root || root + "/" <= path
  }

  /** The part of a path after its root; a path that does not start with the root keeps itself. */
  function Rel(path: string, root: string): string {
    if root <= path then path[|root|..] else path
  }

  /** The two roots of a synchronisation. */
  datatype Roots = Roots(remote: string, local: string)
  {
    /** The local root is a clean path. */
    predicate Valid() {
      local != "" && local[|local| - 1] != '/'
    }

    /** Where an entry belongs on the local disk. */
    function Place(e: Entry): string {
      local + Rel(e.path, remote)
    }

    /** The roots of the nested synchronisation of a directory. */
    function Sub(d: Entry): Roots {
      Roots(d.path, Place(d))
    }

    /** The key of a local path. */
    function Key(p: string): string
      requires local != ""
    {
      RemoteKey(p, local, remote)
    }
  }

  lemma RelTwice(p: string, root: string, rel: string)
    requires root + rel <= p
    ensures root <= p && Rel(p, root) == rel + Rel(p, root + rel)
  {
  }

  /** The index keeps the relative path exactly when the local root does not occur in it again. */
  lemma KeyKeepsRelativePath(rel: string, localPath: string, remotePath: string)
    requires localPath != ""
    ensures RemoteKey(localPath + rel, localPath, remotePath) == remotePath + rel
            <==> !Occurs(rel, localPath)
  {
    EraseLeading(localPath, rel);
    EraseAllIsIdentity(rel, localPath);
    var erased := ReplaceAll(rel, localPath, "");
    assert (remotePath + erased)[|remotePath|..] == erased;
    assert (remotePath + rel)[|remotePath|..] == rel;
  }

  /** The local root is a clean path and does not recur in the relative paths of these files. */
  ghost predicate RootDoesNotRecur(paths: set<string>, root: string) {
    && root != "" && root[|root| - 1] != '/'
    && (forall p | p in paths && Under(p, root) :: !Occurs(Rel(p, root), root))
  }

  lemma KeyOf(p: string, paths: set<string>, localPath: string, remotePath: string)
    requires RootDoesNotRecur(paths, localPath) && p in paths && Under(p, localPath)
    ensures RemoteKey(p, localPath, remotePath) == remotePath + Rel(p, localPath)
  {
    KeyKeepsRelativePath(Rel(p, localPath), localPath, remotePath);
    assert localPath + Rel(p, localPath) == p;
  }

  /** f is the last of the files with key k. */
  ghost predicate IsLastWith(files: seq<FileInfo>, f: FileInfo, k: string, localPath: string, remotePath: string)
    requires localPath != ""
  {
    exists i | 0 <= i < |files| :: files[i] == f && IsLastAt(files, i, k, localPath, remotePath)
  }

  ghost predicate IsLastAt(files: seq<FileInfo>, i: nat, k: string, localPath: string, remotePath: string)
    requires localPath != "" && i < |files|
  {
    && RemoteKey(files[i].path, localPath, remotePath) == k
    && forall j | i < j < |files| :: RemoteKey(files[j].path, localPath, remotePath) != k
  }

  /** What an index of local files means: under the key of a file the last file with that key, and under each other
      key the directory that directly holds some file, with no checksum. */
  ghost predicate IndexesLocal(m: map<string, FileInfo>, files: seq<FileInfo>, localPath: string, remotePath: string)
    requires localPath != ""
  {
    && (forall f | f in files :: RemoteKey(f.path, localPath, remotePath) in m
                              && ParentDir(RemoteKey(f.path, localPath, remotePath)) in m)
    && (forall k | k in m :: IsLastWith(files, m[k], k, localPath, remotePath)
                             || IsHolder(files, m[k], k, localPath, remotePath))
  }

  ghost predicate IsHolder(files: seq<FileInfo>, d: FileInfo, k: string, localPath: string, remotePath: string)
    requires localPath != ""
  {
    && d.md5 == ""
    && (forall f | f in files :: RemoteKey(f.path, localPath, remotePath) != k)
    && exists f | f in files :: ParentDir(RemoteKey(f.path, localPath, remotePath)) == k
  }

  lemma LastOfMore(files: seq<FileInfo>, f: FileInfo, g: FileInfo, k: string, localPath: string, remotePath: string)
    requires localPath != ""
    ensures IsLastWith(files, f, k, localPath, remotePath) && RemoteKey(g.path, localPath, remotePath) != k ==>
            IsLastWith(files + [g], f, k, localPath, remotePath)
    ensures RemoteKey(g.path, localPath, remotePath) == k ==> IsLastWith(files + [g], g, k, localPath, remotePath)
  {
    var more := files + [g];
    if IsLastWith(files, f, k, localPath, remotePath) && RemoteKey(g.path, localPath, remotePath) != k {
      var i :| 0 <= i < |files| && files[i] == f && IsLastAt(files, i, k, localPath, remotePath);
      assert more[i] == f && IsLastAt(more, i, k, localPath, remotePath);
    }
    assert more[|files|] == g;
    assert RemoteKey(g.path, localPath, remotePath) == k ==> IsLastAt(more, |files|, k, localPath, remotePath);
  }

  ghost predicate IndexesRemote(m: map<string, Entry>, flat: seq<Entry>) {
    && (forall e | e in flat :: e.path in m)
    && (forall k | k in m :: m[k] in flat && m[k].path == k)
  }

  /** getFilesAndFilesMaps, first half: the loop that indexes the local files. */
  method IndexLocal(files: seq<FileInfo>, localPath: string, remotePath: string)
      returns (m: map<string, FileInfo>)
    requires localPath != ""
    ensures IndexesLocal(m, files, localPath, remotePath)
  {
    m := map[];
    for i := 0 to |files|
      invariant IndexesLocal(m, files[..i], localPath, remotePath)
    {
      m := IndexOne(m, files[i], files[..i], localPath, remotePath);
      assert files[..i + 1] == files[..i] + [files[i]];
    }
    assert files[..|files|] == files;
  }

  /** The body of the loop. */
  method IndexOne(was: map<string, FileInfo>, file: FileInfo, ghost files: seq<FileInfo>, localPath: string,
                  remotePath: string)
      returns (m: map<string, FileInfo>)
    requires localPath != "" && IndexesLocal(was, files, localPath, remotePath)
    ensures IndexesLocal(m, files + [file], localPath, remotePath)
  {
    var fileRemotePath := RemoteKey(file.path, localPath, remotePath);
    m := was[fileRemotePath := file];
    var dirRemotePath := ParentDir(fileRemotePath);
    if dirRemotePath !in m {
      m := m[dirRemotePath := FileInfo(dirRemotePath, "")];
    }
    IndexGrows(was, m, files, file, localPath, remotePath);
  }

  lemma IndexGrows(was: map<string, FileInfo>, m: map<string, FileInfo>, files: seq<FileInfo>, file: FileInfo,
                   localPath: string, remotePath: string)
    requires localPath != "" && IndexesLocal(was, files, localPath, remotePath)
    requires var k := RemoteKey(file.path, localPath, remotePath);
             var w := was[k := file];
             m == if ParentDir(k) in w then w else w[ParentDir(k) := FileInfo(ParentDir(k), "")]
    ensures IndexesLocal(m, files + [file], localPath, remotePath)
  {
    var key := RemoteKey(file.path, localPath, remotePath);
    forall k | k in m
      ensures IsLastWith(files + [file], m[k], k, localPath, remotePath)
              || IsHolder(files + [file], m[k], k, localPath, remotePath)
    {
      LastOfMore(files, m[k], file, k, localPath, remotePath);
      if k != key {
        assert file in files + [file];
        if k in was {
          assert m[k] == was[k];
        } else {
          assert IsHolder(files + [file], m[k], k, localPath, remotePath);
        }
      }
    }
  }

  /** getFilesAndFilesMaps, second half: the loop that indexes the flattened remote entries. */
  method IndexRemote(flat: seq<Entry>) returns (m: map<string, Entry>)
    ensures IndexesRemote(m, flat)
  {
    m := map[];
    for i := 0 to |flat|
      invariant IndexesRemote(m, flat[..i])
    {
      assert flat[..i + 1] == flat[..i] + [flat[i]];
      m := m[flat[i].path := flat[i]];
    }
    assert flat[..|flat|] == flat;
  }
}
