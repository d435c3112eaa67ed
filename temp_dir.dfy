/** The TempDir handle (src/TempDir.php): a builder that collects a
    location, a name and two flags, then creates, fills, empties and deletes
    the directory they name on a FileSystem. */
module TempDirectory {
  import opened PhpString
  import opened Exceptions
  import opened FileSystem
  import opened TempDirPaths

  /** What create() reads from its surroundings: sys_get_temp_dir(),
      mt_rand() and microtime(). */
  datatype Environment = Environment(systemTempDir: string, rand: nat, microtime: string)

  class TempDir {
    var location: string
    var name: string
    var forceCreate: bool
    /** Never declared in the PHP class; reading it before it is set gives
        null, which counts as false. */
    var deleteWhenDestroyed: bool

    /** The location never ends with a separator, and the name holds no
        forbidden character and no surrounding whitespace. */
    ghost predicate Valid()
      reads this
    {
      && !EndsWith(location, Separator)
      && IsValidDirectoryName(name)
      && Trimmed(name, Whitespace)
    }

    /** getFullPath(). */
    function GetFullPath(): string
      reads this
    {
      FullPath(location, name)
    }

    /** exists(): file_exists on the full path. */
    function Exists(fs: FileSystem): bool
      reads this, fs
    {
      fs.FileExists(GetFullPath())
    }

    /** new TempDir($location). */
    constructor (location: string)
      ensures Valid()
      ensures this.location == SanitizePath(location) && name == ""
      ensures !forceCreate && !deleteWhenDestroyed
    {
      this.location := SanitizePath(location);
      name := "";
      forceCreate := false;
      deleteWhenDestroyed := false;
    }

    /** location($location). */
    method Location(location: string) returns (self: TempDir)
      requires Valid()
      modifies this
      ensures Valid() && self == this
      ensures this.location == SanitizePath(location)
      ensures name == old(name) && forceCreate == old(forceCreate)
      ensures deleteWhenDestroyed == old(deleteWhenDestroyed)
    {
      this.location := SanitizePath(location);
      self := this;
    }

    /** name($name): raises InvalidDirectoryName for a name with a forbidden
        character and changes nothing; otherwise stores the trimmed name. */
    method Name(name: string) returns (r: Result<TempDir>)
      requires Valid()
      modifies this
      ensures Valid()
      ensures r.Success? <==> IsValidDirectoryName(name)
      ensures r.Success? ==> r.value == this && this.name == Trim(name, Whitespace)
      ensures r.Failure? ==>
        r.error == InvalidDirectoryName(InvalidDirectoryNameMessage(name)) && this.name == old(this.name)
      ensures location == old(location) && forceCreate == old(forceCreate)
      ensures deleteWhenDestroyed == old(deleteWhenDestroyed)
    {
      var sanitized := SanitizeName(name);
      if sanitized.Failure? {
        return Failure(sanitized.error);
      }
      this.name := sanitized.value;
      r := Success(this);
    }

    /** force(). */
    method Force() returns (self: TempDir)
      requires Valid()
      modifies this
      ensures Valid() && self == this && forceCreate
      ensures location == old(location) && name == old(name)
      ensures deleteWhenDestroyed == old(deleteWhenDestroyed)
    {
      forceCreate := true;
      self := this;
    }

    /** deleteWhenDestroyed($deleteWhenDestroyed = true). */
    method DeleteWhenDestroyed(deleteWhenDestroyed: bool) returns (self: TempDir)
      requires Valid()
      modifies this
      ensures Valid() && self == this
      ensures this.deleteWhenDestroyed == deleteWhenDestroyed
      ensures location == old(location) && name == old(name) && forceCreate == old(forceCreate)
    {
      this.deleteWhenDestroyed := deleteWhenDestroyed;
      self := this;
    }

    /** create(): fills in a missing location and name, deletes what is at
        the target first when forced, raises PathAlreadyExists when the
        target is still there, and otherwise makes the directory. */
    method Create(fs: FileSystem, env: Environment) returns (r: Result<TempDir>)
      requires Valid() && fs.Valid() && IsMicrotime(env.microtime)
      modifies this, fs
      ensures Valid() && fs.Valid()
      ensures location == if PhpEmpty(old(location)) then SystemTemporaryDirectory(env.systemTempDir) else old(location)
      ensures name == if PhpEmpty(old(name)) then GeneratedName(env.rand, env.microtime) else old(name)
      ensures forceCreate == old(forceCreate) && deleteWhenDestroyed == old(deleteWhenDestroyed)
      ensures r.Success? ==> r.value == this
      ensures !PhpEmpty(name)
      ensures r.Failure? ==> r.error == PathAlreadyExists(GetFullPath()) && GetFullPath() in fs.nodes
      ensures r.Failure? ==> SubMap(fs.nodes, old(fs.nodes))
      ensures r.Failure? ==>
        forall k :: k in old(fs.nodes) && (!InTree(GetFullPath(), k) || k in fs.pinned) ==> k in fs.nodes
      ensures !forceCreate ==> (r.Failure? <==> GetFullPath() in old(fs.nodes))
      ensures !forceCreate && r.Failure? ==> fs.nodes == old(fs.nodes)
      ensures forceCreate ==> (r.Success? <==> Removable(old(fs.nodes), fs.pinned, GetFullPath()))
      ensures r.Success? ==>
        fs.nodes == MkdirResult(RemoveTree(old(fs.nodes), GetFullPath()), GetFullPath())
      ensures r.Success? && (forall a :: a in Ancestors(GetFullPath()) && a in old(fs.nodes) ==> old(fs.nodes)[a] == Dir) ==>
        Exists(fs) && fs.IsDir(GetFullPath()) && forall k :: k in fs.nodes ==> !Beneath(GetFullPath(), k)
    {
      if PhpEmpty(location) {
        location := SystemTemporaryDirectory(env.systemTempDir);
      }
      if PhpEmpty(name) {
        GeneratedNameIsValid(env.rand, env.microtime);
        name := GeneratedName(env.rand, env.microtime);
      }
      var fullPath := GetFullPath();
      if forceCreate && fs.FileExists(fullPath) {
        var _ := DeleteDirectory(fs, fullPath);
      }
      if Exists(fs) {
        return Failure(PathAlreadyExists(fullPath));
      }
      var _ := fs.Mkdir(fullPath);
      r := Success(this);
      if forall a :: a in Ancestors(fullPath) && a in old(fs.nodes) ==> old(fs.nodes)[a] == Dir {
        CreatedDirectoryIsEmpty(old(fs.nodes), fullPath);
      }
    }

    /** deleteDirectory($path): a link is unlinked without being followed, a
        missing path counts as deleted, a file is unlinked, and a directory
        has its children deleted (stopping at the first failure) and is then
        removed with rmdir. */
    method DeleteDirectory(fs: FileSystem, path: Path) returns (deleted: bool)
      requires fs.Valid()
      modifies fs
      decreases TreeEntries(fs.nodes, path)
      ensures fs.Valid()
      ensures deleted <==> Removable(old(fs.nodes), fs.pinned, path)
      ensures deleted ==> fs.nodes == RemoveTree(old(fs.nodes), path) && path !in fs.nodes
      ensures !deleted ==> path in fs.nodes
      ensures SubMap(fs.nodes, old(fs.nodes))
      ensures forall k :: k in old(fs.nodes) && (!InTree(path, k) || k in fs.pinned) ==> k in fs.nodes
    {
      if fs.IsLink(path) || (fs.FileExists(path) && !fs.IsDir(path)) {
        NothingBeneathNonDirectory(fs.nodes, path);
        RemoveLeaf(fs.nodes, fs.pinned, path);
        deleted := fs.Unlink(path);
        return;
      }
      if !fs.FileExists(path) {
        return true;
      }
      while fs.Children(path) != {}
        invariant fs.Valid()
        invariant path in fs.nodes && fs.nodes[path] == Dir
        invariant SubMap(fs.nodes, old(fs.nodes))
        invariant forall k :: k in old(fs.nodes) && (!InTree(path, k) || k in fs.pinned) ==> k in fs.nodes
        decreases TreeEntries(fs.nodes, path)
      {
        var child :| child in fs.Children(path);
        SubtreeOfChildIsSmaller(old(fs.nodes), fs.nodes, path, child);
        ghost var prev := fs.nodes;
        var childDeleted := DeleteDirectory(fs, child);
        ChildDeletionStep(old(fs.nodes), prev, fs.nodes, fs.pinned, path, child);
        if !childDeleted {
          return false;
        }
      }
      NothingBeneathChildless(fs.nodes, path);
      EmptiedDirectoryRemoval(old(fs.nodes), fs.nodes, fs.pinned, path);
      deleted := fs.Rmdir(path);
    }

    /** path($pathOrFilename): joins the argument onto the full path and
        makes sure the directory part of the result exists. */
    method Path(fs: FileSystem, pathOrFilename: string) returns (path: string)
      requires Valid() && fs.Valid()
      modifies fs
      ensures fs.Valid()
      ensures path == JoinPath(GetFullPath(), pathOrFilename)
      ensures PhpEmpty(pathOrFilename) ==> fs.nodes == old(fs.nodes)
      ensures !PhpEmpty(pathOrFilename) ==>
        fs.nodes == MkdirResult(old(fs.nodes), RemoveFilenameFromPath(path))
    {
      if PhpEmpty(pathOrFilename) {
        return GetFullPath();
      }
      path := GetFullPath() + [Separator] + Trim(pathOrFilename, {Separator});
      var directoryPath := RemoveFilenameFromPath(path);
      if !fs.FileExists(directoryPath) {
        var _ := fs.Mkdir(directoryPath);
      }
    }

    /** empty(): deletes the full path, then makes it again. */
    method Empty(fs: FileSystem) returns (self: TempDir)
      requires Valid() && fs.Valid()
      modifies fs
      ensures fs.Valid() && self == this
      ensures Removable(old(fs.nodes), fs.pinned, GetFullPath()) ==>
        fs.nodes == MkdirResult(RemoveTree(old(fs.nodes), GetFullPath()), GetFullPath())
      ensures !Removable(old(fs.nodes), fs.pinned, GetFullPath()) ==>
        GetFullPath() in fs.nodes && SubMap(fs.nodes, old(fs.nodes))
      ensures forall k :: k in old(fs.nodes) && (!InTree(GetFullPath(), k) || k in fs.pinned) ==> k in fs.nodes
    {
      var _ := DeleteDirectory(fs, GetFullPath());
      var _ := fs.Mkdir(GetFullPath());
      self := this;
    }

    /** delete(): deleteDirectory on the full path. */
    method Delete(fs: FileSystem) returns (deleted: bool)
      requires fs.Valid()
      modifies fs
      ensures fs.Valid()
      ensures deleted <==> Removable(old(fs.nodes), fs.pinned, GetFullPath())
      ensures deleted ==> fs.nodes == RemoveTree(old(fs.nodes), GetFullPath())
      ensures !deleted ==> GetFullPath() in fs.nodes
      ensures SubMap(fs.nodes, old(fs.nodes))
      ensures forall k :: k in old(fs.nodes) && (!InTree(GetFullPath(), k) || k in fs.pinned) ==> k in fs.nodes
    {
      deleted := DeleteDirectory(fs, GetFullPath());
    }

    /** __destruct(), made an explicit call: deletes the directory when the
        handle was asked to, and ignores the outcome. */
    method Dispose(fs: FileSystem)
      requires fs.Valid()
      modifies fs
      ensures fs.Valid()
      ensures !deleteWhenDestroyed ==> fs.nodes == old(fs.nodes)
      ensures deleteWhenDestroyed && Removable(old(fs.nodes), fs.pinned, GetFullPath()) ==>
        fs.nodes == RemoveTree(old(fs.nodes), GetFullPath())
      ensures SubMap(fs.nodes, old(fs.nodes))
      ensures forall k :: k in old(fs.nodes) && (!InTree(GetFullPath(), k) || k in fs.pinned) ==> k in fs.nodes
    {
      if deleteWhenDestroyed {
        var _ := Delete(fs);
      }
    }

    /** TempDir::make($location): a new handle on the location, created at
        once under a generated name. */
    static method Make(location: string, fs: FileSystem, env: Environment) returns (r: Result<TempDir>)
      requires fs.Valid() && IsMicrotime(env.microtime)
      modifies fs
      ensures fs.Valid()
      ensures var loc := if PhpEmpty(SanitizePath(location)) then SystemTemporaryDirectory(env.systemTempDir)
                         else SanitizePath(location);
        var fullPath := FullPath(loc, GeneratedName(env.rand, env.microtime));
        && (r.Failure? <==> fullPath in old(fs.nodes))
        && (r.Failure? ==> r.error == PathAlreadyExists(fullPath) && fs.nodes == old(fs.nodes))
        && (r.Success? ==>
              && fresh(r.value) && r.value.Valid()
              && r.value.location == loc && r.value.name == GeneratedName(env.rand, env.microtime)
              && !r.value.forceCreate && !r.value.deleteWhenDestroyed
              && fs.nodes == MkdirResult(old(fs.nodes), fullPath))
    {
      var handle := new TempDir(location);
      r := handle.Create(fs, env);
    }
  }

  /** What a successful create() or empty() leaves at the full path: a
      directory with nothing in it, whatever was there before; entries
      outside the full path keep their kinds, and every entry made is a
      directory. */
  lemma CreatedDirectoryIsEmpty(nodes: map<Path, Kind>, fullPath: Path)
    requires WellFormed(nodes) && fullPath != ""
    requires fullPath in nodes || forall a :: a in Ancestors(fullPath) && a in nodes ==> nodes[a] == Dir
    ensures var after := MkdirResult(RemoveTree(nodes, fullPath), fullPath);
      && WellFormed(after)
      && fullPath in after && after[fullPath] == Dir
      && (forall k :: k in after ==> !Beneath(fullPath, k))
      && (forall k :: k in nodes && !InTree(fullPath, k) ==> k in after && after[k] == nodes[k])
      && (forall k :: k in after && k !in nodes ==> after[k] == Dir)
  {
    if fullPath in nodes {
      AncestorsOfEntryAreDirectories(nodes, fullPath);
    }
    var removed := RemoveTree(nodes, fullPath);
    RemoveTreeProperties(nodes, fullPath);
    forall a | a in Ancestors(fullPath)
      ensures !InTree(fullPath, a)
    {
      AncestorIsBeneath(a, fullPath);
    }
    assert MkdirOk(removed, fullPath);
    MkdirAllProperties(removed, fullPath);
    var after := MkdirAll(removed, fullPath);
    forall k | k in after
      ensures !Beneath(fullPath, k)
    {
      if k !in removed && k != fullPath {
        assert Beneath(k, fullPath);
      }
    }
  }

  /** path("dirs/file.ext") makes sure of the directory fullPath/dirs, makes
      nothing but directories on the way to it, and does not make the file
      itself. */
  lemma PathOfFileMakesItsDirectory(nodes: map<Path, Kind>, fullPath: string, pathOrFilename: string,
                                    dirs: string, file: string)
    requires WellFormed(nodes)
    requires !PhpEmpty(pathOrFilename)
    requires Trim(pathOrFilename, {Separator}) == dirs + [Separator] + file
    requires Separator !in file && '.' in file
    requires var d := fullPath + [Separator] + dirs;
      forall a :: a in Ancestors(d) + {d} && a in nodes ==> nodes[a] == Dir
    ensures var d := fullPath + [Separator] + dirs;
      var path := JoinPath(fullPath, pathOrFilename);
      var after := MkdirResult(nodes, RemoveFilenameFromPath(path));
      && WellFormed(after)
      && d in after && after[d] == Dir
      && (forall k :: k in after && k !in nodes ==> after[k] == Dir && InTree(k, d))
      && (path in after ==> path in nodes)
  {
    var d := fullPath + [Separator] + dirs;
    var path := JoinPath(fullPath, pathOrFilename);
    DirectoryOfFilePath(fullPath, pathOrFilename, dirs, file);
    EntryBeneathJoin(d, file);
    MkdirBelowEntry(nodes, d, path);
  }

  /** mkdir -p of d, where d and its existing ancestors are directories,
      leaves d a directory and makes only d and its ancestors, so never an
      entry beneath d. */
  lemma MkdirBelowEntry(nodes: map<Path, Kind>, d: Path, path: Path)
    requires WellFormed(nodes) && Beneath(d, path)
    requires forall a :: a in Ancestors(d) + {d} && a in nodes ==> nodes[a] == Dir
    ensures var after := MkdirResult(nodes, d);
      && WellFormed(after)
      && d in after && after[d] == Dir
      && (forall k :: k in after && k !in nodes ==> after[k] == Dir && InTree(k, d))
      && (path in after ==> path in nodes)
  {
    if d !in nodes {
      MkdirAllProperties(nodes, d);
    }
  }
}
