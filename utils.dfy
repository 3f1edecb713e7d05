/**
 * Helpers shared by the extension: configuration lookup with a workspace
 * override, guards on the workspace folder, and order-preserving
 * de-duplication.
 */
module Utils {
  import opened Results
  import opened Fs
  import Extension

  /** `store.get(key)` on a configuration store; an absent key reads as null. */
  function Lookup<V>(store: map<string, V>, key: string): Option<V>
  {
    if key in store then Some(store[key]) else None
  }

  /**
   * `getLocalConfig(key)`: the workspace value when it is set, otherwise the
   * global one. Equivalently, a lookup in the global store overridden by the
   * workspace store.
   */
  function GetLocalConfig<V>(workspace: map<string, V>, global: map<string, V>, key: string): (r: Option<V>)
    ensures r == Lookup(global + workspace, key)
    ensures r.None? <==> key !in workspace && key !in global
    ensures key in workspace ==> r == Some(workspace[key])
  {
    if Lookup(workspace, key) != None then Lookup(workspace, key) else Lookup(global, key)
  }

  /** `isWorkspace()`: false exactly when the workspace path is null or undefined. */
  function IsWorkspace(workspacePath: Option<Path>): (r: bool)
    ensures r <==> workspacePath != None
  {
    match workspacePath
    case None => false
    case Some(_) => true
  }

  /** The localisation key of the "not a workspace" message. */
  function NotWorkspaceMessageKey(identifier: string): string
  {
    Extension.PrefixMessage(identifier) + ".not-workspace-error"
  }

  /**
   * `ensureWorkspace()`: rejects, with the localised "not a workspace" message,
   * exactly when there is no workspace path.
   */
  function EnsureWorkspace(workspacePath: Option<Path>, identifier: string): (r: Outcome)
    ensures r.Fail? <==> !IsWorkspace(workspacePath)
    ensures r.Fail? ==> r.error == NotWorkspace(NotWorkspaceMessageKey(identifier))
  {
    if !IsWorkspace(workspacePath) then Fail(NotWorkspace(NotWorkspaceMessageKey(identifier))) else Pass
  }

  /**
   * `ensureFolder()`: the workspace path must be present and non-empty, and
   * name a writable directory. The source's separate `stat` check cannot fail
   * here, since a writable path exists.
   */
  method EnsureFolder(fs: FileSystem, workspacePath: Option<Path>) returns (r: Outcome)
    ensures r.Pass? <==>
      workspacePath.Some? && workspacePath.value != "" &&
      fs.CanWrite(workspacePath.value) && fs.IsDirectory(workspacePath.value)
    ensures r.Pass? ==> IsWorkspace(workspacePath)
    ensures r == Fail(MissingWorkspacePath) <==> workspacePath.None? || workspacePath.value == ""
    ensures r.Fail? && r.error.NotADirectory? ==> fs.CanWrite(workspacePath.value)
  {
    if workspacePath.None? || workspacePath.value == "" {
      return Fail(MissingWorkspacePath);
    }
    var openPath := workspacePath.value;
    if !fs.CanWrite(openPath) {
      return Fail(NotWritable(openPath));
    }
    if !fs.IsDirectory(openPath) {
      return Fail(NotADirectory(openPath));
    }
    return Pass;
  }

  /** The workspace's `.nova` metadata folder. */
  function NovaFolder(workspacePath: Path): Path
  {
    Join(workspacePath, ".nova")
  }

  /** `isProject()`: the `.nova` folder is writable and a directory. Changes nothing. */
  method IsProject(fs: FileSystem, workspacePath: Path) returns (r: Outcome)
    ensures r.Pass? <==> fs.CanWrite(NovaFolder(workspacePath)) && fs.IsDirectory(NovaFolder(workspacePath))
    ensures r.Fail? && !fs.Exists(NovaFolder(workspacePath)) ==> r.error == NotWritable(NovaFolder(workspacePath))
  {
    var novaFolder := NovaFolder(workspacePath);
    if !fs.CanWrite(novaFolder) {
      return Fail(NotWritable(novaFolder));
    }
    if !fs.IsDirectory(novaFolder) {
      return Fail(NotADirectory(novaFolder));
    }
    return Pass;
  }

  /**
   * `ensureNovaFolderExists()`: creates `.nova` when it is absent, then
   * succeeds exactly when it is a writable directory.
   */
  method EnsureNovaFolderExists(fs: FileSystem, workspacePath: Path) returns (r: Result<Path>)
    modifies fs
    ensures fs.nodes ==
      if NovaFolder(workspacePath) !in old(fs.nodes) && NovaFolder(workspacePath) !in fs.denied
      then old(fs.nodes)[NovaFolder(workspacePath) := Directory(true)]
      else old(fs.nodes)
    ensures r.Ok? <==> fs.IsDirectory(NovaFolder(workspacePath)) && fs.CanWrite(NovaFolder(workspacePath))
    ensures r.Ok? ==> r.value == NovaFolder(workspacePath)
  {
    var novaFolder := NovaFolder(workspacePath);
    if !fs.Exists(novaFolder) {
      var made := fs.Mkdir(novaFolder);
      if !made {
        return Err(MkdirFailed(novaFolder));
      }
    }
    if fs.IsDirectory(novaFolder) && fs.CanWrite(novaFolder) {
      r := Ok(novaFolder);
    } else if !fs.IsDirectory(novaFolder) {
      r := Err(NotADirectory(novaFolder));
    } else {
      r := Err(NotWritable(novaFolder));
    }
  }

  /**
   * `itemArr.indexOf(v)`: the first index holding `v`, or -1. Equality is
   * Dafny's, which matches `===` except that JavaScript's NaN is not equal
   * to itself.
   */
  function IndexOf<T(==)>(s: seq<T>, v: T): (i: int)
    ensures -1 <= i < |s|
    ensures i >= 0 ==> s[i] == v && v !in s[..i]
    ensures i == -1 <==> v !in s
  {
    if s == [] then -1
    else if s[0] == v then 0
    else
      var j := IndexOf(s[1..], v);
      assert j >= 0 ==> s[..j + 1] == [s[0]] + s[1..][..j];
      if j < 0 then -1 else j + 1
  }

  /** The `filter` pass of `filterDuplicates` over the indices from `i` on. */
  function FilterFrom<T(==)>(s: seq<T>, i: nat): seq<T>
    requires i <= |s|
    decreases |s| - i
  {
    if i == |s| then []
    else (if IndexOf(s, s[i]) == i then [s[i]] else []) + FilterFrom(s, i + 1)
  }

  /** `filterDuplicates(itemArr)`: keep each element whose first occurrence is where it stands. */
  function FilterDuplicates<T(==)>(s: seq<T>): seq<T>
  {
    FilterFrom(s, 0)
  }

  ghost predicate NoDuplicates<T>(s: seq<T>)
  {
    forall a, b :: 0 <= a < b < |s| ==> s[a] != s[b]
  }

  /** The filter pass from `i` keeps exactly the values whose first occurrence is at `i` or later. */
  lemma {:induction false} FilterFromMembers<T>(s: seq<T>, i: nat)
    requires i <= |s|
    ensures forall x :: x in FilterFrom(s, i) <==> x in s && IndexOf(s, x) >= i
    decreases |s| - i
  {
    if i < |s| {
      FilterFromMembers(s, i + 1);
      forall x | x in s && IndexOf(s, x) == i ensures x == s[i] { }
    }
  }

  /** The filter pass from `i` lists what it keeps in the order of first occurrence. */
  lemma {:induction false} FilterFromOrdered<T>(s: seq<T>, i: nat)
    requires i <= |s|
    ensures forall a, b :: 0 <= a < b < |FilterFrom(s, i)| ==>
      IndexOf(s, FilterFrom(s, i)[a]) < IndexOf(s, FilterFrom(s, i)[b])
    decreases |s| - i
  {
    if i < |s| {
      FilterFromOrdered(s, i + 1);
      FilterFromMembers(s, i + 1);
      var rest := FilterFrom(s, i + 1);
      if IndexOf(s, s[i]) == i {
        var r := FilterFrom(s, i);
        assert r == [s[i]] + rest;
        forall a, b | 0 <= a < b < |r| ensures IndexOf(s, r[a]) < IndexOf(s, r[b]) {
          assert r[b] == rest[b - 1] && r[b] in rest;
          assert IndexOf(s, r[b]) >= i + 1;
          if a > 0 { assert r[a] == rest[a - 1]; } else { assert r[a] == s[i]; }
        }
      }
    }
  }

  /**
   * The result of `filterDuplicates` has no element twice, has the same
   * elements as the input, and lists them in the order of their first
   * occurrence: a subsequence keeping first occurrences.
   */
  lemma FilterDuplicatesSpec<T>(s: seq<T>)
    ensures NoDuplicates(FilterDuplicates(s))
    ensures forall x :: x in FilterDuplicates(s) <==> x in s
    ensures forall a, b :: 0 <= a < b < |FilterDuplicates(s)| ==>
      IndexOf(s, FilterDuplicates(s)[a]) < IndexOf(s, FilterDuplicates(s)[b])
    ensures |FilterDuplicates(s)| <= |s|
  {
    var r := FilterDuplicates(s);
    FilterFromMembers(s, 0);
    FilterFromOrdered(s, 0);
    LengthBound(s, 0);
  }

  lemma {:induction false} LengthBound<T>(s: seq<T>, i: nat)
    requires i <= |s|
    ensures |FilterFrom(s, i)| <= |s| - i
    decreases |s| - i
  {
    if i < |s| {
      LengthBound(s, i + 1);
    }
  }

  /** A sequence without duplicates is left as it is. */
  lemma {:induction false} FilterDuplicatesOfDistinct<T>(s: seq<T>)
    requires NoDuplicates(s)
    ensures FilterDuplicates(s) == s
  {
    DistinctSuffix(s, 0);
  }

  lemma {:induction false} DistinctSuffix<T>(s: seq<T>, i: nat)
    requires i <= |s|
    requires forall k :: 0 <= k < |s| ==> IndexOf(s, s[k]) == k
    ensures FilterFrom(s, i) == s[i..]
    decreases |s| - i
  {
    if i < |s| {
      DistinctSuffix(s, i + 1);
      assert s[i..] == [s[i]] + s[i + 1..];
    }
  }

  /** `filterDuplicates` is idempotent. */
  lemma FilterDuplicatesIdempotent<T>(s: seq<T>)
    ensures FilterDuplicates(FilterDuplicates(s)) == FilterDuplicates(s)
  {
    FilterDuplicatesSpec(s);
    FilterDuplicatesOfDistinct(FilterDuplicates(s));
  }
}
