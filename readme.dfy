/**
 * The seen-marker logic of the extension's main script: on first sight of a
 * workspace README it writes a marker file, named by a hash of the README's
 * path, into the support directory, sets the `seen` configuration flag and
 * emits one "open-readme" event; a reset removes the marker and clears the
 * flag.
 */
module Readme {
  import opened Results
  import opened Fs
  import Extension

  const ReadmeFile := "README.md"

  /** The fixed, never parsed content of a marker file. */
  const MarkerText := "Created by Nova README extension."

  /** The README the extension looks for, `<workspace>/README.md`. */
  function ReadmePath(workspace: Path): Path
  {
    Join(workspace, ReadmeFile)
  }

  /** `getHashedReference(readme)` once the support directory `store` is known. */
  function MarkerPath(store: Path, hash: string -> string, readme: Path): Path
  {
    Join(store, hash(readme))
  }

  /**
   * Two READMEs share a marker exactly when their hashes collide: the marker
   * path depends on the README path only through its hash, and on all of it.
   */
  lemma MarkerPathsCoincide(store: Path, hash: string -> string, readme1: Path, readme2: Path)
    ensures MarkerPath(store, hash, readme1) == MarkerPath(store, hash, readme2) <==> hash(readme1) == hash(readme2)
  {
    var m1, m2 := MarkerPath(store, hash, readme1), MarkerPath(store, hash, readme2);
    if m1 == m2 {
      assert hash(readme1) == m1[|store| + 1..];
      assert hash(readme2) == m2[|store| + 1..];
    }
  }

  /** The configuration key of the `seen` flag, `CONFIGKEYS.seen`. */
  function SeenKey(identifier: string): string
  {
    Extension.PrefixConfig(identifier) + ".seen"
  }

  /** The name of the reset command. */
  function ResetCommand(identifier: string): string
  {
    Extension.PrefixCommand(identifier) + ".reset"
  }

  /** Three dot-free pieces joined by dots split back into those pieces. */
  lemma SplitThreePieces(a: string, b: string, c: string)
    requires '.' !in a && '.' !in b && '.' !in c
    ensures Extension.Split(a + ['.'] + b + ['.'] + c, '.') == [a, b, c]
  {
    Extension.SplitWithoutSeparator(c, '.');
    Extension.SplitAfterPiece(b, '.', c);
    assert a + ['.'] + b + ['.'] + c == a + ['.'] + (b + ['.'] + c);
    Extension.SplitAfterPiece(a, '.', b + ['.'] + c);
  }

  /** The flag key lives in the configuration namespace under the prefix. */
  lemma SeenKeyIsNamespaced(identifier: string)
    ensures Extension.Split(SeenKey(identifier), '.') == [Extension.Prefix(identifier), "conf", "seen"]
  {
    var p := Extension.Prefix(identifier);
    Extension.PrefixIsLastSegment(identifier);
    assert SeenKey(identifier) == p + ['.'] + "conf" + ['.'] + "seen";
    SplitThreePieces(p, "conf", "seen");
  }

  /** The reset command lives in the command namespace under the prefix. */
  lemma ResetCommandIsNamespaced(identifier: string)
    ensures Extension.Split(ResetCommand(identifier), '.') == [Extension.Prefix(identifier), "cmd", "reset"]
  {
    var p := Extension.Prefix(identifier);
    Extension.PrefixIsLastSegment(identifier);
    assert ResetCommand(identifier) == p + ['.'] + "cmd" + ['.'] + "reset";
    SplitThreePieces(p, "cmd", "reset");
  }

  /**
   * What the seen-marker logic works against and does not change: the
   * workspace path, the workspace storage path, `stringToHash`, and the paths
   * on which the filesystem refuses to write.
   */
  datatype Context = Context(workspace: Path, storage: Path, hash: string -> string, denied: set<Path>)

  /** The state the seen-marker logic changes: the filesystem, the `seen` flag, the "open-readme" events emitted. */
  datatype State = State(nodes: Nodes, seen: bool, openReadme: nat)

  /** The marker of the workspace README. */
  function Marker(ctx: Context): Path
  {
    MarkerPath(ctx.storage, ctx.hash, ReadmePath(ctx.workspace))
  }

  /**
   * `initReferenceFile()`: when the README exists, resolve the support
   * directory; when that succeeds and there is no marker yet, write the
   * marker, set `seen` and emit "open-readme". Every failure stops the chain
   * and leaves the rest of the state as it was.
   */
  function InitOutcome(ctx: Context, s: State): (r: State)
    // at most one event, and one event means the marker was written
    ensures r.openReadme == s.openReadme || r.openReadme == s.openReadme + 1
    ensures r.openReadme == s.openReadme + 1 ==>
      ReadmePath(ctx.workspace) in s.nodes && Marker(ctx) !in s.nodes &&
      r.seen && Marker(ctx) in r.nodes && r.nodes[Marker(ctx)] == File(MarkerText, true)
    // no event, no flag write, and the marker is where it was
    ensures r.openReadme == s.openReadme ==>
      r.seen == s.seen && (Marker(ctx) in r.nodes <==> Marker(ctx) in s.nodes)
    // nothing is deleted, and only the support directory and the marker may change
    ensures forall p :: p in s.nodes ==> p in r.nodes
    ensures AgreeOutside(s.nodes, r.nodes, {ctx.storage, Marker(ctx)})
  {
    var readme := ReadmePath(ctx.workspace);
    if readme !in s.nodes then s
    else
      var store := Extension.SupportDirOutcome(s.nodes, ctx.denied, ctx.storage);
      var marker := MarkerPath(ctx.storage, ctx.hash, readme);
      if store.0.Err? || marker in store.1 || marker in ctx.denied then s.(nodes := store.1)
      else State(store.1[marker := File(MarkerText, true)], true, s.openReadme + 1)
  }

  /**
   * `removeReferenceFile()`: resolve the support directory; when that
   * succeeds and the marker exists, remove it and clear `seen`. A missing
   * marker leaves the flag alone: the promise chain has no other branch.
   */
  function RemoveOutcome(ctx: Context, s: State): (r: State)
    ensures r.openReadme == s.openReadme
    ensures Marker(ctx) !in s.nodes ==> r.seen == s.seen && Marker(ctx) !in r.nodes
    ensures Marker(ctx) in s.nodes ==>
      (Marker(ctx) !in r.nodes && !r.seen) ||
      (Marker(ctx) in r.nodes && r.nodes[Marker(ctx)] == s.nodes[Marker(ctx)] && r.seen == s.seen)
    ensures AgreeOutside(s.nodes, r.nodes, {ctx.storage, Marker(ctx)})
  {
    var store := Extension.SupportDirOutcome(s.nodes, ctx.denied, ctx.storage);
    var marker := Marker(ctx);
    if store.0.Err? || marker !in store.1 || marker in ctx.denied then s.(nodes := store.1)
    else State(store.1 - {marker}, false, s.openReadme)
  }

  /** The support directory is usable: already a writable directory, or creatable. */
  predicate StoreUsable(ctx: Context, nodes: Nodes)
  {
    Extension.SupportDirOutcome(nodes, ctx.denied, ctx.storage).0.Ok?
  }

  /** Without a README nothing happens: no marker, no flag write, no event. */
  lemma InitWithoutReadme(ctx: Context, s: State)
    requires ReadmePath(ctx.workspace) !in s.nodes
    ensures InitOutcome(ctx, s) == s
  {
  }

  /** An existing marker means the README was seen: no write, no flag change, no event. */
  lemma InitWithMarker(ctx: Context, s: State)
    requires Marker(ctx) in s.nodes
    ensures var r := InitOutcome(ctx, s);
      r.seen == s.seen && r.openReadme == s.openReadme && r.nodes[Marker(ctx)] == s.nodes[Marker(ctx)]
  {
  }

  /**
   * First sight: with a README, a usable support directory and no marker, the
   * marker is written with its fixed text, `seen` is set and exactly one
   * event is emitted; unless the marker cannot be opened for writing, in
   * which case neither the flag nor the events change.
   */
  lemma InitFirstSight(ctx: Context, s: State)
    requires ReadmePath(ctx.workspace) in s.nodes && Marker(ctx) !in s.nodes
    requires StoreUsable(ctx, s.nodes)
    ensures var r := InitOutcome(ctx, s);
      if Marker(ctx) in ctx.denied then
        r.seen == s.seen && r.openReadme == s.openReadme && Marker(ctx) !in r.nodes
      else
        r.seen && r.openReadme == s.openReadme + 1 && r.nodes[Marker(ctx)] == File(MarkerText, true)
  {
  }

  /** A support directory that cannot be used stops the chain before any write, flag change or event. */
  lemma InitWithUnusableStore(ctx: Context, s: State)
    requires !StoreUsable(ctx, s.nodes)
    ensures InitOutcome(ctx, s) == s
  {
  }

  /** `initReferenceFile()` is idempotent. */
  lemma InitIdempotent(ctx: Context, s: State)
    ensures InitOutcome(ctx, InitOutcome(ctx, s)) == InitOutcome(ctx, s)
  {
  }

  /** Calling `initReferenceFile()` twice emits at most one "open-readme". */
  lemma InitTwiceEmitsAtMostOnce(ctx: Context, s: State)
    ensures InitOutcome(ctx, InitOutcome(ctx, s)).openReadme <= s.openReadme + 1
  {
  }

  /** When the marker exists and can be removed, reset removes it and clears `seen`, emitting nothing. */
  lemma RemoveWithMarker(ctx: Context, s: State)
    requires Marker(ctx) in s.nodes && Marker(ctx) !in ctx.denied
    requires StoreUsable(ctx, s.nodes)
    ensures var r := RemoveOutcome(ctx, s);
      Marker(ctx) !in r.nodes && !r.seen && r.openReadme == s.openReadme
  {
  }

  /** Without a marker reset changes neither the flag nor any path but the support directory. */
  lemma RemoveWithoutMarker(ctx: Context, s: State)
    requires Marker(ctx) !in s.nodes
    ensures var r := RemoveOutcome(ctx, s);
      r.seen == s.seen && r.openReadme == s.openReadme && AgreeOutside(s.nodes, r.nodes, {ctx.storage})
  {
  }

  /** `removeReferenceFile()` is idempotent. */
  lemma RemoveIdempotent(ctx: Context, s: State)
    ensures RemoveOutcome(ctx, RemoveOutcome(ctx, s)) == RemoveOutcome(ctx, s)
  {
  }

  /**
   * Reset, then check again: with a README and a usable support directory a
   * removable marker is removed and written anew, and one more event fires.
   */
  lemma ResetThenInitShowsAgain(ctx: Context, s: State)
    requires ReadmePath(ctx.workspace) in s.nodes && ReadmePath(ctx.workspace) != Marker(ctx)
    requires Marker(ctx) in s.nodes && Marker(ctx) !in ctx.denied
    requires StoreUsable(ctx, s.nodes)
    ensures var r := InitOutcome(ctx, RemoveOutcome(ctx, s));
      r.seen && r.openReadme == s.openReadme + 1 && r.nodes[Marker(ctx)] == File(MarkerText, true)
  {
  }

  /** The flag mirrors the marker: `seen` exactly when the README's marker exists. */
  ghost predicate Consistent(ctx: Context, s: State)
  {
    s.seen <==> Marker(ctx) in s.nodes
  }

  /**
   * Neither operation, run on its own, breaks the mirroring. Writes from
   * outside break it, and so does `activate`, which sets `seen` to true
   * before the first check whatever the check then finds.
   */
  lemma OperationsKeepConsistent(ctx: Context, s: State)
    requires Consistent(ctx, s)
    ensures Consistent(ctx, InitOutcome(ctx, s))
    ensures Consistent(ctx, RemoveOutcome(ctx, s))
  {
  }

  /** The extension's state in the main script, over a shared filesystem. */
  class ReadmeTracker {
    const fs: FileSystem
    const workspace: Path
    /** `nova.extension.workspaceStoragePath`. */
    const storage: Path
    /** `CMDS.stringToHash`, an arbitrary function of the path. */
    const hash: string -> string
    /** The workspace configuration value under `SeenKey`. */
    var seen: bool
    /** How many "open-readme" events have been emitted. */
    var openReadmeEvents: nat

    constructor (fs: FileSystem, workspace: Path, storage: Path, hash: string -> string, seen: bool)
      ensures this.fs == fs && this.workspace == workspace && this.storage == storage && this.hash == hash
      ensures this.seen == seen && openReadmeEvents == 0
    {
      this.fs := fs;
      this.workspace := workspace;
      this.storage := storage;
      this.hash := hash;
      this.seen := seen;
      openReadmeEvents := 0;
    }

    function Ctx(): Context
    {
      Context(workspace, storage, hash, fs.denied)
    }

    function Current(): State
      reads this, fs
    {
      State(fs.nodes, seen, openReadmeEvents)
    }

    /** `hasReadme()`: resolves with `<workspace>/README.md` when it is accessible. */
    method HasReadme() returns (r: Result<Path>)
      ensures r.Ok? <==> ReadmePath(workspace) in fs.nodes
      ensures r.Ok? ==> r.value == ReadmePath(workspace)
      ensures r.Err? ==> r.error == NoReadme(ReadmePath(workspace))
    {
      var fullPath := Join(workspace, "README.md");
      if fs.Exists(fullPath) {
        r := Ok(fullPath);
      } else {
        r := Err(NoReadme(fullPath));
      }
    }

    /**
     * `getHashedReference(readme)`: the support directory joined with the
     * hash of the path. Resolving the support directory may create it, or fail.
     */
    method HashedReference(readme: Path) returns (r: Result<Path>)
      modifies fs
      ensures fs.nodes == Extension.SupportDirOutcome(old(fs.nodes), fs.denied, storage).1
      ensures r.Ok? <==> Extension.SupportDirOutcome(old(fs.nodes), fs.denied, storage).0.Ok?
      ensures r.Ok? ==> r.value == MarkerPath(storage, hash, readme)
    {
      var store := Extension.SupportDir(fs, storage);
      if store.Err? {
        return Err(store.error);
      }
      r := Ok(Join(store.value, hash(readme)));
    }

    /** `writeReference(marker)`: open the marker for writing and write the fixed text, or reject. */
    method WriteReference(marker: Path) returns (r: Outcome)
      modifies fs
      ensures r.Pass? <==> marker !in fs.denied && !old(fs.IsDirectory(marker))
      ensures fs.nodes == if r.Pass? then old(fs.nodes)[marker := File(MarkerText, true)] else old(fs.nodes)
    {
      var handle := fs.Open(marker);
      if !handle {
        return Fail(OpenFailed(marker));
      }
      fs.Write(marker, MarkerText);
      assert "" + MarkerText == MarkerText;
      return Pass;
    }

    /** `initReferenceFile()`. */
    method InitReferenceFile()
      modifies this, fs
      ensures Current() == InitOutcome(Ctx(), old(Current()))
    {
      var readme := HasReadme();
      if readme.Err? {
        return;
      }
      var marker := HashedReference(readme.value);
      if marker.Err? {
        return;
      }
      if fs.Exists(marker.value) {
        return;
      }
      var written := WriteReference(marker.value);
      if written.Fail? {
        return;
      }
      seen := true;
      openReadmeEvents := openReadmeEvents + 1;
    }

    /** `removeReferenceFile()`. */
    method RemoveReferenceFile()
      modifies this, fs
      ensures Current() == RemoveOutcome(Ctx(), old(Current()))
    {
      var fullPath := Join(workspace, "README.md");
      var marker := HashedReference(fullPath);
      if marker.Err? {
        return;
      }
      if !fs.Exists(marker.value) {
        return;
      }
      var removed := fs.Remove(marker.value);
      // a throwing remove rejects the inner promise, which nothing observes
      if !removed {
        return;
      }
      seen := false;
    }

    /** `updateSeen(enabled)`, the listener on the `seen` flag. */
    method UpdateSeen(enabled: bool)
      modifies this, fs
      ensures Current() == if enabled then InitOutcome(Ctx(), old(Current())) else RemoveOutcome(Ctx(), old(Current()))
    {
      if enabled {
        InitReferenceFile();
      } else {
        RemoveReferenceFile();
      }
    }
  }
}
