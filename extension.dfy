/**
 * Extension metadata: the identifier-derived prefixes of configuration keys,
 * commands and messages, and the per-workspace support directory.
 */
module Extension {
  import opened Results
  import opened Fs

  /**
   * `s.split(sep)` for a one-character separator: the pieces between
   * separators, empty pieces included, so that there is always at least one.
   */
  function Split(s: string, sep: char): (parts: seq<string>)
    ensures |parts| >= 1
    ensures forall i :: 0 <= i < |parts| ==> sep !in parts[i]
  {
    if s == [] then [[]]
    else
      var rest := Split(s[1..], sep);
      if s[0] == sep then [[]] + rest
      else [[s[0]] + rest[0]] + rest[1..]
  }

  /** `parts.join(sep)`, the inverse of Split. */
  function JoinWith(parts: seq<string>, sep: char): string
    requires |parts| >= 1
  {
    if |parts| == 1 then parts[0] else parts[0] + [sep] + JoinWith(parts[1..], sep)
  }

  /** Splitting loses nothing: joining the pieces gives the string back. */
  lemma {:induction false} JoinSplit(s: string, sep: char)
    ensures JoinWith(Split(s, sep), sep) == s
  {
    if s != [] {
      JoinSplit(s[1..], sep);
      var rest := Split(s[1..], sep);
      if s[0] == sep {
        assert ([[]] + rest)[1..] == rest;
      } else if |rest| > 1 {
        assert ([[s[0]] + rest[0]] + rest[1..])[1..] == rest[1..];
      }
      assert s == [s[0]] + s[1..];
    }
  }

  /** A string without a separator is a single piece. */
  lemma {:induction false} SplitWithoutSeparator(s: string, sep: char)
    requires sep !in s
    ensures Split(s, sep) == [s]
  {
    if s != [] {
      SplitWithoutSeparator(s[1..], sep);
      assert [s[0]] + s[1..] == s;
    }
  }

  /** A separator-free head followed by a separator splits off as the first piece. */
  lemma {:induction false} SplitAfterPiece(p: string, sep: char, t: string)
    requires sep !in p
    ensures Split(p + [sep] + t, sep) == [p] + Split(t, sep)
  {
    if p == [] {
      assert ([sep] + t)[1..] == t;
    } else {
      SplitAfterPiece(p[1..], sep, t);
      assert (p + [sep] + t)[1..] == p[1..] + [sep] + t;
      assert [p[0]] + p[1..] == p;
    }
  }

  /** Joining separator-free pieces and splitting again gives the pieces back. */
  lemma {:induction false} SplitJoin(parts: seq<string>, sep: char)
    requires |parts| >= 1
    requires forall i :: 0 <= i < |parts| ==> sep !in parts[i]
    ensures Split(JoinWith(parts, sep), sep) == parts
  {
    if |parts| == 1 {
      SplitWithoutSeparator(parts[0], sep);
    } else {
      SplitJoin(parts[1..], sep);
      SplitAfterPiece(parts[0], sep, JoinWith(parts[1..], sep));
      assert [parts[0]] + parts[1..] == parts;
    }
  }

  /** The joined string ends with a separator followed by the last piece. */
  lemma {:induction false} JoinWithLast(parts: seq<string>, sep: char)
    requires |parts| >= 2
    ensures JoinWith(parts, sep) == JoinWith(parts[..|parts| - 1], sep) + [sep] + parts[|parts| - 1]
  {
    var n := |parts|;
    if n > 2 {
      JoinWithLast(parts[1..], sep);
      assert parts[1..][..n - 2] == parts[..n - 1][1..];
    }
  }

  /** `prefix()`: the last `.`-separated segment of the extension identifier. */
  function Prefix(identifier: string): string
  {
    var segments := Split(identifier, '.');
    segments[|segments| - 1]
  }

  /**
   * The prefix is the longest dot-free suffix of the identifier: it has no
   * dot, it ends the identifier, and the character before it (if any) is a dot.
   */
  lemma PrefixIsLastSegment(identifier: string)
    ensures '.' !in Prefix(identifier)
    ensures |Prefix(identifier)| <= |identifier|
    ensures identifier[|identifier| - |Prefix(identifier)|..] == Prefix(identifier)
    ensures |Prefix(identifier)| < |identifier| ==> identifier[|identifier| - |Prefix(identifier)| - 1] == '.'
  {
    var parts := Split(identifier, '.');
    JoinSplit(identifier, '.');
    if |parts| >= 2 {
      JoinWithLast(parts, '.');
    }
  }

  /** An identifier with no dot is its own prefix. */
  lemma PrefixOfPlainIdentifier(identifier: string)
    requires '.' !in identifier
    ensures Prefix(identifier) == identifier
  {
    SplitWithoutSeparator(identifier, '.');
  }

  /** `prefixConfig()`: the prefix of configuration keys. */
  function PrefixConfig(identifier: string): string
  {
    Prefix(identifier) + ".conf"
  }

  /** `prefixCommand()`: the prefix of command names. */
  function PrefixCommand(identifier: string): string
  {
    Prefix(identifier) + ".cmd"
  }

  /** `prefixMessage()`: the prefix of localised message keys. */
  function PrefixMessage(identifier: string): string
  {
    Prefix(identifier) + ".msg"
  }

  /**
   * Each namespace is the prefix followed by its own tag as a second segment,
   * so the three namespaces never coincide.
   */
  lemma PrefixNamespaces(identifier: string)
    ensures Split(PrefixConfig(identifier), '.') == [Prefix(identifier), "conf"]
    ensures Split(PrefixCommand(identifier), '.') == [Prefix(identifier), "cmd"]
    ensures Split(PrefixMessage(identifier), '.') == [Prefix(identifier), "msg"]
    ensures PrefixConfig(identifier) != PrefixCommand(identifier)
    ensures PrefixConfig(identifier) != PrefixMessage(identifier)
    ensures PrefixCommand(identifier) != PrefixMessage(identifier)
  {
    var p := Prefix(identifier);
    PrefixIsLastSegment(identifier);
    assert PrefixConfig(identifier) == p + ['.'] + "conf";
    assert PrefixCommand(identifier) == p + ['.'] + "cmd";
    assert PrefixMessage(identifier) == p + ['.'] + "msg";
    SplitAfterPiece(p, '.', "conf");
    SplitAfterPiece(p, '.', "cmd");
    SplitAfterPiece(p, '.', "msg");
    SplitWithoutSeparator("conf", '.');
    SplitWithoutSeparator("cmd", '.');
    SplitWithoutSeparator("msg", '.');
  }

  /**
   * What `supportDir()` returns and what the filesystem is afterwards, given
   * the workspace storage path `store`.
   */
  function SupportDirOutcome(nodes: Nodes, denied: set<Path>, store: Path): (out: (Result<Path>, Nodes))
    // the documented guarantee: on success the path is a writable directory
    // (after a mkdir, because the filesystem model's mkdir makes writable directories)
    ensures out.0.Ok? ==> out.0.value == store && store in out.1 && out.1[store] == Directory(true)
    // a failure creates nothing
    ensures out.0.Err? ==> out.1 == nodes
    // the store is the only path that may change, and only by being created
    ensures out.1 == nodes || (store !in nodes && out.1 == nodes[store := Directory(true)])
    // it succeeds exactly when the store can be created or already is a writable directory
    ensures out.0.Ok? <==> (store !in nodes && store !in denied) || (store in nodes && nodes[store] == Directory(true))
  {
    if store !in nodes then
      if store in denied then (Err(MkdirFailed(store)), nodes)
      else (Ok(store), nodes[store := Directory(true)])
    else if !nodes[store].Directory? then (Err(NotADirectory(store)), nodes)
    else if !nodes[store].writable then (Err(NotWritable(store)), nodes)
    else (Ok(store), nodes)
  }

  /** The error `supportDir()` raises names the check that failed. */
  lemma SupportDirErrors(nodes: Nodes, denied: set<Path>, store: Path)
    ensures store in nodes && nodes[store].File? ==>
      SupportDirOutcome(nodes, denied, store).0 == Err(NotADirectory(store))
    ensures store in nodes && nodes[store] == Directory(false) ==>
      SupportDirOutcome(nodes, denied, store).0 == Err(NotWritable(store))
    ensures store !in nodes && store in denied ==>
      SupportDirOutcome(nodes, denied, store).0 == Err(MkdirFailed(store))
  {
  }

  /** Asking a second time changes nothing and gives the same answer. */
  lemma SupportDirIdempotent(nodes: Nodes, denied: set<Path>, store: Path)
    ensures var first := SupportDirOutcome(nodes, denied, store);
      SupportDirOutcome(first.1, denied, store) == first
  {
  }

  /** `supportDir()`, stepping through the host's filesystem calls. */
  method SupportDir(fs: FileSystem, store: Path) returns (r: Result<Path>)
    modifies fs
    ensures (r, fs.nodes) == SupportDirOutcome(old(fs.nodes), fs.denied, store)
  {
    if !fs.Exists(store) {
      var made := fs.Mkdir(store);
      if !made {
        return Err(MkdirFailed(store));
      }
      return Ok(store);
    }
    if !fs.IsDirectory(store) {
      return Err(NotADirectory(store));
    }
    if !fs.CanWrite(store) {
      return Err(NotWritable(store));
    }
    return Ok(store);
  }
}
