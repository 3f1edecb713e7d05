/**
 * The part of the host's filesystem API (`nova.fs`, `nova.path`) the
 * extension relies on, over an abstract state: a map from paths to nodes.
 * Permissions, stat structure and path normalisation are abstracted to one
 * `writable` flag per node, a file/directory distinction, and a fixed set of
 * paths on which every mutating call fails.
 */
module Fs {
  import opened Results

  type Path = string

  datatype Node = File(content: string, writable: bool) | Directory(writable: bool)

  type Nodes = map<Path, Node>

  /** `nova.path.join(dir, name)`. */
  function Join(dir: Path, name: string): Path
  {
    dir + "/" + name
  }

  /** Two path maps agree on every path outside `changed`. */
  ghost predicate AgreeOutside(a: Nodes, b: Nodes, changed: set<Path>)
  {
    forall p :: p !in changed ==> (p in a <==> p in b) && (p in a ==> a[p] == b[p])
  }

  class FileSystem {
    var nodes: Nodes
    /** Paths on which mkdir, open for writing and remove fail (permission denied, disk full, ...). */
    const denied: set<Path>

    constructor (nodes: Nodes, denied: set<Path>)
      ensures this.nodes == nodes && this.denied == denied
    {
      this.nodes := nodes;
      this.denied := denied;
    }

    /** `nova.fs.access(p, nova.fs.F_OK)`; also what `canAccessPath` resolves on. */
    predicate Exists(p: Path)
      reads this
    {
      p in nodes
    }

    /** `nova.fs.access(p, nova.fs.W_OK)`. */
    predicate CanWrite(p: Path)
      reads this
    {
      p in nodes && nodes[p].writable
    }

    /** `nova.fs.stat(p).isDirectory()` on a path that exists. */
    predicate IsDirectory(p: Path)
      reads this
    {
      p in nodes && nodes[p].Directory?
    }

    /** `nova.fs.mkdir(p)`: creates a writable directory, or throws. */
    method Mkdir(p: Path) returns (ok: bool)
      modifies this
      ensures ok <==> old(p !in nodes) && p !in denied
      ensures nodes == if ok then old(nodes)[p := Directory(true)] else old(nodes)
    {
      ok := p !in nodes && p !in denied;
      if ok {
        nodes := nodes[p := Directory(true)];
      }
    }

    /** `nova.fs.open(p, "w+")`: creates or truncates a file, or gives no handle. */
    method Open(p: Path) returns (ok: bool)
      modifies this
      ensures ok <==> p !in denied && !old(IsDirectory(p))
      ensures nodes == if ok then old(nodes)[p := File("", true)] else old(nodes)
    {
      ok := p !in denied && !IsDirectory(p);
      if ok {
        nodes := nodes[p := File("", true)];
      }
    }

    /** `handle.write(text)` on a file just opened. */
    method Write(p: Path, text: string)
      requires p in nodes && nodes[p].File?
      modifies this
      ensures nodes == old(nodes)[p := File(old(nodes)[p].content + text, old(nodes)[p].writable)]
    {
      nodes := nodes[p := File(nodes[p].content + text, nodes[p].writable)];
    }

    /** `nova.fs.remove(p)`: deletes the node, or throws. */
    method Remove(p: Path) returns (ok: bool)
      modifies this
      ensures ok <==> p !in denied
      ensures nodes == if ok then old(nodes) - {p} else old(nodes)
    {
      ok := p !in denied;
      if ok {
        nodes := nodes - {p};
      }
    }
  }
}
