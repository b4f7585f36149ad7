/** The live filesystem the index is reconciled against, as a snapshot:
    which paths exist, what kind of node each is, and what a directory lists. */
module Disk {
  import opened Paths

  datatype Node =
    | RegularFile
    | Folder(entries: seq<string>)   // names `iterdir` yields, in its order
    | Special                        // sockets, devices and other entry types

  datatype FileSystem = FileSystem(nodes: map<Path, Node>) {

    /** `Path.exists()` */
    predicate Exists(p: Path) { p in nodes }

    /** `Path.is_file()` */
    predicate IsFile(p: Path) { p in nodes && nodes[p].RegularFile? }

    /** `Path.is_dir()` */
    predicate IsDir(p: Path) { p in nodes && nodes[p].Folder? }

    /** The names `Path.iterdir()` yields for a directory. */
    function Entries(p: Path): seq<string>
    {
      if IsDir(p) then nodes[p].entries else []
    }

    /** Directory entries are single non-empty names. */
    predicate WellFormed()
    {
      forall p, n :: p in nodes && nodes[p].Folder? && n in nodes[p].entries ==> n != "" && '/' !in n
    }

    /** The existing paths strictly longer than `p`: what a walk below `p` can still visit. */
    function Deeper(p: Path): set<Path>
    {
      set q | q in nodes && |q| > |p|
    }
  }

  /** Descending into an existing sub-entry leaves fewer paths to visit. */
  lemma DeeperShrinks(fs: FileSystem, p: Path, n: string)
    requires fs.Exists(p + [n])
    ensures fs.Deeper(p + [n]) < fs.Deeper(p)
  {
    assert p + [n] in fs.Deeper(p);
    assert p + [n] !in fs.Deeper(p + [n]);
  }
}
