/**
 * The filesystem as the explorer observes it: a snapshot mapping each existing
 * normalized absolute path to what is there. The map is not required to
 * list every ancestor of an entry as a directory, as a real filesystem
 * would.
 */
module Files {
  import opened Paths

  datatype Node = File(size: nat) | Dir

  type FileSystem = map<Path, Node>

  /** `os.path.isdir`. */
  predicate IsDir(fs: FileSystem, p: Path)
  {
    p in fs && fs[p].Dir?
  }

  /** `os.path.isfile`. */
  predicate IsFile(fs: FileSystem, p: Path)
  {
    p in fs && fs[p].File?
  }

  /** `a` is a proper ancestor of `b`. */
  predicate IsStrictPrefix(a: Path, b: Path)
  {
    |a| < |b| && b[..|a|] == a
  }

  /** The files `os.walk(d)` reports, over all the directories it visits. */
  function SubtreeFiles(fs: FileSystem, d: Path): set<Path>
  {
    set q | q in fs && fs[q].File? && IsStrictPrefix(d, q)
  }

  /**
   * The filesystem after `shutil.rmtree(d)` succeeds: `d` and all below it are
   * gone. The ensures clauses only unfold the definition; what the delete loop
   * promises is proved about `Deletion.DeleteAll`.
   */
  function RemoveTree(fs: FileSystem, d: Path): (after: FileSystem)
    ensures forall q :: q in after <==> q in fs && !IsPrefix(d, q)
    ensures forall q :: q in after ==> after[q] == fs[q]
  {
    map q | q in fs && !IsPrefix(d, q) :: fs[q]
  }
}
