/**
 * `create_zip_and_get_link`: the archive of the selected rows, planned as the
 * ordered list of (source file, name in the archive) pairs the zip is written
 * from. Selected paths outside the root are skipped, a selected directory
 * contributes every file below it, and every entry is named by its path
 * relative to the directory shown.
 */
module Archive {
  import opened Wrappers
  import opened Paths
  import opened Files
  import opened Selection

  /** One `zipf.write(source, arcname)`; the name is kept as its segments. */
  datatype ArchiveEntry = ArchiveEntry(source: Path, arcname: seq<string>)

  /** The source of each entry; the ensures clauses only unfold the definition. */
  function Sources(entries: seq<ArchiveEntry>): (sources: seq<Path>)
    ensures |sources| == |entries|
    ensures forall k :: 0 <= k < |entries| ==> sources[k] == entries[k].source
  {
    if entries == [] then [] else [entries[0].source] + Sources(entries[1..])
  }

  /** `s` lists every element of `files` exactly once, in some order. */
  ghost predicate Enumerates(s: seq<Path>, files: set<Path>)
  {
    && (forall i, j :: 0 <= i < j < |s| ==> s[i] != s[j])
    && (forall q :: q in files <==> q in s)
  }

  /** The blocks one after another. */
  function Flatten(blocks: seq<seq<Path>>): seq<Path>
  {
    if blocks == [] then [] else Flatten(blocks[..|blocks| - 1]) + blocks[|blocks| - 1]
  }

  /** A path of the flattened blocks comes from one of the blocks. */
  lemma {:induction false} FlattenMember(blocks: seq<seq<Path>>, q: Path)
    requires q in Flatten(blocks)
    ensures exists i :: 0 <= i < |blocks| && q in blocks[i]
  {
    var init := blocks[..|blocks| - 1];
    if q in Flatten(init) {
      FlattenMember(init, q);
      var i :| 0 <= i < |init| && q in init[i];
      assert blocks[i] == init[i];
    } else {
      assert q in blocks[|blocks| - 1];
    }
  }

  /**
   * The files one selected path contributes: none outside the root, every file
   * of the subtree for a directory, the file itself for a file, and none for a
   * path that does not exist.
   */
  function ItemFiles(fs: FileSystem, root: Path, full: Path): set<Path>
  {
    if !IsPrefix(root, full) then {}
    else if IsDir(fs, full) then SubtreeFiles(fs, full)
    else if IsFile(fs, full) then {full}
    else {}
  }

  /** What a selected path contributes is a file inside the root. */
  lemma ItemFilesInRoot(fs: FileSystem, root: Path, full: Path, q: Path)
    requires q in ItemFiles(fs, root, full)
    ensures IsPrefix(root, q) && IsFile(fs, q)
  {
    if IsDir(fs, full) {
      PrefixTransitive(root, full, q);
    }
  }

  /**
   * `entries` is an archive of `selected`: it writes, selection by selection,
   * the files each one contributes, each file once, named relative to `start`.
   */
  ghost predicate Plans(fs: FileSystem, root: Path, cwd: Path, start: Path,
                        selected: seq<string>, entries: seq<ArchiveEntry>)
    requires IsNormal(cwd)
  {
    && NamedFrom(entries, start)
    && exists blocks: seq<seq<Path>> ::
         && |blocks| == |selected|
         && (forall i :: 0 <= i < |selected| ==>
               Enumerates(blocks[i], ItemFiles(fs, root, AbsPath(selected[i], cwd))))
         && Sources(entries) == Flatten(blocks)
  }

  /** Every entry is named by its source's path relative to `start`. */
  predicate NamedFrom(entries: seq<ArchiveEntry>, start: Path)
  {
    forall k :: 0 <= k < |entries| ==> entries[k].arcname == RelPath(entries[k].source, start)
  }

  lemma NamedFromAppend(a: seq<ArchiveEntry>, b: seq<ArchiveEntry>, start: Path)
    requires NamedFrom(a, start) && NamedFrom(b, start)
    ensures NamedFrom(a + b, start)
  {
    forall k | 0 <= k < |a + b| ensures (a + b)[k].arcname == RelPath((a + b)[k].source, start) {
      if k >= |a| { assert (a + b)[k] == b[k - |a|]; }
    }
  }

  /** Nothing outside the root, and nothing but files, is ever archived. */
  lemma {:induction false} PlannedSourcesInRoot(fs: FileSystem, root: Path, cwd: Path, start: Path,
                                                selected: seq<string>, entries: seq<ArchiveEntry>)
    requires IsNormal(cwd) && Plans(fs, root, cwd, start, selected, entries)
    ensures forall k :: 0 <= k < |entries| ==> IsPrefix(root, entries[k].source) && IsFile(fs, entries[k].source)
  {
    var blocks: seq<seq<Path>> :| && |blocks| == |selected|
      && (forall i :: 0 <= i < |selected| ==>
            Enumerates(blocks[i], ItemFiles(fs, root, AbsPath(selected[i], cwd))))
      && Sources(entries) == Flatten(blocks);
    forall k | 0 <= k < |entries|
      ensures IsPrefix(root, entries[k].source) && IsFile(fs, entries[k].source)
    {
      var q := entries[k].source;
      assert q == Sources(entries)[k];
      FlattenMember(blocks, q);
      var i :| 0 <= i < |blocks| && q in blocks[i];
      ItemFilesInRoot(fs, root, AbsPath(selected[i], cwd), q);
    }
  }

  /** A planned archive lists exactly the files the selection contributes. */
  lemma {:induction false} PlannedSourcesComplete(fs: FileSystem, root: Path, cwd: Path, start: Path,
                                                  selected: seq<string>, entries: seq<ArchiveEntry>,
                                                  i: nat, q: Path)
    requires IsNormal(cwd) && Plans(fs, root, cwd, start, selected, entries)
    requires i < |selected| && q in ItemFiles(fs, root, AbsPath(selected[i], cwd))
    ensures q in Sources(entries)
  {
    var blocks: seq<seq<Path>> :| && |blocks| == |selected|
      && (forall i :: 0 <= i < |selected| ==>
            Enumerates(blocks[i], ItemFiles(fs, root, AbsPath(selected[i], cwd))))
      && Sources(entries) == Flatten(blocks);
    assert q in blocks[i];
    FlattenHas(blocks, i, q);
  }

  lemma {:induction false} FlattenHas(blocks: seq<seq<Path>>, i: nat, q: Path)
    requires i < |blocks| && q in blocks[i]
    ensures q in Flatten(blocks)
  {
    var init := blocks[..|blocks| - 1];
    if i < |blocks| - 1 {
      assert init[i] == blocks[i];
      FlattenHas(init, i, q);
    }
  }

  /**
   * `for root, _, files in os.walk(d): for file in files: zipf.write(...)`:
   * every file below `d` once, in an order the model leaves open.
   */
  method ZipTree(fs: FileSystem, d: Path, start: Path) returns (written: seq<ArchiveEntry>)
    ensures Enumerates(Sources(written), SubtreeFiles(fs, d))
    ensures NamedFrom(written, start)
  {
    var pending := SubtreeFiles(fs, d);
    written := [];
    while pending != {}
      invariant forall q :: q in SubtreeFiles(fs, d) <==> q in pending || q in Sources(written)
      invariant forall q :: q in pending ==> q !in Sources(written)
      invariant forall i, j :: 0 <= i < j < |written| ==> Sources(written)[i] != Sources(written)[j]
      invariant NamedFrom(written, start)
      decreases |pending|
    {
      var file :| file in pending;
      var entry := ArchiveEntry(file, RelPath(file, start));
      SourcesAppend(written, [entry]);
      NamedFromAppend(written, [entry], start);
      written := written + [entry];
      pending := pending - {file};
    }
  }

  /** The archive entries of one selected path, after the root check. */
  method ZipItem(fs: FileSystem, root: Path, full: Path, start: Path) returns (added: seq<ArchiveEntry>)
    requires IsNormal(root)
    ensures Enumerates(Sources(added), ItemFiles(fs, root, full))
    ensures NamedFrom(added, start)
  {
    InRootMeaning(root, full);
    added := [];
    if !InRoot(root, full) {
      return;
    }
    if IsDir(fs, full) {
      added := ZipTree(fs, full, start);
    } else if IsFile(fs, full) {
      added := [ArchiveEntry(full, RelPath(full, start))];
    }
  }

  /** The loop of `create_zip_and_get_link` over the selected paths, writing one zip. */
  method ZipAll(fs: FileSystem, root: Path, cwd: Path, start: Path, selected: seq<string>)
    returns (entries: seq<ArchiveEntry>)
    requires IsNormal(root) && IsNormal(cwd)
    ensures Plans(fs, root, cwd, start, selected, entries)
  {
    entries := [];
    ghost var blocks: seq<seq<Path>> := [];
    var i := 0;
    while i < |selected|
      invariant 0 <= i <= |selected|
      invariant |blocks| == i
      invariant forall j :: 0 <= j < i ==> Enumerates(blocks[j], ItemFiles(fs, root, AbsPath(selected[j], cwd)))
      invariant Sources(entries) == Flatten(blocks)
      invariant NamedFrom(entries, start)
    {
      var full := AbsPath(selected[i], cwd);
      var added := ZipItem(fs, root, full, start);
      SourcesAppend(entries, added);
      NamedFromAppend(entries, added, start);
      entries := entries + added;
      blocks := blocks + [Sources(added)];
      assert blocks[..i] == blocks[..|blocks| - 1];
      i := i + 1;
    }
    assert |blocks| == |selected|;
  }

  /**
   * `create_zip_and_get_link(table, currentPath)`. `root` is the explorer's
   * root and `cwd` the process's working directory, against which `abspath`
   * and `relpath` resolve a relative path. `None` is the "nothing selected"
   * answer; otherwise the archive's entries in the order they are written.
   */
  method CreateZip(table: Option<seq<Row>>, currentPath: string, cwd: Path, root: Path, fs: FileSystem)
    returns (archive: Option<seq<ArchiveEntry>>)
    requires IsNormal(root) && IsNormal(cwd)
    ensures archive.None? <==> TableSelection(table, currentPath) == []
    ensures archive.Some? ==> Plans(fs, root, cwd, AbsPath(currentPath, cwd), TableSelection(table, currentPath), archive.value)
  {
    var selected: seq<string> := [];
    if table.Some? {
      selected := CollectSelected(table.value, currentPath);
    }
    if selected == [] {
      return None;
    }
    var entries := ZipAll(fs, root, cwd, AbsPath(currentPath, cwd), selected);
    return Some(entries);
  }

  lemma SourcesAppend(a: seq<ArchiveEntry>, b: seq<ArchiveEntry>)
    ensures Sources(a + b) == Sources(a) + Sources(b)
  {
  }

  /** A selected file of the directory shown is archived under its own name. */
  lemma SelectedFileArcname(currentPath: string, name: string, cwd: Path)
    requires IsNormal(cwd) && IsNormalSegment(name)
    ensures RelPath(AbsPath(Join(currentPath, name), cwd), AbsPath(currentPath, cwd)) == [name]
  {
    AbsPathJoinName(currentPath, name, cwd);
    RelPathBelow(AbsPath(currentPath, cwd), [name]);
  }

  /** A file below a selected directory `name` is archived as `name/...`. */
  lemma DirectoryFileArcname(currentPath: string, name: string, cwd: Path, q: Path)
    requires IsNormal(cwd) && IsNormalSegment(name)
    requires IsStrictPrefix(AbsPath(Join(currentPath, name), cwd), q)
    ensures var start, full := AbsPath(currentPath, cwd), AbsPath(Join(currentPath, name), cwd);
      full == start + [name] && RelPath(q, start) == [name] + q[|full|..]
  {
    var start := AbsPath(currentPath, cwd);
    AbsPathJoinName(currentPath, name, cwd);
    var rest := q[|start| + 1..];
    assert q == start + ([name] + rest) by {
      assert q[..|start| + 1] == start + [name];
      assert q == q[..|start| + 1] + rest;
    }
    RelPathBelow(start, [name] + rest);
  }
}
