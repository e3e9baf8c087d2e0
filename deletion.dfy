/**
 * `delete_selected_items`: behind a confirmation box, remove every selected
 * file and every selected directory's subtree that lies inside the root,
 * counting what was deleted and what failed. Which removals fail is the
 * filesystem's business and arrives as the set `fails` of paths whose
 * `os.remove` or `shutil.rmtree` raises.
 */
module Deletion {
  import opened Wrappers
  import opened Paths
  import opened Files
  import opened Selection

  /** The filesystem and the two counters as the loop goes along. */
  datatype Tally = Tally(fs: FileSystem, deleted: nat, errors: nat)

  /** One selected path, already made absolute, handled by the loop. */
  function DeleteStep(root: Path, fails: set<Path>, t: Tally, full: Path): Tally
  {
    if !InRoot(root, full) then t.(errors := t.errors + 1)
    else if IsFile(t.fs, full) then
      if full in fails then t.(errors := t.errors + 1)
      else Tally(t.fs - {full}, t.deleted + 1, t.errors)
    else if IsDir(t.fs, full) then
      if full in fails then t.(errors := t.errors + 1)
      else Tally(RemoveTree(t.fs, full), t.deleted + 1, t.errors)
    else t
  }

  /** The loop over the selected paths `paths`, from the tally `t`. */
  function DeleteAll(root: Path, fails: set<Path>, cwd: Path, t: Tally, paths: seq<string>): Tally
    requires IsNormal(cwd)
  {
    if paths == [] then t
    else DeleteStep(root, fails, DeleteAll(root, fails, cwd, t, paths[..|paths| - 1]),
                    AbsPath(paths[|paths| - 1], cwd))
  }

  /** The loop over a prefix one longer is one more step. */
  lemma DeleteAllSnoc(root: Path, fails: set<Path>, cwd: Path, t: Tally, paths: seq<string>, i: nat)
    requires IsNormal(cwd) && i < |paths|
    ensures DeleteAll(root, fails, cwd, t, paths[..i + 1]) ==
      DeleteStep(root, fails, DeleteAll(root, fails, cwd, t, paths[..i]), AbsPath(paths[i], cwd))
  {
    assert paths[..i + 1][..i] == paths[..i];
  }

  /** How many of `paths` resolve outside the root. */
  function CountOutside(root: Path, cwd: Path, paths: seq<string>): (n: nat)
    requires IsNormal(cwd)
    ensures n <= |paths|
  {
    if paths == [] then 0
    else CountOutside(root, cwd, paths[..|paths| - 1])
         + (if IsPrefix(root, AbsPath(paths[|paths| - 1], cwd)) then 0 else 1)
  }

  /** A selected path outside the root is skipped with exactly one error. */
  lemma StepOutsideRoot(root: Path, fails: set<Path>, t: Tally, full: Path)
    requires IsNormal(root) && !IsPrefix(root, full)
    ensures DeleteStep(root, fails, t, full) == Tally(t.fs, t.deleted, t.errors + 1)
  {
    InRootMeaning(root, full);
  }

  /** A path inside the root that is neither a file nor a directory changes nothing. */
  lemma StepOnMissing(root: Path, fails: set<Path>, t: Tally, full: Path)
    requires IsNormal(root) && IsPrefix(root, full) && full !in t.fs
    ensures DeleteStep(root, fails, t, full) == t
  {
    InRootMeaning(root, full);
  }

  /** Each step bumps at most one counter by one and never lowers either. */
  lemma StepCounts(root: Path, fails: set<Path>, t: Tally, full: Path)
    ensures var u := DeleteStep(root, fails, t, full);
      && t.deleted <= u.deleted && t.errors <= u.errors
      && u.deleted + u.errors <= t.deleted + t.errors + 1
  {
  }

  /** Each step only removes entries, and only ones at or below an in-root path. */
  lemma StepRemoves(root: Path, fails: set<Path>, t: Tally, full: Path)
    requires IsNormal(root)
    ensures var u := DeleteStep(root, fails, t, full);
      && (forall q :: q in u.fs ==> q in t.fs && u.fs[q] == t.fs[q])
      && (forall q :: q in t.fs && q !in u.fs ==> IsPrefix(root, full) && IsPrefix(full, q))
  {
    InRootMeaning(root, full);
  }

  /** Every selected path adds at most one to the two counters together. */
  lemma {:induction false} DeleteCountBound(root: Path, fails: set<Path>, cwd: Path, t: Tally, paths: seq<string>)
    requires IsNormal(cwd)
    ensures var r := DeleteAll(root, fails, cwd, t, paths);
      && t.deleted <= r.deleted && t.errors <= r.errors
      && r.deleted + r.errors <= t.deleted + t.errors + |paths|
  {
    if paths != [] {
      var init := paths[..|paths| - 1];
      DeleteCountBound(root, fails, cwd, t, init);
      StepCounts(root, fails, DeleteAll(root, fails, cwd, t, init), AbsPath(paths[|paths| - 1], cwd));
    }
  }

  /**
   * Every out-of-root path is one error; without failing removals the errors
   * are exactly those.
   */
  lemma {:induction false} DeleteErrorsCountOutside(root: Path, fails: set<Path>, cwd: Path, t: Tally, paths: seq<string>)
    requires IsNormal(root) && IsNormal(cwd)
    ensures DeleteAll(root, fails, cwd, t, paths).errors >= t.errors + CountOutside(root, cwd, paths)
    ensures fails == {} ==> DeleteAll(root, fails, cwd, t, paths).errors == t.errors + CountOutside(root, cwd, paths)
  {
    if paths != [] {
      var init := paths[..|paths| - 1];
      var full := AbsPath(paths[|paths| - 1], cwd);
      DeleteErrorsCountOutside(root, fails, cwd, t, init);
      InRootMeaning(root, full);
    }
  }

  /** The loop only removes entries and never alters a kept one. */
  lemma {:induction false} DeleteOnlyRemoves(root: Path, fails: set<Path>, cwd: Path, t: Tally, paths: seq<string>)
    requires IsNormal(root) && IsNormal(cwd)
    ensures var r := DeleteAll(root, fails, cwd, t, paths);
      forall q :: q in r.fs ==> q in t.fs && r.fs[q] == t.fs[q]
  {
    if paths != [] {
      var init := paths[..|paths| - 1];
      DeleteOnlyRemoves(root, fails, cwd, t, init);
      StepRemoves(root, fails, DeleteAll(root, fails, cwd, t, init), AbsPath(paths[|paths| - 1], cwd));
    }
  }

  /**
   * Whatever is removed lies at or below a selected path inside the root; in
   * particular nothing outside the root is ever removed.
   */
  lemma {:induction false} DeleteRemovesOnlySelected(root: Path, fails: set<Path>, cwd: Path, t: Tally,
                                                     paths: seq<string>, q: Path)
    requires IsNormal(root) && IsNormal(cwd)
    requires q in t.fs && q !in DeleteAll(root, fails, cwd, t, paths).fs
    ensures exists i :: 0 <= i < |paths| && IsPrefix(root, AbsPath(paths[i], cwd)) && IsPrefix(AbsPath(paths[i], cwd), q)
  {
    var init := paths[..|paths| - 1];
    var last := |paths| - 1;
    var mid := DeleteAll(root, fails, cwd, t, init);
    if q in mid.fs {
      StepRemoves(root, fails, mid, AbsPath(paths[last], cwd));
    } else {
      DeleteRemovesOnlySelected(root, fails, cwd, t, init, q);
      var i :| 0 <= i < |init| && IsPrefix(root, AbsPath(init[i], cwd)) && IsPrefix(AbsPath(init[i], cwd), q);
      assert init[i] == paths[i];
    }
  }

  /** Nothing outside the root is removed or altered. */
  lemma DeleteKeepsOutsideRoot(root: Path, fails: set<Path>, cwd: Path, t: Tally, paths: seq<string>, q: Path)
    requires IsNormal(root) && IsNormal(cwd)
    requires q in t.fs && !IsPrefix(root, q)
    ensures q in DeleteAll(root, fails, cwd, t, paths).fs
    ensures DeleteAll(root, fails, cwd, t, paths).fs[q] == t.fs[q]
  {
    DeleteOnlyRemoves(root, fails, cwd, t, paths);
    if q !in DeleteAll(root, fails, cwd, t, paths).fs {
      DeleteRemovesOnlySelected(root, fails, cwd, t, paths, q);
      var i :| 0 <= i < |paths| && IsPrefix(root, AbsPath(paths[i], cwd)) && IsPrefix(AbsPath(paths[i], cwd), q);
      PrefixTransitive(root, AbsPath(paths[i], cwd), q);
    }
  }

  /** When no removal fails, every selected path inside the root is gone afterwards. */
  lemma {:induction false} DeleteWithoutFailures(root: Path, cwd: Path, t: Tally, paths: seq<string>, i: nat)
    requires IsNormal(root) && IsNormal(cwd)
    requires i < |paths| && IsPrefix(root, AbsPath(paths[i], cwd))
    ensures AbsPath(paths[i], cwd) !in DeleteAll(root, {}, cwd, t, paths).fs
  {
    var init := paths[..|paths| - 1];
    var last := |paths| - 1;
    var mid := DeleteAll(root, {}, cwd, t, init);
    var full := AbsPath(paths[last], cwd);
    StepRemoves(root, {}, mid, full);
    if i < last {
      assert init[i] == paths[i];
      DeleteWithoutFailures(root, cwd, t, init, i);
    } else {
      InRootMeaning(root, full);
    }
  }

  /**
   * `delete_selected_items(table, confirm, currentPath)`: returns the
   * filesystem afterwards and the two counters of the summary message.
   */
  method DeleteSelected(table: Option<seq<Row>>, confirm: bool, currentPath: string, cwd: Path, root: Path,
                        fs: FileSystem, fails: set<Path>)
    returns (after: FileSystem, deleted: nat, errors: nat)
    requires IsNormal(cwd)
    ensures !confirm || TableSelection(table, currentPath) == [] ==> after == fs && deleted == 0 && errors == 0
    ensures confirm ==>
      Tally(after, deleted, errors) == DeleteAll(root, fails, cwd, Tally(fs, 0, 0), TableSelection(table, currentPath))
  {
    after, deleted, errors := fs, 0, 0;
    if !confirm {
      return;
    }
    var selected: seq<string> := [];
    if table.Some? {
      selected := CollectSelected(table.value, currentPath);
    }
    if selected == [] {
      return;
    }
    var i := 0;
    while i < |selected|
      invariant 0 <= i <= |selected|
      invariant Tally(after, deleted, errors) == DeleteAll(root, fails, cwd, Tally(fs, 0, 0), selected[..i])
    {
      DeleteAllSnoc(root, fails, cwd, Tally(fs, 0, 0), selected, i);
      ghost var before := Tally(after, deleted, errors);
      var full := AbsPath(selected[i], cwd);
      if !InRoot(root, full) {
        errors := errors + 1;
      } else if IsFile(after, full) {
        if full in fails {
          errors := errors + 1;
        } else {
          after := after - {full};
          deleted := deleted + 1;
        }
      } else if IsDir(after, full) {
        if full in fails {
          errors := errors + 1;
        } else {
          after := RemoveTree(after, full);
          deleted := deleted + 1;
        }
      }
      assert Tally(after, deleted, errors) == DeleteStep(root, fails, before, full);
      i := i + 1;
    }
    assert selected[..|selected|] == selected;
  }
}
