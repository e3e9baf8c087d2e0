/**
 * The explorer's cursor: a root fixed at start-up and the current directory,
 * moved by `set_path` and `go_up`, and the UI handlers that drive them.
 */
module Navigation {
  import opened Paths
  import opened Files
  import opened Selection

  /** `ROOT_DIR = "/"`: as configured, the explorer serves the whole filesystem. */
  const RootDir: Path := []

  /** With the configured root "/", the sandbox test admits every normalized path. */
  lemma RootDirAdmitsAll(p: Path)
    ensures InRoot(RootDir, p)
  {
    InRootMeaning(RootDir, p);
  }

  /** Where `set_path(newPath)` leaves a cursor at `cur`. */
  function SetPathTarget(root: Path, cur: Path, newPath: string, fs: FileSystem): (next: Path)
    ensures IsNormal(root) ==>
      var target := Resolve(cur, newPath);
      next == (if IsPrefix(root, target) && IsDir(fs, target) then target else cur)
  {
    var target := Resolve(cur, newPath);
    InRootMeaning(root, target);
    if !InRoot(root, target) then cur
    else if IsDir(fs, target) then target
    else cur
  }

  /** Where `go_up()` leaves a cursor at `cur`: the parent, clamped by string length. */
  function GoUpTarget(root: Path, cur: Path): (next: Path)
    ensures IsNormal(root) && IsPrefix(root, cur) ==>
      IsPrefix(root, next) && next == (if cur == root then root else Parent(cur))
  {
    var parent := Parent(cur);
    GoUpClamp(root, cur);
    if |Render(parent)| < |Render(root)| then root else parent
  }

  /** The string-length test of `go_up` is exact for a cursor inside the root. */
  lemma GoUpClamp(root: Path, cur: Path)
    ensures IsNormal(root) && cur == root && root != [] ==> |Render(Parent(cur))| < |Render(root)|
    ensures cur == root && root == [] ==> !(|Render(Parent(cur))| < |Render(root)|)
    ensures IsPrefix(root, cur) && cur != root ==>
      IsPrefix(root, Parent(cur)) && |Render(root)| <= |Render(Parent(cur))|
  {
    if IsNormal(root) && cur == root && root != [] {
      assert root == Parent(root) + [root[|root| - 1]];
      RenderLengthSnoc(Parent(root), root[|root| - 1]);
    } else if IsPrefix(root, cur) && cur != root {
      assert |root| < |cur|;
      assert Parent(cur)[..|root|] == cur[..|root|];
      RenderLengthMonotone(root, Parent(cur));
    }
  }

  /** `k` calls of `go_up` in a row. */
  function GoUpTimes(root: Path, cur: Path, k: nat): Path
    decreases k
  {
    if k == 0 then cur else GoUpTimes(root, GoUpTarget(root, cur), k - 1)
  }

  /** From anywhere inside the root, as many `go_up` calls as the depth below the root reach it. */
  lemma {:induction false} GoUpReachesRoot(root: Path, cur: Path)
    requires IsNormal(root) && IsPrefix(root, cur)
    ensures GoUpTimes(root, cur, |cur| - |root|) == root
    decreases |cur|
  {
    if cur != root {
      var next := GoUpTarget(root, cur);
      assert next == Parent(cur);
      assert |root| < |cur|;
      GoUpReachesRoot(root, next);
    } else {
      assert |cur| - |root| == 0;
    }
  }

  /** One navigation request as the cursor sees it. */
  datatype NavOp = SetTo(newPath: string, fs: FileSystem) | Up

  function NavStep(root: Path, cur: Path, op: NavOp): Path
  {
    match op
    case SetTo(newPath, fs) => SetPathTarget(root, cur, newPath, fs)
    case Up => GoUpTarget(root, cur)
  }

  /** The cursor after a whole sequence of requests. */
  function Navigate(root: Path, cur: Path, ops: seq<NavOp>): Path
    decreases |ops|
  {
    if ops == [] then cur else Navigate(root, NavStep(root, cur, ops[0]), ops[1..])
  }

  /** No sequence of `set_path` and `go_up` calls takes the cursor out of the root. */
  lemma {:induction false} NavigationStaysInRoot(root: Path, cur: Path, ops: seq<NavOp>)
    requires IsNormal(root) && IsNormal(cur) && IsPrefix(root, cur)
    ensures IsNormal(Navigate(root, cur, ops)) && IsPrefix(root, Navigate(root, cur, ops))
    decreases |ops|
  {
    if ops != [] {
      var next := NavStep(root, cur, ops[0]);
      if ops[0].Up? && cur != root {
        assert next == Parent(cur);
        assert IsNormal(next) by {
          forall i | 0 <= i < |next| ensures IsNormalSegment(next[i]) { assert next[i] == cur[i]; }
        }
      }
      NavigationStaysInRoot(root, next, ops[1..]);
    }
  }

  /** Clicking a listed folder's name, with the path box showing the cursor, enters that folder. */
  lemma EnterListedFolder(root: Path, cur: Path, name: string, fs: FileSystem)
    requires IsNormal(root) && IsNormal(cur) && IsPrefix(root, cur) && IsNormalSegment(name)
    ensures SetPathTarget(root, cur, Join(Render(cur), name), fs) ==
      if IsDir(fs, cur + [name]) then cur + [name] else cur
  {
    var typed := Join(Render(cur), name);
    assert IsAbsolute(Render(cur));
    assert IsAbsolute(typed) by {
      if cur == [] {
        assert typed == Render(cur) + name;
      } else {
        RenderNoTrailingSlash(cur);
        assert typed == Render(cur) + "/" + name;
      }
    }
    assert Join(Render(cur), typed) == typed;
    assert Resolve(cur, typed) == Normalize(Split(typed));
    ResolveName(cur, name);
    assert (cur + [name])[..|root|] == cur[..|root|];
  }

  /** With root "/data", asking for the sibling "/data2" leaves the cursor where it is. */
  lemma SetPathRejectsSibling(cur: Path, fs: FileSystem)
    requires IsNormal(cur)
    ensures SetPathTarget(["data"], cur, "/data2", fs) == cur
  {
    assert IsNormalSegment("data");
    ResolveMeaning(cur, "/data2");
    ResolveMeaning(["data"], "/data2");
    SiblingIsNotInRoot();
  }

  /** Typing ".." moves to the parent, except at the root when the root is not "/". */
  lemma SetPathDotDot(root: Path, cur: Path, fs: FileSystem)
    requires IsNormal(root) && IsNormal(cur) && IsPrefix(root, cur) && cur != root
    ensures SetPathTarget(root, cur, "..", fs) == if IsDir(fs, Parent(cur)) then Parent(cur) else cur
  {
    ResolveDotDot(cur);
    GoUpClamp(root, cur);
  }

  /** The explorer's state object. */
  class FileExplorerState {
    const root: Path
    var current: Path

    /** The cursor is a normalized path at or below the root. */
    ghost predicate Valid()
      reads this
    {
      IsNormal(root) && IsNormal(current) && IsPrefix(root, current)
    }

    constructor (root: Path)
      requires IsNormal(root)
      ensures Valid() && this.root == root && current == root
    {
      this.root := root;
      current := root;
    }

    /** `set_path`: move to an existing directory inside the root, or stay. */
    method SetPath(newPath: string, fs: FileSystem) returns (shown: Path)
      requires Valid()
      modifies this
      ensures Valid()
      ensures current == SetPathTarget(root, old(current), newPath, fs)
      ensures shown == current
    {
      var absPath := Resolve(current, newPath);
      InRootMeaning(root, absPath);
      if !InRoot(root, absPath) {
        return current;
      }
      if IsDir(fs, absPath) {
        current := absPath;
      }
      shown := current;
    }

    /** `go_up`: move to the parent, never above the root. */
    method GoUp() returns (shown: Path)
      requires Valid()
      modifies this
      ensures Valid()
      ensures current == GoUpTarget(root, old(current))
      ensures old(current) == root ==> current == root
      ensures old(current) != root ==> current == Parent(old(current))
      ensures shown == current
    {
      var parent := Parent(current);
      GoUpClamp(root, current);
      if |Render(parent)| < |Render(root)| {
        current := root;
      } else {
        current := parent;
      }
      assert IsNormal(current) by {
        forall i | 0 <= i < |current| ensures IsNormalSegment(current[i]) {
          assert current[i] == old(current)[i];
        }
      }
      shown := current;
    }
  }

  const FolderIcon: string := "\U{1F4C1}"

  /** `handle_path_update`: the path typed into the path box. */
  method HandlePathUpdate(state: FileExplorerState, newPath: string, fs: FileSystem) returns (shown: Path)
    requires state.Valid()
    modifies state
    ensures state.Valid()
    ensures state.current == SetPathTarget(state.root, old(state.current), newPath, fs)
    ensures shown == state.current
  {
    shown := state.SetPath(newPath, fs);
  }

  /**
   * `handle_row_select`: a click on cell (`row`, `column`). Only a click in the
   * Name column of a folder row navigates; `pathBox` is the path box's text.
   * An out-of-range row raises in the source, which also leaves the cursor alone.
   */
  method HandleRowSelect(state: FileExplorerState, row: nat, column: int, rows: seq<Row>,
                         pathBox: string, fs: FileSystem) returns (refreshed: bool)
    requires state.Valid()
    modifies state
    ensures state.Valid()
    ensures refreshed <==> column == 2 && row < |rows| && rows[row].icon == FolderIcon
    ensures refreshed ==>
      state.current == SetPathTarget(state.root, old(state.current), Join(pathBox, rows[row].name), fs)
    ensures !refreshed ==> state.current == old(state.current)
  {
    refreshed := false;
    if column == 2 && row < |rows| {
      var clicked := rows[row];
      if clicked.icon == FolderIcon {
        var newPath := Join(pathBox, clicked.name);
        var _ := state.SetPath(newPath, fs);
        refreshed := true;
      }
    }
  }
}
