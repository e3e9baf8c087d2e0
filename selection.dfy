/**
 * The table of entries as the front end sends it back, and which of its rows
 * are selected. A row's `Select` cell arrives either as a boolean or as text.
 */
module Selection {
  import opened Wrappers
  import opened Text
  import opened Paths

  /** A `Select` cell: a boolean, or any other value through its text. */
  datatype Cell = Flag(b: bool) | Textual(s: string)

  /** One table row; the Size column is never read by the core. */
  datatype Row = Row(select: Cell, icon: string, name: string)

  /** `str(cell)`. */
  function CellText(c: Cell): string
  {
    match c
    case Flag(b) => if b then "True" else "False"
    case Textual(s) => s
  }

  /** `str(row['Select']).lower() == 'true'`. */
  predicate IsSelected(r: Row)
  {
    Lower(CellText(r.select)) == "true"
  }

  /** A boolean cell is selected exactly when it is true. */
  lemma FlagSelection(b: bool, icon: string, name: string)
    ensures IsSelected(Row(Flag(b), icon, name)) <==> b
  {
    if b {
      assert "True"[1..] == "rue" && "rue"[1..] == "ue" && "ue"[1..] == "e" && "e"[1..] == "";
      assert Lower("True") == "true";
    } else {
      assert Lower("False")[0] == 'f';
    }
  }

  /** Text cells are compared case-insensitively: "TRUE" counts, "yes" does not. */
  lemma TextSelectionExamples(icon: string, name: string)
    ensures IsSelected(Row(Textual("TRUE"), icon, name))
    ensures !IsSelected(Row(Textual("yes"), icon, name))
  {
    assert Lower("yes")[0] == 'y';
  }

  /**
   * `os.path.join(base, row['Name'])` for every selected row, in row order:
   * the list the explorer's selection loops build.
   */
  function SelectedPaths(rows: seq<Row>, base: string): seq<string>
  {
    if rows == [] then []
    else
      var init := SelectedPaths(rows[..|rows| - 1], base);
      var last := rows[|rows| - 1];
      if IsSelected(last) then init + [Join(base, last.name)] else init
  }

  /** The selection of an optional table; `None` selects nothing. */
  function TableSelection(table: Option<seq<Row>>, base: string): seq<string>
  {
    if table.None? then [] else SelectedPaths(table.value, base)
  }

  /** Selecting from two halves of a table is selecting from each half in turn. */
  lemma {:induction false} SelectedPathsAppend(a: seq<Row>, b: seq<Row>, base: string)
    ensures SelectedPaths(a + b, base) == SelectedPaths(a, base) + SelectedPaths(b, base)
    decreases |b|
  {
    if b == [] {
      assert a + b == a;
    } else {
      var b' := b[..|b| - 1];
      assert (a + b)[..|a + b| - 1] == a + b';
      assert (a + b)[|a + b| - 1] == b[|b| - 1];
      SelectedPathsAppend(a, b', base);
    }
  }

  /** There are at most as many selected paths as rows. */
  lemma {:induction false} SelectedPathsLength(rows: seq<Row>, base: string)
    ensures |SelectedPaths(rows, base)| <= |rows|
  {
    if rows != [] { SelectedPathsLength(rows[..|rows| - 1], base); }
  }

  /** A path is in the selection exactly when some selected row names it. */
  lemma {:induction false} SelectedPathsMembers(rows: seq<Row>, base: string, p: string)
    ensures p in SelectedPaths(rows, base) <==>
      exists i :: 0 <= i < |rows| && IsSelected(rows[i]) && p == Join(base, rows[i].name)
  {
    if rows != [] {
      var init := rows[..|rows| - 1];
      SelectedPathsMembers(init, base, p);
      if exists i :: 0 <= i < |rows| && IsSelected(rows[i]) && p == Join(base, rows[i].name) {
        var i :| 0 <= i < |rows| && IsSelected(rows[i]) && p == Join(base, rows[i].name);
        if i < |rows| - 1 { assert init[i] == rows[i]; }
      }
      if p in SelectedPaths(init, base) {
        var i :| 0 <= i < |init| && IsSelected(init[i]) && p == Join(base, init[i].name);
        assert rows[i] == init[i];
      }
    }
  }

  /** The selection is empty exactly when no row is selected. */
  lemma {:induction false} SelectedPathsEmpty(rows: seq<Row>, base: string)
    ensures SelectedPaths(rows, base) == [] <==> forall i :: 0 <= i < |rows| ==> !IsSelected(rows[i])
  {
    if rows != [] {
      var init := rows[..|rows| - 1];
      SelectedPathsEmpty(init, base);
      if SelectedPaths(rows, base) == [] {
        forall i | 0 <= i < |rows| ensures !IsSelected(rows[i]) {
          if i < |rows| - 1 { assert init[i] == rows[i]; }
        }
      }
    }
  }

  /** The loop over the table's rows that collects the selected paths. */
  method CollectSelected(rows: seq<Row>, base: string) returns (paths: seq<string>)
    ensures paths == SelectedPaths(rows, base)
    ensures |paths| <= |rows|
  {
    paths := [];
    var i := 0;
    while i < |rows|
      invariant 0 <= i <= |rows|
      invariant paths == SelectedPaths(rows[..i], base)
    {
      assert rows[..i + 1][..i] == rows[..i];
      if IsSelected(rows[i]) {
        paths := paths + [Join(base, rows[i].name)];
      }
      i := i + 1;
    }
    assert rows[..|rows|] == rows;
    SelectedPathsLength(rows, base);
  }

  /** The Markdown list line shown for one selected path. */
  function Bullet(p: string): string
  {
    "- " + Basename(p)
  }

  /** The bullet lines for all selected paths, in order. */
  function Bullets(paths: seq<string>): (lines: seq<string>)
    ensures |lines| == |paths|
    ensures forall i :: 0 <= i < |paths| ==> lines[i] == Bullet(paths[i])
  {
    if paths == [] then [] else [Bullet(paths[0])] + Bullets(paths[1..])
  }

  lemma JoinSepStartsWithFirst(parts: seq<string>, sep: char)
    requires parts != []
    ensures parts[0] <= JoinSep(parts, sep)
  {
  }

  /**
   * `handle_selection_change`: the comma-joined selected paths for the hidden
   * field, and the Markdown list of their base names, or "None".
   */
  method SelectionChange(rows: seq<Row>, base: string) returns (joined: string, display: string)
    ensures joined == JoinSep(SelectedPaths(rows, base), ',')
    ensures SelectedPaths(rows, base) != [] ==> display == JoinSep(Bullets(SelectedPaths(rows, base)), '\n')
    ensures display == "None" <==> forall i :: 0 <= i < |rows| ==> !IsSelected(rows[i])
  {
    var items := CollectSelected(rows, base);
    joined := JoinSep(items, ',');
    SelectedPathsEmpty(rows, base);
    if items != [] {
      var lines := Bullets(items);
      display := JoinSep(lines, '\n');
      JoinSepStartsWithFirst(lines, '\n');
      assert lines[0][1] == ' ';
      assert display[1] == ' ';
    } else {
      display := "None";
    }
  }
}
