# A root-confined file explorer, modelled in Dafny

`app_fex.py` is a Gradio file explorer. Its core is a path sandbox. The
explorer keeps a cursor (`FileExplorerState.current_path`) that must never
leave a configured root directory. Three operations resolve a path and check
it against that root before acting:

- moving the cursor with `set_path`;
- archiving the selection into a zip;
- deleting the selection.

Listing a directory does no such check. `build_file_list` lists whatever path
it is given, and `BuildFileList` accordingly takes no root.

The model is split into one module per part of the program:

| module | file | models |
|---|---|---|
| `Wrappers` | `wrappers.dfy` | `Option` (the "nothing" answers) |
| `Text` | `text.dfy` | `str.lower` (ASCII) and Python's `<=` on strings |
| `Paths` | `paths.dfy` | `os.path.join`, `abspath`, `commonpath`, `dirname`, `relpath`, `basename` |
| `Files` | `files.dfy` | the filesystem as a map from normalized path to `File(size)` or `Dir` |
| `Selection` | `selection.dfy` | the `Select` column test, the selected-paths loops, `handle_selection_change` |
| `Navigation` | `navigation.dfy` | `FileExplorerState` (`set_path`, `go_up`), `handle_path_update`, `handle_row_select` |
| `Listing` | `listing.dfy` | `build_file_list` and its sort |
| `Archive` | `archive.dfy` | `create_zip_and_get_link` as the list of (source, arcname) pairs written to the zip |
| `Deletion` | `deletion.dfy` | `delete_selected_items` and its two counters |

### How paths are represented

- **Path.** A normalized absolute path is a `Path`, the sequence of its
  segments: "/" is `[]` and "/data/x" is `["data", "x"]`. Strings the user or
  the table supplies stay strings.
- **abspath.** `abspath` is `Normalize(Split(...))`, a left fold over the
  pieces of `split("/")`. It drops empty pieces and `.`, lets `..` remove the
  last segment, and keeps `..` at "/" at "/". The process working directory is
  the parameter `cwd`. It only matters for a relative string.
- **commonpath.** The test `commonpath([root, p]) == root` is modelled as the
  string comparison of the rendered longest common prefix. `InRootMeaning`
  proves it is exactly the segment-wise ancestor relation `IsPrefix`.

### Outside inputs as parameters

The filesystem is a value: a map `fs` that the operations take and return.
What the outside world contributes is passed in as a parameter:

- `listing`: what `os.listdir` returned, or `None` when it raised;
- `fails`: the paths whose removal raises;
- `cwd`: the working directory.

### Where the code and its documentation disagree

The model follows the code in each case:

- An archive whose every selected path is rejected is still created, and is
  empty. The code returns `None` only when no row is selected (lines 98-100),
  apart from the exception path (lines 132-136), which is left out.
- The confirmation gate is inside `delete_selected_items` (lines 276-278), not
  left to its caller.
- Entries with equal sort keys are not ordered by a byte-wise tie-break. The
  sort is stable, so they keep `listdir`'s order.
- Deleting reports errors and counts; selecting nothing is a warning and a
  refresh, not a failure.

## Model

| member | source | states |
|---|---|---|
| Paths.Join | app_fex.py:26 | `os.path.join` of two strings: an absolute second part replaces the first; otherwise one "/" separates them unless the first is empty or ends with "/" (also lines 95, 239, 264, 285) |
| Paths.Basename | app_fex.py:246 | `os.path.basename`: the text after the last "/" |
| Paths.Parent | app_fex.py:39 | `os.path.dirname` of a normalized path: the path without its last segment, and "/" for "/" |
| Paths.InRoot | app_fex.py:29 | the test `commonpath([root, p]) == root`, compared as rendered strings (also lines 113, 297) |
| Text.Lower | app_fex.py:71 | `str.lower`, character by character (also line 94) |
| Files.SubtreeFiles | app_fex.py:120-122 | the files `os.walk(d)` reports: every file entry strictly below `d` |
| Files.RemoveTree | app_fex.py:307 | after `shutil.rmtree(d)` exactly the entries not at or below `d` remain, unchanged |
| Selection.IsSelected | app_fex.py:94 | a row is selected when `str(row['Select']).lower() == 'true'` (also lines 237, 284) |
| Selection.SelectedPaths | app_fex.py:91-95 | the joined paths of the selected rows, in row order (also lines 235-240, 282-285) |
| Listing.KeyOf | app_fex.py:70-71 | the sort key of a name: `(isfile(join(dir, name)), name.lower())` |
| Listing.SortListing | app_fex.py:70-71 | `sorted(listdir(dir), key=...)`: the names decorated with their keys, stably sorted, undecorated |
| Archive.ItemFiles | app_fex.py:111-127 | the files one selected path contributes: none outside the root, the subtree's files for a directory, the file itself for a file, none for a missing path |
| Archive.Plans | app_fex.py:108-127 | the archive writes, selection by selection, each file the selection contributes once, named by its `relpath` from the directory shown |
| Deletion.DeleteStep | app_fex.py:295-311 | one selected path: out of the root is one error; a file is removed or, on failure, one error; a directory's subtree is removed or, on failure, one error; anything else changes nothing |
| Deletion.DeleteAll | app_fex.py:294-311 | the loop over the selected paths as a left fold of `DeleteStep` over their `abspath`s |
| Paths.AbsPath | app_fex.py:111 | `abspath` always yields a normalized absolute path |
| Paths.AbsPathMeaning | app_fex.py:295 | `abspath` applies the pieces of the string to "/" when it is absolute and to the working directory otherwise |
| Paths.Resolve | app_fex.py:26 | `abspath(join(current_path, new_path))` always yields a normalized absolute path |
| Paths.ResolveMeaning | app_fex.py:26 | an absolute candidate discards the base; a relative one is applied piece by piece to the base |
| Paths.ResolveName | app_fex.py:26 | joining a plain name to a normalized base gives the child path |
| Paths.ResolveDotDot | app_fex.py:26 | ".." gives the parent, and ".." at "/" stays at "/" |
| Paths.NormalizeRender | app_fex.py:26 | `abspath` of an already normalized path is that path |
| Paths.NormFromUp | app_fex.py:26 | k `..` pieces remove the last k segments |
| Paths.AbsPathJoinName | app_fex.py:95 | `abspath(join(base, name))` for a plain name is `abspath(base)` plus that name |
| Paths.RenderInjective | app_fex.py:29 | two normalized paths with the same string are the same path |
| Paths.CommonPrefixLength | app_fex.py:29 | the common prefix is shared, and it is the longest such prefix |
| Paths.InRootMeaning | app_fex.py:29 | the `commonpath` test holds exactly when the root is the path or a segment-wise ancestor of it |
| Paths.SiblingIsNotInRoot | app_fex.py:29 | root "/data" does not contain "/data2" |
| Paths.RelPath | app_fex.py:123 | `relpath` is never empty, and it is "." for the start itself |
| Paths.RelPathRoundTrip | app_fex.py:123 | applying `relpath(p, start)` to `start` gives `p` back |
| Paths.RelPathBelow | app_fex.py:126 | a path below the start is named by the segments below the start |
| Text.LexLeTotal | app_fex.py:71 | any two strings are comparable by Python's `<=` |
| Text.LexLeTransitive | app_fex.py:71 | Python's `<=` on strings is transitive |
| Text.LexLeAntisymmetric | app_fex.py:71 | strings that are `<=` each other are equal |
| Listing.KeyLeAntisymmetric | app_fex.py:71 | sort keys that are `<=` each other are equal, so ties are only between names of one kind with equal lower-cased text |
| Listing.KeyLeTotal | app_fex.py:71 | any two sort keys `(isfile, lower)` are comparable |
| Listing.KeyLeTransitive | app_fex.py:71 | the tuple order on sort keys is transitive |
| Listing.Decorate | app_fex.py:71 | each listed name is paired with its key `(isfile(join(dir, name)), name.lower())` |
| Listing.StableSort | app_fex.py:71 | the sort's output is ordered by key and is a permutation of the input |
| Listing.StableSortIsStable | app_fex.py:71 | the elements with any one key appear in the same order before and after the sort |
| Listing.SortListingPermutes | app_fex.py:70-71 | the sorted listing holds each listed name exactly as often as `listdir` returned it |
| Listing.SortListingOrdered | app_fex.py:69-71 | the sorted names are in key order: non-files first, then by lower-cased name |
| Listing.SortListingDirectoriesFirst | app_fex.py:69-71 | no file is sorted before a non-file |
| Listing.ListingExample | app_fex.py:69-71 | "b.txt", folder "A", "a.txt" are listed as "A", "a.txt", "b.txt" |
| Listing.DescribeEntries | app_fex.py:72-80 | one entry per name, in order, with the name, the folder flag of `isdir`, size "-" exactly for a folder and the file's size otherwise; it stops at the first name that no longer exists |
| Listing.BuildFileList | app_fex.py:63-83 | no entries when `listdir` fails; otherwise entries for a prefix of the sorted listing, in key order, stopping only at a vanished name, so one entry per name when every name exists |
| Selection.FlagSelection | app_fex.py:94 | a boolean `Select` cell selects its row exactly when it is true |
| Selection.TextSelectionExamples | app_fex.py:94 | the text "TRUE" selects a row and "yes" does not |
| Selection.SelectedPathsAppend | app_fex.py:91-95 | the selected paths of two consecutive blocks of rows are those of the first block followed by those of the second |
| Selection.SelectedPathsLength | app_fex.py:91-95 | there are at most as many selected paths as rows |
| Selection.SelectedPathsMembers | app_fex.py:91-95 | a path is selected exactly when some selected row's name joins to it |
| Selection.SelectedPathsEmpty | app_fex.py:98 | the selection is empty exactly when no row is selected |
| Selection.CollectSelected | app_fex.py:235-240 | the loop computes the selected paths in row order |
| Selection.Bullets | app_fex.py:246 | one line "- basename" per selected path, in order |
| Selection.SelectionChange | app_fex.py:228-250 | the hidden value is the comma-joined selection; the display is the bullet list, or "None" exactly when no row is selected |
| Navigation.SetPathTarget | app_fex.py:23-35 | the target is taken when it is inside the root and an existing directory; otherwise the cursor stays |
| Navigation.SetPathRejectsSibling | app_fex.py:26-31 | with root "/data", asking for "/data2" leaves the cursor unchanged |
| Navigation.SetPathDotDot | app_fex.py:26-35 | ".." below the root moves to the parent when that is a directory |
| Navigation.GoUpTarget | app_fex.py:37-45 | from the root, `go_up` stays at the root; from below it, it moves to the parent, which is inside the root |
| Navigation.GoUpClamp | app_fex.py:41 | the string-length test fires at a root other than "/", and not at the root "/" nor below the root |
| Navigation.RootDirAdmitsAll | app_fex.py:14 | with the configured root "/", the `commonpath` test admits every path |
| Navigation.GoUpReachesRoot | app_fex.py:37-45 | depth-many `go_up` calls reach the root |
| Navigation.NavigationStaysInRoot | app_fex.py:18-45 | any sequence of `set_path`/`go_up` calls keeps the cursor normalized and inside the root |
| Navigation.EnterListedFolder | app_fex.py:263-265 | clicking a listed folder's name enters it when it is a directory, and otherwise leaves the cursor alone |
| Navigation.FileExplorerState.constructor | app_fex.py:19-21 | the cursor starts at the root |
| Navigation.FileExplorerState.SetPath | app_fex.py:23-35 | the new cursor is `SetPathTarget` of the old one and is returned; the cursor stays inside the root |
| Navigation.FileExplorerState.GoUp | app_fex.py:37-45 | the new cursor is the parent, or the root at the root, and is returned; the cursor stays inside the root |
| Navigation.HandlePathUpdate | app_fex.py:320-322 | a typed path moves the cursor as `set_path` does |
| Navigation.HandleRowSelect | app_fex.py:252-272 | only a click in the Name column of a folder row navigates, to the path box joined with the row's name; any other click leaves the cursor alone |
| Archive.ItemFilesInRoot | app_fex.py:112-127 | everything a selected path contributes is a file inside the root |
| Archive.PlannedSourcesInRoot | app_fex.py:110-127 | every archived source is a file inside the root |
| Archive.PlannedSourcesComplete | app_fex.py:119-127 | every file of a selected in-root file or directory subtree is archived |
| Archive.ZipTree | app_fex.py:120-124 | the walk writes every file below the directory exactly once, each named by its `relpath` |
| Archive.ZipItem | app_fex.py:111-127 | an out-of-root path writes nothing; a directory writes its subtree's files; a file writes itself; a missing path writes nothing |
| Archive.ZipAll | app_fex.py:108-127 | the loop writes, selection by selection, exactly the files each contributes, each named by its `relpath` |
| Archive.CreateZip | app_fex.py:85-136 | `None` exactly when no row is selected; otherwise the archive planned from the selection |
| Archive.SelectedFileArcname | app_fex.py:126 | a selected file of the shown directory is archived under its own name |
| Archive.DirectoryFileArcname | app_fex.py:123 | a file under a selected directory `D` is archived as `D/...` |
| Deletion.StepOutsideRoot | app_fex.py:297-300 | an out-of-root path removes nothing and adds exactly one error |
| Deletion.StepOnMissing | app_fex.py:303-308 | an in-root path that is neither a file nor a directory changes nothing |
| Deletion.StepCounts | app_fex.py:294-311 | each selected path adds at most one to the two counters together |
| Deletion.StepRemoves | app_fex.py:302-308 | a step only removes entries, at or below an in-root selected path |
| Deletion.DeleteCountBound | app_fex.py:292-311 | deleted plus errors is at most the number of selected paths |
| Deletion.DeleteErrorsCountOutside | app_fex.py:294-311 | errors count every out-of-root path, and exactly those when no removal fails |
| Deletion.DeleteOnlyRemoves | app_fex.py:294-311 | the loop never adds or alters an entry |
| Deletion.DeleteRemovesOnlySelected | app_fex.py:294-311 | every removed entry is at or below a selected path inside the root |
| Deletion.DeleteKeepsOutsideRoot | app_fex.py:294-311 | nothing outside the root is removed or altered |
| Deletion.DeleteWithoutFailures | app_fex.py:302-308 | when no removal fails, every selected in-root path is gone afterwards |
| Deletion.DeleteSelected | app_fex.py:274-316 | without confirmation or selection nothing changes and both counts are 0; otherwise the result is the loop's fold over the selection |

## Left out

- The Gradio interface, its event wiring, `gr.Warning`/`gr.Info`/`gr.Error`/`gr.skip`, `print` and the progress callbacks (app_fex.py:166-216, 331-378): presentation only.
- `format_size` (app_fex.py:51-59): floating-point logarithms and rounding. Sizes are kept as byte counts.
- `upload_files` (app_fex.py:137-163): a `shutil.move` of transport temp files, pure I/O.
- `update_file_display`, `handle_go_up` and `handle_refresh` (app_fex.py:220-226, 324-329): they only call `FileExplorerState.GoUp` and `BuildFileList` and reset the view. `handle_refresh` (lines 328-329) and the refreshes inside `delete_selected_items` (lines 278, 290, 316) list the path box's raw text with no root check. With root "/data", typing "/etc" without pressing Enter and then clicking Refresh lists /etc.
- The zip bytes, DEFLATE, `tempfile.mkdtemp` and the cleanup on an exception (app_fex.py:102-108, 132-136): the archive is the list of entries written to it. A failing write is not modelled.
- The success message that counts every selected item, skipped ones included (app_fex.py:130): a message text only.
- Archive.ZipTree: the order of `os.walk` is left open. Only the set of files, each once, is specified.
- Archive.ZipTree: a directory that `os.walk` cannot list (the selected one or one below it, for example for lack of permission) is assumed not to occur. `os.walk` with its default `onerror=None` skips such a directory silently (line 120), so the source would return an archive without its files, while `ZipTree`, `ZipItem` and `PlannedSourcesComplete` promise every file below the selected directory.
- Files.SubtreeFiles: the filesystem map need not list every ancestor of an entry. On a map that leaves out an intermediate directory, `SubtreeFiles` still reports the files below it, which `os.walk` could not reach; a snapshot of a real filesystem has no such map.
- Archive.ArchiveEntry: an arcname is kept as its list of segments, not joined with "/".
- Deletion.DeleteStep: a failing `shutil.rmtree` is all-or-nothing. Partial removal before the exception is not modelled.
- Deletion.DeleteWithoutFailures: states that each selected in-root path itself is gone. It does not state that the whole subtree of a selected directory is gone.
- Symbolic links (`abspath` is lexical) and POSIX's special leading `//`.
- Paths.Parent: `dirname` is modelled on normalized paths only, the only ones the cursor holds.
- Text.Lower: lower-casing is ASCII only. Other letters are left unchanged.
- Navigation.HandleRowSelect: the row index is a natural number. A negative index, which pandas would count from the end, is not modelled. An index past the end raises in the source, and the model leaves the cursor alone there.
- Navigation.FileExplorerState: the root is assumed normalized. A root string with a trailing slash would make the string comparisons behave differently.
- Pandas data frames are sequences of rows. A `Select` cell is a boolean or a text.
- The module-level shared `state` object (app_fex.py:48) and concurrent requests, and filesystem races between a check and the action after it.
- Listing: an entry that changes kind between the sort and the loop is not modelled. Only a name that disappears is.
