/**
 * `build_file_list`: the entries of one directory, non-files first and then
 * by lower-cased name, each with its kind and size.
 */
module Listing {
  import opened Wrappers
  import opened Text
  import opened Paths
  import opened Files

  /** The sort key `(os.path.isfile(join(dir, name)), name.lower())`. */
  datatype SortKey = SortKey(isFile: bool, folded: string)

  /** Python's tuple order on sort keys, with `False < True`. */
  predicate KeyLe(a: SortKey, b: SortKey)
  {
    (!a.isFile && b.isFile) || (a.isFile == b.isFile && LexLe(a.folded, b.folded))
  }

  lemma KeyLeReflexive(a: SortKey)
    ensures KeyLe(a, a)
  {
    LexLeReflexive(a.folded);
  }

  lemma KeyLeTotal(a: SortKey, b: SortKey)
    ensures KeyLe(a, b) || KeyLe(b, a)
  {
    LexLeTotal(a.folded, b.folded);
  }

  lemma KeyLeTransitive(a: SortKey, b: SortKey, c: SortKey)
    requires KeyLe(a, b) && KeyLe(b, c)
    ensures KeyLe(a, c)
  {
    if a.isFile == b.isFile && b.isFile == c.isFile {
      LexLeTransitive(a.folded, b.folded, c.folded);
    }
  }

  /**
   * Keys that are `<=` each other are equal, so the sort only has ties between
   * names of the same kind whose lower-cased texts agree; stability orders those.
   */
  lemma KeyLeAntisymmetric(a: SortKey, b: SortKey)
    requires KeyLe(a, b) && KeyLe(b, a)
    ensures a == b
  {
    LexLeAntisymmetric(a.folded, b.folded);
  }

  function KeyOf(fs: FileSystem, dir: Path, name: string): SortKey
  {
    SortKey(IsFile(fs, Resolve(dir, name)), Lower(name))
  }

  /** A name with its key computed once, as `list.sort(key=...)` does. */
  datatype Keyed = Keyed(name: string, key: SortKey)

  /** Pairs each name with its key; the ensures clauses only unfold the definition. */
  function Decorate(fs: FileSystem, dir: Path, names: seq<string>): (keyed: seq<Keyed>)
    ensures |keyed| == |names|
    ensures forall i :: 0 <= i < |names| ==> keyed[i] == Keyed(names[i], KeyOf(fs, dir, names[i]))
  {
    if names == [] then [] else [Keyed(names[0], KeyOf(fs, dir, names[0]))] + Decorate(fs, dir, names[1..])
  }

  /** The names of decorated entries; the ensures clauses only unfold the definition. */
  function Names(keyed: seq<Keyed>): (names: seq<string>)
    ensures |names| == |keyed|
    ensures forall i :: 0 <= i < |keyed| ==> names[i] == keyed[i].name
  {
    if keyed == [] then [] else [keyed[0].name] + Names(keyed[1..])
  }

  predicate Sorted(s: seq<Keyed>)
  {
    forall i, j :: 0 <= i < j < |s| ==> KeyLe(s[i].key, s[j].key)
  }

  /** The elements of `s` whose key is `k`, in their order. */
  function WithKey(s: seq<Keyed>, k: SortKey): seq<Keyed>
  {
    if s == [] then []
    else (if s[0].key == k then [s[0]] else []) + WithKey(s[1..], k)
  }

  /** Inserts `x` in front of the first element whose key is not smaller. */
  function Insert(x: Keyed, sorted: seq<Keyed>): seq<Keyed>
  {
    if sorted == [] then [x]
    else if KeyLe(x.key, sorted[0].key) then [x] + sorted
    else [sorted[0]] + Insert(x, sorted[1..])
  }

  lemma {:induction false} InsertPermutes(x: Keyed, sorted: seq<Keyed>)
    ensures multiset(Insert(x, sorted)) == multiset{x} + multiset(sorted)
  {
    if sorted != [] && !KeyLe(x.key, sorted[0].key) {
      InsertPermutes(x, sorted[1..]);
      assert sorted == [sorted[0]] + sorted[1..];
    }
  }

  lemma {:induction false} InsertSorted(x: Keyed, sorted: seq<Keyed>)
    requires Sorted(sorted)
    ensures Sorted(Insert(x, sorted))
  {
    if sorted == [] {
    } else if KeyLe(x.key, sorted[0].key) {
      var r := [x] + sorted;
      forall i, j | 0 <= i < j < |r| ensures KeyLe(r[i].key, r[j].key) {
        if i == 0 && j > 1 {
          KeyLeTransitive(x.key, sorted[0].key, sorted[j - 1].key);
        }
      }
    } else {
      var head := sorted[0];
      var tail := Insert(x, sorted[1..]);
      InsertSorted(x, sorted[1..]);
      InsertPermutes(x, sorted[1..]);
      KeyLeTotal(x.key, head.key);
      forall j | 0 <= j < |tail| ensures KeyLe(head.key, tail[j].key) {
        assert tail[j] in multiset(tail);
        if tail[j] != x {
          assert tail[j] in multiset(sorted[1..]);
          var k :| 0 <= k < |sorted[1..]| && sorted[1..][k] == tail[j];
          assert sorted[k + 1] == tail[j];
        }
      }
      var r := [head] + tail;
      forall i, j | 0 <= i < j < |r| ensures KeyLe(r[i].key, r[j].key) {
        if i > 0 { assert r[i] == tail[i - 1] && r[j] == tail[j - 1]; }
        else { assert r[j] == tail[j - 1]; }
      }
    }
  }

  /** Inserting `x` puts it in front of the other elements with its key. */
  lemma {:induction false} InsertWithKey(x: Keyed, sorted: seq<Keyed>, k: SortKey)
    ensures WithKey(Insert(x, sorted), k) == (if x.key == k then [x] else []) + WithKey(sorted, k)
  {
    if sorted == [] {
      assert [x][1..] == [];
    } else if KeyLe(x.key, sorted[0].key) {
      assert ([x] + sorted)[1..] == sorted;
    } else {
      KeyLeReflexive(x.key);
      InsertWithKey(x, sorted[1..], k);
      assert ([sorted[0]] + Insert(x, sorted[1..]))[1..] == Insert(x, sorted[1..]);
    }
  }

  /** The stable sort behind `items.sort(key=...)`: ordered by key, a permutation of the input. */
  function StableSort(s: seq<Keyed>): (sorted: seq<Keyed>)
    ensures Sorted(sorted)
    ensures multiset(sorted) == multiset(s)
  {
    if s == [] then []
    else
      var rest := StableSort(s[1..]);
      InsertSorted(s[0], rest);
      InsertPermutes(s[0], rest);
      assert s == [s[0]] + s[1..];
      Insert(s[0], rest)
  }

  /** The sort is stable: elements with equal keys keep their listing order. */
  lemma {:induction false} StableSortIsStable(s: seq<Keyed>, k: SortKey)
    ensures WithKey(StableSort(s), k) == WithKey(s, k)
  {
    if s != [] {
      StableSortIsStable(s[1..], k);
      InsertWithKey(s[0], StableSort(s[1..]), k);
    }
  }

  /** The listed names in the order `build_file_list` visits them. */
  function SortListing(fs: FileSystem, dir: Path, names: seq<string>): seq<string>
  {
    Names(StableSort(Decorate(fs, dir, names)))
  }

  /** The sorted listing holds each listed name as often as the listing does. */
  lemma SortListingPermutes(fs: FileSystem, dir: Path, names: seq<string>)
    ensures multiset(SortListing(fs, dir, names)) == multiset(names)
  {
    var keyed := Decorate(fs, dir, names);
    SortNamesPermutes(keyed);
    DecorateNames(fs, dir, names);
  }

  lemma DecorateNames(fs: FileSystem, dir: Path, names: seq<string>)
    ensures Names(Decorate(fs, dir, names)) == names
  {
  }

  lemma {:induction false} InsertNames(x: Keyed, sorted: seq<Keyed>)
    ensures multiset(Names(Insert(x, sorted))) == multiset{x.name} + multiset(Names(sorted))
  {
    if sorted == [] {
    } else if KeyLe(x.key, sorted[0].key) {
      assert Names([x] + sorted) == [x.name] + Names(sorted);
    } else {
      InsertNames(x, sorted[1..]);
      assert Names([sorted[0]] + Insert(x, sorted[1..])) == [sorted[0].name] + Names(Insert(x, sorted[1..]));
      assert Names(sorted) == [sorted[0].name] + Names(sorted[1..]);
    }
  }

  lemma {:induction false} SortNamesPermutes(s: seq<Keyed>)
    ensures multiset(Names(StableSort(s))) == multiset(Names(s))
  {
    if s != [] {
      SortNamesPermutes(s[1..]);
      InsertNames(s[0], StableSort(s[1..]));
      assert Names(s) == [s[0].name] + Names(s[1..]);
    }
  }

  /** Every sorted name carries its own key, so the sorted names are in key order. */
  lemma SortListingOrdered(fs: FileSystem, dir: Path, names: seq<string>)
    ensures var sorted := SortListing(fs, dir, names);
      forall i, j :: 0 <= i < j < |sorted| ==>
        KeyLe(KeyOf(fs, dir, sorted[i]), KeyOf(fs, dir, sorted[j]))
  {
    var keyed := Decorate(fs, dir, names);
    var s := StableSort(keyed);
    forall i | 0 <= i < |s| ensures s[i].key == KeyOf(fs, dir, s[i].name) {
      assert s[i] in multiset(keyed);
      var k :| 0 <= k < |keyed| && keyed[k] == s[i];
    }
  }

  /** Non-files come before files in the visiting order. */
  lemma SortListingDirectoriesFirst(fs: FileSystem, dir: Path, names: seq<string>)
    ensures var sorted := SortListing(fs, dir, names);
      forall i, j :: 0 <= i < j < |sorted| && IsFile(fs, Resolve(dir, sorted[i])) ==>
        IsFile(fs, Resolve(dir, sorted[j]))
  {
    SortListingOrdered(fs, dir, names);
  }

  /** The size column: a byte count for a file, "-" for a directory. */
  datatype Size = Bytes(n: nat) | Dash

  /** One row of the listing: its name, whether it shows the folder icon, and its size. */
  datatype Entry = Entry(name: string, isDir: bool, size: Size)

  /** The entry `build_file_list` records for a listed name that can be examined. */
  predicate DescribesName(fs: FileSystem, dir: Path, name: string, e: Entry)
  {
    var p := Resolve(dir, name);
    && p in fs
    && e.name == name
    && e.isDir == IsDir(fs, p)
    && (e.size == Dash <==> e.isDir)
    && (!e.isDir ==> e.size == Bytes(fs[p].size))
  }

  /**
   * The loop of `build_file_list` over the sorted names. A name that no longer
   * exists makes `getsize` raise, which ends the loop; the entries built so far
   * are kept.
   */
  method DescribeEntries(fs: FileSystem, dir: Path, names: seq<string>) returns (items: seq<Entry>)
    ensures |items| <= |names|
    ensures forall i :: 0 <= i < |items| ==> DescribesName(fs, dir, names[i], items[i])
    ensures |items| < |names| ==> Resolve(dir, names[|items|]) !in fs
  {
    items := [];
    var i := 0;
    while i < |names|
      invariant 0 <= i <= |names|
      invariant |items| == i
      invariant forall j :: 0 <= j < i ==> DescribesName(fs, dir, names[j], items[j])
    {
      var itemPath := Resolve(dir, names[i]);
      var isDir := IsDir(fs, itemPath);
      if !isDir && itemPath !in fs {
        return;
      }
      var size := if isDir then Dash else Bytes(fs[itemPath].size);
      items := items + [Entry(names[i], isDir, size)];
      i := i + 1;
    }
  }

  /**
   * `build_file_list(dir)`. `listing` is what `os.listdir` returned, or `None`
   * when it raised.
   */
  method BuildFileList(fs: FileSystem, dir: Path, listing: Option<seq<string>>) returns (items: seq<Entry>)
    ensures listing.None? ==> items == []
    ensures listing.Some? ==>
      var sorted := SortListing(fs, dir, listing.value);
      && |items| <= |sorted|
      && (forall i :: 0 <= i < |items| ==> DescribesName(fs, dir, sorted[i], items[i]))
      && (|items| < |sorted| ==> Resolve(dir, sorted[|items|]) !in fs)
    ensures forall i, j :: 0 <= i < j < |items| ==>
      KeyLe(KeyOf(fs, dir, items[i].name), KeyOf(fs, dir, items[j].name))
    ensures listing.Some? && (forall x :: x in listing.value ==> Resolve(dir, x) in fs) ==>
      |items| == |listing.value|
  {
    if listing.None? {
      return [];
    }
    var names := SortListing(fs, dir, listing.value);
    items := DescribeEntries(fs, dir, names);
    SortListingOrdered(fs, dir, listing.value);
    SortListingPermutes(fs, dir, listing.value);
    if |items| < |names| {
      assert names[|items|] in multiset(listing.value);
    }
  }

  /**
   * A directory holding "b.txt", a folder "A" and "a.txt" is listed folder
   * first, then the files by lower-cased name.
   */
  lemma ListingExample(fs: FileSystem, dir: Path)
    requires IsNormal(dir)
    requires IsDir(fs, dir + ["A"]) && IsFile(fs, dir + ["a.txt"]) && IsFile(fs, dir + ["b.txt"])
    ensures SortListing(fs, dir, ["b.txt", "A", "a.txt"]) == ["A", "a.txt", "b.txt"]
  {
    ExampleKeys(fs, dir);
    ExampleKeyOrder(KeyOf(fs, dir, "b.txt"), KeyOf(fs, dir, "A"), KeyOf(fs, dir, "a.txt"));
    SortThree(fs, dir, "b.txt", "A", "a.txt");
  }

  /** Three names whose keys put the first last and keep the other two in order. */
  lemma SortThree(fs: FileSystem, dir: Path, x: string, y: string, z: string)
    requires !KeyLe(KeyOf(fs, dir, x), KeyOf(fs, dir, y)) && !KeyLe(KeyOf(fs, dir, x), KeyOf(fs, dir, z))
    requires KeyLe(KeyOf(fs, dir, y), KeyOf(fs, dir, z))
    ensures SortListing(fs, dir, [x, y, z]) == [y, z, x]
  {
    var kx, ky, kz := Keyed(x, KeyOf(fs, dir, x)), Keyed(y, KeyOf(fs, dir, y)), Keyed(z, KeyOf(fs, dir, z));
    DecorateThree(fs, dir, x, y, z);
    InsertThree(kx, ky, kz);
    SortListingOf(fs, dir, [x, y, z], [kx, ky, kz], [ky, kz, kx]);
    NamesThree(ky, kz, kx);
  }

  lemma DecorateThree(fs: FileSystem, dir: Path, x: string, y: string, z: string)
    ensures Decorate(fs, dir, [x, y, z]) ==
      [Keyed(x, KeyOf(fs, dir, x)), Keyed(y, KeyOf(fs, dir, y)), Keyed(z, KeyOf(fs, dir, z))]
  {
  }

  lemma NamesThree(a: Keyed, b: Keyed, c: Keyed)
    ensures Names([a, b, c]) == [a.name, b.name, c.name]
  {
  }

  lemma InsertThree(kx: Keyed, ky: Keyed, kz: Keyed)
    requires !KeyLe(kx.key, ky.key) && !KeyLe(kx.key, kz.key) && KeyLe(ky.key, kz.key)
    ensures StableSort([kx, ky, kz]) == [ky, kz, kx]
  {
    assert [kx, ky, kz][1..] == [ky, kz] && [ky, kz][1..] == [kz];
    assert [kz][1..] == [];
    assert StableSort([kz]) == [kz];
    assert StableSort([ky, kz]) == [ky, kz];
    assert Insert(kx, [kz]) == [kz, kx];
    assert Insert(kx, [ky, kz]) == [ky] + Insert(kx, [kz]);
  }

  lemma SortListingOf(fs: FileSystem, dir: Path, names: seq<string>, keyed: seq<Keyed>, sorted: seq<Keyed>)
    requires Decorate(fs, dir, names) == keyed && StableSort(keyed) == sorted
    ensures SortListing(fs, dir, names) == Names(sorted)
  {
  }

  lemma ExampleKeys(fs: FileSystem, dir: Path)
    requires IsNormal(dir)
    requires IsDir(fs, dir + ["A"]) && IsFile(fs, dir + ["a.txt"]) && IsFile(fs, dir + ["b.txt"])
    ensures KeyOf(fs, dir, "A") == SortKey(false, "a")
    ensures KeyOf(fs, dir, "a.txt") == SortKey(true, "a.txt")
    ensures KeyOf(fs, dir, "b.txt") == SortKey(true, "b.txt")
  {
    assert '/' !in "a.txt" && '/' !in "b.txt";
    ResolveName(dir, "A");
    ResolveName(dir, "a.txt");
    ResolveName(dir, "b.txt");
    LowerExamples();
  }

  lemma ExampleKeyOrder(b: SortKey, d: SortKey, a: SortKey)
    requires b == SortKey(true, "b.txt") && d == SortKey(false, "a") && a == SortKey(true, "a.txt")
    ensures !KeyLe(b, d) && !KeyLe(b, a) && KeyLe(d, a)
  {
    assert "b.txt"[0] == 'b' && "a.txt"[0] == 'a';
  }

  lemma LowerExamples()
    ensures Lower("A") == "a" && Lower("a.txt") == "a.txt" && Lower("b.txt") == "b.txt"
  {
    LowerUnchanged("a.txt");
    LowerUnchanged("b.txt");
  }

  /** Lower-casing leaves a string without capitals alone. */
  lemma {:induction false} LowerUnchanged(s: string)
    requires forall i :: 0 <= i < |s| ==> !('A' <= s[i] <= 'Z')
    ensures Lower(s) == s
  {
    if s != [] {
      LowerUnchanged(s[1..]);
      assert s == [s[0]] + s[1..];
    }
  }
}
