/**
 * The POSIX path helpers the explorer calls (`os.path.join`, `abspath`,
 * `commonpath`, `dirname`, `relpath`), modelled lexically: symbolic links are
 * never resolved, and the special meaning of a leading `//` is not modelled.
 *
 * User-supplied paths stay strings. A normalized absolute path is a `Path`:
 * the list of its segments, so "/" is [] and "/data/x" is ["data", "x"].
 */
module Paths {

  type Path = seq<string>

  /** A segment that `normpath` leaves in place. */
  predicate IsNormalSegment(s: string)
  {
    s != "" && s != "." && s != ".." && '/' !in s
  }

  /** The segments of the output of `os.path.abspath`. */
  predicate IsNormal(p: Path)
  {
    forall i :: 0 <= i < |p| ==> IsNormalSegment(p[i])
  }

  predicate NoSlash(parts: seq<string>)
  {
    forall i :: 0 <= i < |parts| ==> '/' !in parts[i]
  }

  predicate IsAbsolute(s: string)
  {
    |s| > 0 && s[0] == '/'
  }

  /** `a` is `b` or one of its ancestors, comparing whole segments. */
  predicate IsPrefix(a: Path, b: Path)
  {
    |a| <= |b| && b[..|a|] == a
  }

  lemma PrefixTransitive(a: Path, b: Path, c: Path)
    requires IsPrefix(a, b) && IsPrefix(b, c)
    ensures IsPrefix(a, c)
  {
    assert c[..|a|] == c[..|b|][..|a|];
  }

  // ---------------------------------------------------------------------------
  // Strings and segments

  /** `s.split("/")`: the (possibly empty) pieces between slashes. */
  function Split(s: string): (parts: seq<string>)
    ensures |parts| >= 1 && NoSlash(parts)
    decreases |s|
  {
    if s == [] then [""]
    else if s[0] == '/' then [""] + Split(s[1..])
    else
      var rest := Split(s[1..]);
      [[s[0]] + rest[0]] + rest[1..]
  }

  /** `sep.join(parts)`. */
  function JoinSep(parts: seq<string>, sep: char): string
  {
    if parts == [] then ""
    else if |parts| == 1 then parts[0]
    else parts[0] + [sep] + JoinSep(parts[1..], sep)
  }

  /** The string form of a normalized absolute path. */
  function Render(p: Path): string
  {
    "/" + JoinSep(p, '/')
  }

  /** `posixpath.join(a, b)`. */
  function Join(a: string, b: string): string
  {
    if IsAbsolute(b) then b
    else if a == [] || a[|a| - 1] == '/' then a + b
    else a + "/" + b
  }

  /** `os.path.basename(s)`: what follows the last slash. */
  function Basename(s: string): string
  {
    var parts := Split(s);
    parts[|parts| - 1]
  }

  lemma {:induction false} SplitAround(a: string, b: string)
    ensures Split(a + "/" + b) == Split(a) + Split(b)
    decreases |a|
  {
    if a == [] {
      assert a + "/" + b == "/" + b;
      assert ("/" + b)[1..] == b;
    } else {
      assert (a + "/" + b)[0] == a[0];
      assert (a + "/" + b)[1..] == a[1..] + "/" + b;
      SplitAround(a[1..], b);
    }
  }

  lemma {:induction false} SplitNoSlash(s: string)
    requires '/' !in s
    ensures Split(s) == [s]
    decreases |s|
  {
    if s != [] {
      assert '/' !in s[1..];
      SplitNoSlash(s[1..]);
      assert s == [s[0]] + s[1..];
    }
  }

  lemma {:induction false} SplitJoinSep(parts: seq<string>)
    requires |parts| >= 1 && NoSlash(parts)
    ensures Split(JoinSep(parts, '/')) == parts
  {
    if |parts| == 1 {
      SplitNoSlash(parts[0]);
    } else {
      SplitNoSlash(parts[0]);
      SplitJoinSep(parts[1..]);
      assert parts[0] + ['/'] + JoinSep(parts[1..], '/') == parts[0] + "/" + JoinSep(parts[1..], '/');
      SplitAround(parts[0], JoinSep(parts[1..], '/'));
      assert parts == [parts[0]] + parts[1..];
    }
  }

  /** Splitting a rendered path gives back its segments after a leading "". */
  lemma SplitRender(p: Path)
    requires NoSlash(p)
    ensures Split(Render(p)) == [""] + (if p == [] then [""] else p)
  {
    var s := JoinSep(p, '/');
    assert Render(p)[0] == '/' && Render(p)[1..] == s;
    if p != [] { SplitJoinSep(p); }
  }

  lemma {:induction false} JoinSepSnoc(p: seq<string>, x: string)
    requires p != []
    ensures JoinSep(p + [x], '/') == JoinSep(p, '/') + "/" + x
  {
    if |p| == 1 {
      assert p + [x] == [p[0], x];
    } else {
      assert (p + [x])[1..] == p[1..] + [x];
      JoinSepSnoc(p[1..], x);
    }
  }

  lemma {:induction false} JoinSepLastChar(p: seq<string>)
    requires p != [] && p[|p| - 1] != ""
    ensures |JoinSep(p, '/')| > 0
    ensures JoinSep(p, '/')[|JoinSep(p, '/')| - 1] == p[|p| - 1][|p[|p| - 1]| - 1]
  {
    if |p| > 1 { JoinSepLastChar(p[1..]); }
  }

  /** The rendered form of a non-root normalized path does not end in a slash. */
  lemma RenderNoTrailingSlash(p: Path)
    requires IsNormal(p) && p != []
    ensures |Render(p)| > 1 && Render(p)[|Render(p)| - 1] != '/'
  {
    JoinSepLastChar(p);
    assert p[|p| - 1] != "" && '/' !in p[|p| - 1];
    var last := p[|p| - 1];
    assert last[|last| - 1] in last;
  }

  /** The length of a rendered path grows by the new segment and one slash. */
  lemma RenderLengthSnoc(p: Path, x: string)
    ensures |Render(p + [x])| == |Render(p)| + |x| + (if p == [] then 0 else 1)
  {
    if p == [] {
      assert [] + [x] == [x];
    } else {
      JoinSepSnoc(p, x);
    }
  }

  /** `Render` cannot shrink along the ancestor order. */
  lemma {:induction false} RenderLengthMonotone(a: Path, b: Path)
    requires IsPrefix(a, b)
    ensures |Render(a)| <= |Render(b)|
    decreases |b|
  {
    if |a| < |b| {
      var b' := b[..|b| - 1];
      assert b == b' + [b[|b| - 1]];
      assert IsPrefix(a, b') by { assert b'[..|a|] == b[..|a|]; }
      RenderLengthMonotone(a, b');
      RenderLengthSnoc(b', b[|b| - 1]);
    } else {
      assert a == b;
    }
  }

  /** Distinct normalized paths render as distinct strings. */
  lemma RenderInjective(a: Path, b: Path)
    requires IsNormal(a) && IsNormal(b) && Render(a) == Render(b)
    ensures a == b
  {
    SplitRender(a);
    SplitRender(b);
    var sa, sb := Split(Render(a)), Split(Render(b));
    if a != [] && b != [] {
      assert a == sa[1..] && b == sb[1..];
    }
  }

  // ---------------------------------------------------------------------------
  // normpath / abspath

  /** One component of `normpath` on an absolute path: `..` at "/" stays at "/". */
  function NormStep(acc: Path, c: string): Path
  {
    if c == "" || c == "." then acc
    else if c == ".." then (if acc == [] then [] else acc[..|acc| - 1])
    else acc + [c]
  }

  /** Applies the components `comps` to the already normalized prefix `acc`. */
  function NormFrom(acc: Path, comps: seq<string>): (p: Path)
    ensures IsNormal(acc) && NoSlash(comps) ==> IsNormal(p)
    decreases |comps|
  {
    if comps == [] then acc
    else NormFrom(NormStep(acc, comps[0]), comps[1..])
  }

  /** `normpath` of an absolute path, from its `split("/")` components. */
  function Normalize(comps: seq<string>): Path
  {
    NormFrom([], comps)
  }

  /** `os.path.abspath(s)`, with `cwd` the process working directory. */
  function AbsPath(s: string, cwd: Path): (p: Path)
    requires IsNormal(cwd)
    ensures IsNormal(p)
  {
    Normalize(Split(if IsAbsolute(s) then s else Join(Render(cwd), s)))
  }

  /**
   * `os.path.abspath(os.path.join(base, candidate))` for a normalized `base`:
   * the joined string is absolute, so the working directory plays no part.
   */
  function Resolve(base: Path, candidate: string): (p: Path)
    ensures IsNormal(p)
  {
    Normalize(Split(Join(Render(base), candidate)))
  }

  lemma {:induction false} NormFromAppend(acc: Path, a: seq<string>, b: seq<string>)
    ensures NormFrom(acc, a + b) == NormFrom(NormFrom(acc, a), b)
    decreases |a|
  {
    if a == [] {
      assert a + b == b;
    } else {
      assert (a + b)[0] == a[0] && (a + b)[1..] == a[1..] + b;
      NormFromAppend(NormStep(acc, a[0]), a[1..], b);
    }
  }

  lemma {:induction false} NormFromNormal(acc: Path, p: Path)
    requires IsNormal(p)
    ensures NormFrom(acc, p) == acc + p
    decreases |p|
  {
    if p == [] {
      assert acc + p == acc;
    } else {
      NormFromNormal(acc + [p[0]], p[1..]);
      assert acc + [p[0]] + p[1..] == acc + p;
    }
  }

  lemma NormFromOne(acc: Path, c: string)
    ensures NormFrom(acc, [c]) == NormStep(acc, c)
  {
    assert [c][1..] == [];
  }

  /** `k` copies of `s`, as `[s] * k`. */
  function Repeat(s: string, k: nat): (r: seq<string>)
    ensures |r| == k
  {
    if k == 0 then [] else [s] + Repeat(s, k - 1)
  }

  lemma {:induction false} NormFromUp(acc: Path, k: nat)
    requires k <= |acc|
    ensures NormFrom(acc, Repeat("..", k)) == acc[..|acc| - k]
  {
    if k > 0 {
      assert Repeat("..", k)[0] == ".." && Repeat("..", k)[1..] == Repeat("..", k - 1);
      NormFromUp(acc[..|acc| - 1], k - 1);
      assert acc[..|acc| - 1][..|acc| - 1 - (k - 1)] == acc[..|acc| - k];
    }
  }

  /** Normalizing a rendered path gives the path back. */
  lemma NormalizeRender(p: Path)
    requires IsNormal(p)
    ensures Normalize(Split(Render(p))) == p
  {
    SplitRender(p);
    if p == [] {
      NormFromAppend([], [""], [""]);
      NormFromOne([], "");
    } else {
      NormFromAppend([], [""], p);
      NormFromOne([], "");
      NormFromNormal([], p);
    }
  }

  /** Joining a relative string onto a rendered path resolves against that path. */
  lemma JoinRender(base: Path, c: string)
    requires IsNormal(base) && !IsAbsolute(c)
    ensures Normalize(Split(Join(Render(base), c))) == NormFrom(base, Split(c))
  {
    if base == [] {
      JoinRenderAtRoot(c);
    } else {
      JoinRenderBelowRoot(base, c);
    }
  }

  lemma JoinRenderAtRoot(c: string)
    requires !IsAbsolute(c)
    ensures Normalize(Split(Join(Render([]), c))) == NormFrom([], Split(c))
  {
    assert Render([]) == "/";
    assert Join("/", c) == "" + "/" + c;
    SplitAround("", c);
    NormFromAppend([], [""], Split(c));
    NormFromOne([], "");
  }

  lemma JoinRenderBelowRoot(base: Path, c: string)
    requires IsNormal(base) && base != [] && !IsAbsolute(c)
    ensures Normalize(Split(Join(Render(base), c))) == NormFrom(base, Split(c))
  {
    var head := [""] + base;
    assert Split(Join(Render(base), c)) == head + Split(c) by {
      RenderNoTrailingSlash(base);
      assert Join(Render(base), c) == Render(base) + "/" + c;
      SplitAround(Render(base), c);
      SplitRender(base);
    }
    assert NormFrom([], head) == base by {
      NormFromAppend([], [""], base);
      NormFromOne([], "");
      NormFromNormal([], base);
    }
    NormFromAppend([], head, Split(c));
  }

  /**
   * What `Resolve` computes: an absolute candidate discards the base, a
   * relative one is applied component by component to the base.
   */
  lemma ResolveMeaning(base: Path, c: string)
    requires IsNormal(base)
    ensures Resolve(base, c) == if IsAbsolute(c) then Normalize(Split(c)) else NormFrom(base, Split(c))
  {
    if !IsAbsolute(c) { JoinRender(base, c); }
  }

  /** What `AbsPath` computes: a relative string is applied to the working directory. */
  lemma AbsPathMeaning(s: string, cwd: Path)
    requires IsNormal(cwd)
    ensures AbsPath(s, cwd) == NormFrom(if IsAbsolute(s) then [] else cwd, Split(s))
  {
    if !IsAbsolute(s) { JoinRender(cwd, s); }
  }

  /** Entering a plain child name appends exactly that segment. */
  lemma ResolveName(base: Path, name: string)
    requires IsNormal(base) && IsNormalSegment(name)
    ensures Resolve(base, name) == base + [name]
  {
    ResolveMeaning(base, name);
    SplitNoSlash(name);
    NormFromOne(base, name);
  }

  /** `..` names the parent, and at "/" stays at "/". */
  lemma ResolveDotDot(base: Path)
    requires IsNormal(base)
    ensures Resolve(base, "..") == Parent(base)
  {
    ResolveMeaning(base, "..");
    SplitNoSlash("..");
    NormFromOne(base, "..");
  }

  /** Joining a plain name to any string adds that segment to its absolute form. */
  lemma AbsPathJoinName(s: string, name: string, cwd: Path)
    requires IsNormal(cwd) && IsNormalSegment(name)
    ensures AbsPath(Join(s, name), cwd) == AbsPath(s, cwd) + [name]
  {
    var pre := if IsAbsolute(s) then [] else cwd;
    assert IsAbsolute(Join(s, name)) == IsAbsolute(s) by {
      if s == [] { assert Join(s, name) == name; }
    }
    AbsPathMeaning(s, cwd);
    AbsPathMeaning(Join(s, name), cwd);
    NormFromJoinName(pre, s, name);
  }

  /** The pieces of `join(s, name)` normalize to those of `s` followed by `name`. */
  lemma NormFromJoinName(acc: Path, s: string, name: string)
    requires IsNormalSegment(name)
    ensures NormFrom(acc, Split(Join(s, name))) == NormFrom(acc, Split(s)) + [name]
  {
    SplitNoSlash(name);
    if s == [] {
      assert Join(s, name) == name;
      NormFromOne(acc, "");
      NormFromOne(acc, name);
    } else if s[|s| - 1] == '/' {
      var s' := s[..|s| - 1];
      assert s == s' + "/" + "";
      assert Join(s, name) == s' + "/" + name;
      SplitAround(s', name);
      SplitAround(s', "");
      NormFromSnoc(acc, Split(s'), name);
      NormFromSnocEmpty(acc, Split(s'));
    } else {
      assert Join(s, name) == s + "/" + name;
      SplitAround(s, name);
      NormFromSnoc(acc, Split(s), name);
    }
  }

  lemma NormFromSnoc(acc: Path, comps: seq<string>, name: string)
    requires IsNormalSegment(name)
    ensures NormFrom(acc, comps + [name]) == NormFrom(acc, comps) + [name]
  {
    NormFromAppend(acc, comps, [name]);
    NormFromOne(NormFrom(acc, comps), name);
  }

  lemma NormFromSnocEmpty(acc: Path, comps: seq<string>)
    ensures NormFrom(acc, comps + [""]) == NormFrom(acc, comps)
  {
    NormFromAppend(acc, comps, [""]);
    NormFromOne(NormFrom(acc, comps), "");
  }

  // ---------------------------------------------------------------------------
  // dirname, commonpath, relpath

  /** `os.path.dirname` of a normalized absolute path; the parent of "/" is "/". */
  function Parent(p: Path): Path
  {
    if p == [] then [] else p[..|p| - 1]
  }

  /** The length of the longest common prefix of two segment lists. */
  function CommonPrefixLength(a: seq<string>, b: seq<string>): (n: nat)
    ensures n <= |a| && n <= |b| && a[..n] == b[..n]
    ensures n < |a| && n < |b| ==> a[n] != b[n]
  {
    if a == [] || b == [] || a[0] != b[0] then 0
    else
      var m := CommonPrefixLength(a[1..], b[1..]);
      assert a[..1 + m] == [a[0]] + a[1..][..m];
      assert b[..1 + m] == [b[0]] + b[1..][..m];
      1 + m
  }

  /** `os.path.commonpath([a, b])` for two normalized absolute paths. */
  function CommonPath(a: Path, b: Path): Path
  {
    a[..CommonPrefixLength(a, b)]
  }

  /** The explorer's security test `commonpath([root, p]) == root`, compared as strings. */
  predicate InRoot(root: Path, p: Path)
  {
    Render(CommonPath(root, p)) == Render(root)
  }

  /** The string test is exactly the segment-wise ancestor relation. */
  lemma InRootMeaning(root: Path, p: Path)
    ensures IsNormal(root) ==> (InRoot(root, p) <==> IsPrefix(root, p))
  {
    var n := CommonPrefixLength(root, p);
    if IsPrefix(root, p) {
      assert CommonPath(root, p) == root;
    }
    if IsNormal(root) && InRoot(root, p) {
      assert IsNormal(CommonPath(root, p)) by {
        forall i | 0 <= i < n ensures IsNormalSegment(CommonPath(root, p)[i]) {
          assert CommonPath(root, p)[i] == root[i];
        }
      }
      RenderInjective(CommonPath(root, p), root);
    }
  }

  /** Root "/data" does not contain the sibling "/data2" that shares its string prefix. */
  lemma SiblingIsNotInRoot()
    ensures !InRoot(["data"], Resolve(["data"], "/data2"))
  {
    var root: Path := ["data"];
    assert IsNormalSegment("data");
    assert "/data2" == "/" + "data2";
    SplitAround("", "data2");
    SplitNoSlash("data2");
    assert Split("/data2") == ["", "data2"];
    NormFromAppend([], [""], ["data2"]);
    NormFromOne([], "");
    NormFromOne([], "data2");
    assert Resolve(root, "/data2") == ["data2"];
    InRootMeaning(root, ["data2"]);
    assert !IsPrefix(root, ["data2"]) by { assert ["data2"][..1][0] == "data2" != "data"; }
  }

  /** `os.path.relpath(p, start)` for normalized absolute paths. */
  function RelPath(p: Path, start: Path): (rel: seq<string>)
    ensures rel != []
    ensures p == start ==> rel == ["."]
  {
    var n := CommonPrefixLength(start, p);
    var up := Repeat("..", |start| - n) + p[n..];
    if up == [] then ["."] else up
  }

  /** Resolving a relative path against its start gives the path back. */
  lemma RelPathRoundTrip(p: Path, start: Path)
    requires IsNormal(p)
    ensures NormFrom(start, RelPath(p, start)) == p
  {
    var n := CommonPrefixLength(start, p);
    var k := |start| - n;
    var tail := p[n..];
    assert p == p[..n] + tail;
    if k == 0 && tail == [] {
      assert RelPath(p, start) == ["."];
      NormFromOne(start, ".");
      assert start == start[..n] && p == p[..n];
    } else {
      assert |Repeat("..", k) + tail| > 0;
      assert RelPath(p, start) == Repeat("..", k) + tail;
      assert NormFrom(start, Repeat("..", k)) == p[..n] by {
        NormFromUp(start, k);
      }
      assert IsNormal(tail) by {
        forall i | 0 <= i < |tail| ensures IsNormalSegment(tail[i]) { assert tail[i] == p[n + i]; }
      }
      calc {
        NormFrom(start, Repeat("..", k) + tail);
        { NormFromAppend(start, Repeat("..", k), tail); }
        NormFrom(NormFrom(start, Repeat("..", k)), tail);
        NormFrom(p[..n], tail);
        { NormFromNormal(p[..n], tail); }
        p[..n] + tail;
      }
    }
  }

  /** A path below `start` is named by the segments below `start`. */
  lemma RelPathBelow(start: Path, rest: seq<string>)
    requires rest != []
    ensures RelPath(start + rest, start) == rest
  {
    var p := start + rest;
    var n := CommonPrefixLength(start, p);
    assert n == |start|;
    assert Repeat("..", 0) == [];
    assert p[n..] == rest;
  }
}
