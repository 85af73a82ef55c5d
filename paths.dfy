/**
 * Slash-separated object paths, as Go's path/filepath treats them on a Unix
 * host: Clean, Join, Dir, Base and Ext. A path is read as the list of its
 * '/'-separated elements; Clean drops empty and "." elements and lets ".."
 * cancel the element before it.
 */
module Paths {

  /** A path element that Clean keeps unchanged. */
  predicate IsName(s: string) {
    s != "" && s != "." && s != ".." && '/' !in s
  }

  predicate AllNames(segs: seq<string>) {
    forall k :: 0 <= k < |segs| ==> IsName(segs[k])
  }

  // ---- elements ----

  /** strings.Split(p, "/"): the elements between the slashes, empty ones included. */
  function Split(p: string): (r: seq<string>)
    ensures |r| >= 1
    ensures forall k :: 0 <= k < |r| ==> '/' !in r[k]
    decreases |p|
  {
    if p == [] then [""]
    else
      var rest := Split(p[1..]);
      if p[0] == '/' then [""] + rest else [[p[0]] + rest[0]] + rest[1..]
  }

  /** strings.Join(segs, "/"). */
  function JoinSegs(segs: seq<string>): string
    decreases |segs|
  {
    if segs == [] then "" else if |segs| == 1 then segs[0] else segs[0] + "/" + JoinSegs(segs[1..])
  }

  lemma {:induction false} SplitPrefix(a: string, r: string)
    requires '/' !in a
    ensures Split(a + r) == [a + Split(r)[0]] + Split(r)[1..]
    decreases |a|
  {
    if a != [] {
      assert (a + r)[1..] == a[1..] + r;
      SplitPrefix(a[1..], r);
      assert [a[0]] + (a[1..] + Split(r)[0]) == a + Split(r)[0];
    } else {
      assert a + r == r;
      assert a + Split(r)[0] == Split(r)[0];
      assert [Split(r)[0]] + Split(r)[1..] == Split(r);
    }
  }

  /** Joining elements that hold no slash and splitting again gives the elements back. */
  lemma {:induction false} SplitJoinSegs(segs: seq<string>)
    requires |segs| >= 1
    requires forall k :: 0 <= k < |segs| ==> '/' !in segs[k]
    ensures Split(JoinSegs(segs)) == segs
    decreases |segs|
  {
    if |segs| == 1 {
      SplitPrefix(segs[0], "");
      assert segs[0] + "" == segs[0];
    } else {
      var tail := JoinSegs(segs[1..]);
      SplitJoinSegs(segs[1..]);
      assert JoinSegs(segs) == segs[0] + ("/" + tail);
      SplitPrefix(segs[0], "/" + tail);
      assert ("/" + tail)[1..] == tail;
      assert Split("/" + tail) == [""] + segs[1..];
      assert segs[0] + "" == segs[0];
      assert segs == [segs[0]] + segs[1..];
    }
  }

  lemma {:induction false} JoinSegsAppend(a: seq<string>, b: seq<string>)
    requires a != [] && b != []
    ensures JoinSegs(a + b) == JoinSegs(a) + "/" + JoinSegs(b)
    decreases |a|
  {
    if |a| == 1 {
      assert (a + b)[1..] == b;
    } else {
      assert (a + b)[1..] == a[1..] + b;
      JoinSegsAppend(a[1..], b);
    }
  }

  // ---- Clean ----

  /** One element of Clean's lexical processing, applied to the elements kept so far. */
  function Step(kept: seq<string>, seg: string, rooted: bool): seq<string> {
    if seg == "" || seg == "." then kept
    else if seg == ".." then
      if |kept| > 0 && kept[|kept| - 1] != ".." then kept[..|kept| - 1]
      else if rooted then kept
      else kept + [".."]
    else kept + [seg]
  }

  function Fold(kept: seq<string>, segs: seq<string>, rooted: bool): seq<string>
    decreases |segs|
  {
    if segs == [] then kept else Fold(Step(kept, segs[0], rooted), segs[1..], rooted)
  }

  /**
   * filepath.Clean: the shortest lexically equivalent path; "." for an empty
   * result. The result is never empty, and it is rooted exactly when `p` is.
   */
  function Clean(p: string): (r: string)
    ensures r != []
    ensures (p != [] && p[0] == '/') <==> r[0] == '/'
  {
    var rooted := p != [] && p[0] == '/';
    var kept := Fold([], Split(p), rooted);
    var out := JoinSegs(kept);
    if rooted then "/" + out
    else if out == "" then "."
    else
      FoldKeepsNormal([], Split(p), rooted);
      NormalHasNoSlash(kept, rooted);
      JoinSegsStartsWithFirst(kept);
      assert kept[0][0] in kept[0];
      out
  }

  /** The shape of what Clean keeps: names, preceded (only when not rooted) by ".." elements. */
  predicate Normal(segs: seq<string>, rooted: bool) {
    forall i :: 0 <= i < |segs| ==>
      IsName(segs[i]) || (segs[i] == ".." && !rooted && forall j :: 0 <= j < i ==> segs[j] == "..")
  }

  lemma {:induction false} FoldNormal(kept: seq<string>, segs: seq<string>, rooted: bool)
    requires Normal(kept + segs, rooted)
    ensures Fold(kept, segs, rooted) == kept + segs
    decreases |segs|
  {
    if segs != [] {
      var s := segs[0];
      assert (kept + segs)[|kept|] == s;
      if s == ".." {
        forall j | 0 <= j < |kept| ensures kept[j] == ".." {
          assert (kept + segs)[j] == kept[j];
        }
      }
      assert Step(kept, s, rooted) == kept + [s];
      assert kept + [s] + segs[1..] == kept + segs;
      FoldNormal(kept + [s], segs[1..], rooted);
    }
  }

  lemma {:induction false} FoldKeepsNormal(kept: seq<string>, segs: seq<string>, rooted: bool)
    requires Normal(kept, rooted)
    requires forall k :: 0 <= k < |segs| ==> '/' !in segs[k]
    ensures Normal(Fold(kept, segs, rooted), rooted)
    decreases |segs|
  {
    if segs != [] {
      var next := Step(kept, segs[0], rooted);
      assert Normal(next, rooted) by {
        if segs[0] == ".." && |kept| > 0 && kept[|kept| - 1] != ".." {
          assert next == kept[..|kept| - 1];
        }
      }
      FoldKeepsNormal(next, segs[1..], rooted);
    }
  }

  /** Cleaning a path made only of names changes nothing. */
  lemma CleanNames(segs: seq<string>)
    requires segs != [] && AllNames(segs)
    ensures Clean(JoinSegs(segs)) == JoinSegs(segs)
  {
    SplitJoinSegs(segs);
    FoldNormal([], segs, false);
    assert [] + segs == segs;
    assert JoinSegs(segs) != [] && JoinSegs(segs)[0] != '/' by {
      JoinSegsStartsWithFirst(segs);
    }
  }

  lemma {:induction false} JoinSegsStartsWithFirst(segs: seq<string>)
    requires segs != [] && segs[0] != ""
    ensures JoinSegs(segs) != [] && JoinSegs(segs)[0] == segs[0][0]
  {
  }

  /** Clean is idempotent: a cleaned path is already clean. */
  lemma CleanIdempotent(p: string)
    ensures Clean(Clean(p)) == Clean(p)
  {
    var rooted := p != [] && p[0] == '/';
    var kept := Fold([], Split(p), rooted);
    FoldKeepsNormal([], Split(p), rooted);
    var out := JoinSegs(kept);
    if kept == [] {
      if rooted {
        assert Clean(p) == "/";
        assert Split("/") == ["", ""];
      } else {
        assert Clean(p) == ".";
        assert "."[1..] == "" && Split("") == [""];
        assert Split(".") == [['.'] + ""];
        assert ['.'] + "" == ".";
      }
    } else {
      NormalHasNoSlash(kept, rooted);
      SplitJoinSegs(kept);
      FoldNormal([], kept, rooted);
      assert [] + kept == kept;
      JoinSegsStartsWithFirst(kept);
      if rooted {
        assert Clean(p) == "/" + out;
        assert Split("/" + out) == [""] + kept;
        assert Fold([], [""] + kept, true) == Fold([], kept, true);
      } else {
        assert out[0] != '/';
        assert Clean(p) == out;
      }
    }
  }

  lemma NormalHasNoSlash(segs: seq<string>, rooted: bool)
    requires Normal(segs, rooted)
    ensures forall k :: 0 <= k < |segs| ==> '/' !in segs[k] && segs[k] != ""
  {
  }

  // ---- Join, Dir, Base, Ext ----

  /**
   * filepath.Join: the elements from the first non-empty one on, joined with
   * '/' and cleaned. The result is "" exactly when every element is empty,
   * and otherwise a clean path.
   */
  function Join(elems: seq<string>): (r: string)
    ensures r == "" <==> forall k :: 0 <= k < |elems| ==> elems[k] == ""
    ensures r != "" ==> Clean(r) == r
    decreases |elems|
  {
    if elems == [] then ""
    else if elems[0] == "" then
      assert forall k :: 1 <= k < |elems| ==> elems[k] == elems[1..][k - 1];
      Join(elems[1..])
    else
      CleanIdempotent(JoinSegs(elems));
      Clean(JoinSegs(elems))
  }

  /** The index of the last '/', or -1. */
  function LastSlash(p: string): (i: int)
    ensures -1 <= i < |p|
    ensures i >= 0 ==> p[i] == '/'
    ensures i < 0 ==> '/' !in p
    ensures forall k :: i < k < |p| ==> p[k] != '/'
    decreases |p|
  {
    if p == [] then -1
    else if p[|p| - 1] == '/' then |p| - 1
    else
      assert p == p[..|p| - 1] + [p[|p| - 1]];
      LastSlash(p[..|p| - 1])
  }

  /** filepath.Dir: everything before the last element, cleaned; never empty and already clean. */
  function Dir(p: string): (d: string)
    ensures d != "" && Clean(d) == d
  {
    CleanIdempotent(p[..LastSlash(p) + 1]);
    Clean(p[..LastSlash(p) + 1])
  }

  function TrimTrailingSlashes(p: string): (q: string)
    ensures q == [] || q[|q| - 1] != '/'
    decreases |p|
  {
    if p != [] && p[|p| - 1] == '/' then TrimTrailingSlashes(p[..|p| - 1]) else p
  }

  /**
   * filepath.Base: the last element, ignoring trailing slashes; "." for ""
   * and "/" for slashes only. The result is never empty, and it is a single
   * element unless it is the root.
   */
  function Base(p: string): (b: string)
    ensures b != "" && (b == "/" || '/' !in b)
  {
    if p == [] then "."
    else
      var q := TrimTrailingSlashes(p);
      if q == [] then "/" else q[LastSlash(q) + 1..]
  }

  /** filepath.Ext: the suffix from the last '.' of the final element, or "". */
  function Ext(p: string): (e: string)
    ensures e == [] || (e[0] == '.' && '.' !in e[1..])
    ensures '/' !in e
    ensures |e| <= |p| && e == p[|p| - |e|..]
    decreases |p|
  {
    if p == [] || p[|p| - 1] == '/' then ""
    else if p[|p| - 1] == '.' then "."
    else
      var e := Ext(p[..|p| - 1]);
      if e == "" then "" else e + [p[|p| - 1]]
  }

  // ---- the facts the handlers rely on ----

  lemma {:induction false} LastSlashAfter(a: string, n: string)
    requires '/' !in n
    ensures LastSlash(a + "/" + n) == |a|
    decreases |n|
  {
    if n != [] {
      var p := a + "/" + n;
      assert p[..|p| - 1] == a + "/" + n[..|n| - 1];
      LastSlashAfter(a, n[..|n| - 1]);
    } else {
      assert a + "/" + n == a + "/";
    }
  }

  /** Under a directory made of names, Dir and Base split off the final name. */
  lemma DirBaseOfJoined(dirs: seq<string>, name: string)
    requires dirs != [] && AllNames(dirs) && IsName(name)
    ensures Dir(JoinSegs(dirs + [name])) == JoinSegs(dirs)
    ensures Base(JoinSegs(dirs + [name])) == name
  {
    var d := JoinSegs(dirs);
    var p := JoinSegs(dirs + [name]);
    JoinSegsAppend(dirs, [name]);
    assert p == d + "/" + name;
    LastSlashAfter(d, name);
    assert p[..|d| + 1] == d + "/";
    // Dir: the cleaned directory part is the directory itself
    var withEmpty := dirs + [""];
    forall k | 0 <= k < |withEmpty| ensures '/' !in withEmpty[k] {
      if k < |dirs| { assert withEmpty[k] == dirs[k]; }
    }
    SplitJoinSegs(withEmpty);
    JoinSegsAppend(dirs, [""]);
    assert JoinSegs(withEmpty) == d + "/";
    FoldNormal([], dirs, false);
    assert [] + dirs == dirs;
    FoldAppend([], dirs, [""], false);
    JoinSegsStartsWithFirst(dirs);
    assert Clean(d + "/") == d;
    // Base: no trailing slash, and the last slash sits right before the name
    assert p[|p| - 1] == name[|name| - 1];
    assert p[|d| + 1..] == name;
  }

  lemma {:induction false} FoldAppend(kept: seq<string>, a: seq<string>, b: seq<string>, rooted: bool)
    ensures Fold(kept, a + b, rooted) == Fold(Fold(kept, a, rooted), b, rooted)
    decreases |a|
  {
    if a != [] {
      assert (a + b)[0] == a[0] && (a + b)[1..] == a[1..] + b;
      FoldAppend(Step(kept, a[0], rooted), a[1..], b, rooted);
    } else {
      assert a + b == b;
    }
  }

  /** A bare name has directory "." and is its own base. */
  lemma DirBaseOfName(name: string)
    requires IsName(name)
    ensures Dir(name) == "."
    ensures Base(name) == name
  {
    assert name[..0] == "";
    assert Split("") == [""];
  }

  /** Joining names under "images" is plain concatenation with slashes. */
  lemma JoinUnder(root: string, segs: seq<string>)
    requires IsName(root) && segs != [] && AllNames(segs)
    ensures Join([root, JoinSegs(segs)]) == root + "/" + JoinSegs(segs)
  {
    var all := [root] + segs;
    JoinSegsAppend([root], segs);
    assert AllNames(all) by {
      forall k | 0 <= k < |all| ensures IsName(all[k]) {
        if k > 0 { assert all[k] == segs[k - 1]; }
      }
    }
    CleanNames(all);
    assert JoinSegs([root, JoinSegs(segs)]) == root + "/" + JoinSegs(segs);
  }

  /** A ".." element climbs out of the first directory: Join("images", "../x") is "x". */
  lemma JoinClimbsOut(root: string, name: string)
    requires IsName(root) && IsName(name)
    ensures Join([root, "../" + name]) == name
  {
    var p := root + "/" + ("../" + name);
    assert JoinSegs([root, "../" + name]) == p;
    assert JoinSegs([name]) == name;
    assert JoinSegs(["..", name]) == ".." + "/" + name == "../" + name;
    assert p == JoinSegs([root, "..", name]);
    SplitJoinSegs([root, "..", name]);
    assert p[0] != '/';
    assert Fold([], [name], false) == [name];
    assert Fold([root], ["..", name], false) == [name] by {
      assert Step([root], "..", false) == [];
      assert ["..", name][1..] == [name];
    }
    assert Fold([], [root, "..", name], false) == Fold([root], ["..", name], false) by {
      assert Step([], root, false) == [root];
      assert [root, "..", name][1..] == ["..", name];
    }
  }
}
