/** The slash-separated paths of the modelled platform: Join and Dir, the two
    path/filepath operations the search and the deletion call, the depth measure
    strings.Count(p, "/"), and Ext, which the search never calls itself but which
    states the extension the library check reads from the whole path. Paths are
    compared as strings. */
module Paths {

  /** os.PathSeparator on the modelled (Unix) platform. */
  const Separator: char := '/'

  /** strings.Count(p, "/"): how many separators p holds. */
  function Depth(p: string): (n: nat)
    ensures n <= |p|
    ensures n == 0 <==> Separator !in p
  {
    if p == [] then 0
    else
      assert p == p[..|p| - 1] + [p[|p| - 1]];
      Depth(p[..|p| - 1]) + (if p[|p| - 1] == Separator then 1 else 0)
  }

  /** The depth of a path is the depth of any prefix plus the depth of the rest. */
  lemma {:induction false} DepthSplit(p: string, j: nat)
    requires j <= |p|
    ensures Depth(p) == Depth(p[..j]) + Depth(p[j..])
    decreases |p|
  {
    if j < |p| {
      var q := p[..|p| - 1];
      DepthSplit(q, j);
      assert q[..j] == p[..j];
      assert p[j..][..|p[j..]| - 1] == q[j..];
    } else {
      assert p[..j] == p;
      assert p[j..] == [];
    }
  }

  /** The index of the last separator of p, or -1 when p has none. */
  function LastSeparator(p: string): (i: int)
    ensures -1 <= i < |p|
    ensures i >= 0 ==> p[i] == Separator
    ensures forall j :: i < j < |p| ==> p[j] != Separator
  {
    if p == [] then -1
    else if p[|p| - 1] == Separator then |p| - 1
    else LastSeparator(p[..|p| - 1])
  }

  /** p without its trailing separators. */
  function TrimTrailingSeparators(p: string): (t: string)
    ensures t <= p
    ensures t == [] || t[|t| - 1] != Separator
    ensures forall j :: |t| <= j < |p| ==> p[j] == Separator
  {
    if p != [] && p[|p| - 1] == Separator then TrimTrailingSeparators(p[..|p| - 1]) else p
  }

  /** A measure that Dir decreases until it reaches its fixed points "." and "/". */
  function Rank(p: string): nat
  {
    if p == "." || p == "/" then 0 else |p| + 1
  }

  /** filepath.Dir: everything before the last separator with trailing separators
      dropped, "/" when only separators precede the last element, and "." when p
      holds no separator at all. Dir reaches a fixed point ("." or "/") by shrinking. */
  function Dir(p: string): (d: string)
    ensures d != p ==> Rank(d) < Rank(p)
    ensures d == p <==> p == "." || p == "/"
  {
    var i := LastSeparator(p);
    if i < 0 then "."
    else
      var t := TrimTrailingSeparators(p[..i]);
      if t == [] then "/" else t
  }

  /** filepath.Join(dir, name) for a single path element name: "" and "." contribute
      nothing, trailing separators of dir collapse into the one separator Join inserts. */
  function Join(dir: string, name: string): (p: string)
    ensures dir != "" && dir != "." ==> |p| > |name| && p[|p| - |name|..] == name
  {
    if dir == "" || dir == "." then name
    else
      var t := TrimTrailingSeparators(dir);
      if t == [] then [Separator] + name else t + [Separator] + name
  }

  /** filepath.Ext: the suffix of p from the last '.' of its final element, or "". */
  function Ext(p: string): (e: string)
    ensures e == [] || (e[0] == '.' && Separator !in e && '.' !in e[1..])
    ensures |e| <= |p| && e == p[|p| - |e|..]
  {
    if p == [] || p[|p| - 1] == Separator then ""
    else if p[|p| - 1] == '.' then "."
    else
      var e := Ext(p[..|p| - 1]);
      if e == [] then "" else e + [p[|p| - 1]]
  }

  /** Dir undoes Join: a file joined onto a directory lies directly in that directory,
      as the directory reads once its trailing separators are dropped. */
  lemma DirOfJoin(dir: string, name: string)
    requires name != [] && Separator !in name
    ensures Dir(Join(dir, name)) ==
              if dir == "" then "."
              else if TrimTrailingSeparators(dir) == [] then "/"
              else TrimTrailingSeparators(dir)
  {
    var p := Join(dir, name);
    if dir == "" || dir == "." {
      assert LastSeparator(p) == -1;
    } else {
      var t := TrimTrailingSeparators(dir);
      var k := LastSeparator(p);
      assert p[|t|] == Separator;
      assert k == |t|;
      assert p[..k] == t;
      assert TrimTrailingSeparators(t) == t;
    }
  }

  /** The comparator sortAndFilterDirs sorts with: x goes strictly before y when it has
      more separators, or as many and more characters. */
  predicate DeeperThan(x: string, y: string)
  {
    Depth(x) > Depth(y) || (Depth(x) == Depth(y) && |x| > |y|)
  }

  /** A directory sorts strictly before its parent, except for a one-character (or empty)
      relative name whose parent "." ties with it. */
  lemma ChildDeeperThanDir(p: string)
    requires Dir(p) != p
    ensures Separator in p || |p| >= 2 ==> DeeperThan(p, Dir(p))
  {
    var i := LastSeparator(p);
    if i >= 0 {
      var t := TrimTrailingSeparators(p[..i]);
      DepthSplit(p, i);
      assert p[i..][0] == Separator;
      assert Depth(p[i..]) >= 1 by {
        assert Separator in p[i..];
      }
      if t == [] {
        assert Depth("/") == 1;
      } else {
        DepthSplit(p[..i], |t|);
        assert p[..i][..|t|] == t;
      }
    } else {
      assert Depth(".") == 0;
    }
  }

  /** A path without a separator lies in ".". */
  lemma DirOfPlainName(p: string)
    requires Separator !in p
    ensures Dir(p) == "."
  {
  }
}
