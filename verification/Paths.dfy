/** Paths as strings, and a file system as a map from paths to nodes.
    The root is the empty string, so every other path is a directory, a slash and a name. */
module Paths {

  datatype Option<+T> = None | Some(value: T)

  datatype Node = File(data: string) | Link(target: string) | Dir

  type Path = string
  type Fs = map<Path, Node>

  const PATH_MAX: nat := 4096

  predicate Slashless(n: string) {
    forall i :: 0 <= i < |n| ==> n[i] != '/'
  }

  function Child(d: Path, n: string): Path { d + "/" + n }

  /** What may follow a path inside its subtree. */
  predicate Suffix(s: string) { s == "" || s[0] == '/' }

  predicate Under(a: Path, p: Path) { a <= p && Suffix(p[|a|..]) }

  function Get(m: Fs, p: Path): Option<Node> { if p in m then Some(m[p]) else None }

  function At(m: Fs, a: Path, s: string): Option<Node> { Get(m, a + s) }

  predicate Ancestors(m: Fs, p: Path) {
    forall k :: 0 <= k < |p| && p[k] == '/' ==> p[..k] in m && m[p[..k]] == Dir
  }

  /** Everything lies in a directory, and the kernel never stores a link target of PATH_MAX bytes. */
  ghost predicate WellFormed(m: Fs) {
    && (forall p :: p in m ==> Ancestors(m, p))
    && (forall p :: p in m && m[p].Link? ==> |m[p].target| < PATH_MAX)
  }

  /** `m1` differs from `m0` at most inside the subtree of `d`. */
  ghost predicate OnlyUnder(m0: Fs, m1: Fs, d: Path) {
    forall p :: !Under(d, p) ==> Get(m1, p) == Get(m0, p)
  }

  // ---------- prefixes ----------

  lemma UnderSplit(a: Path, p: Path)
    requires Under(a, p)
    ensures p == a + p[|a|..]
  {
  }

  lemma UnderSuffix(a: Path, s: string)
    requires Suffix(s)
    ensures Under(a, a + s)
  {
    assert (a + s)[|a|..] == s;
  }

  lemma UnderTransitive(a: Path, b: Path, p: Path)
    requires Under(a, b) && Under(b, p)
    ensures Under(a, p)
  {
    if |a| < |b| {
      assert p[|a|..][0] == b[|a|..][0];
    }
  }

  lemma UnderChild(d: Path, n: string)
    ensures Under(d, Child(d, n)) && !Under(Child(d, n), d)
  {
    assert Child(d, n)[|d|..] == "/" + n;
  }

  /** Two paths above a common one lie one above the other. */
  lemma UnderComparable(a: Path, b: Path, p: Path)
    requires Under(a, p) && Under(b, p) && |a| <= |b|
    ensures Under(a, b)
  {
    if |a| < |b| {
      assert b[|a|..][0] == p[|a|..][0];
    }
  }

  lemma Siblings(d: Path, n1: string, n2: string, p: Path)
    requires Slashless(n1) && Slashless(n2) && n1 != n2 && Under(Child(d, n1), p)
    ensures !Under(Child(d, n2), p)
  {
    var a, b := Child(d, n1), Child(d, n2);
    if Under(b, p) {
      if |a| < |b| {
        assert b[|a|] == p[|a|] == p[|a|..][0] == '/' && b[|a|] == n2[|a| - |d| - 1];
      } else if |b| < |a| {
        assert a[|b|] == p[|b|] == p[|b|..][0] == '/' && a[|b|] == n1[|b| - |d| - 1];
      } else {
        assert a == p[..|a|] == b;
        assert n1 == a[|d| + 1..] && n2 == b[|d| + 1..];
      }
    }
  }

  // ---------- the first name of a suffix ----------

  function NameEnd(s: string, i: nat): (k: nat)
    requires i <= |s|
    ensures i <= k <= |s|
    ensures forall j :: i <= j < k ==> s[j] != '/'
    ensures k < |s| ==> s[k] == '/'
    decreases |s| - i
  {
    if i == |s| || s[i] == '/' then i else NameEnd(s, i + 1)
  }

  lemma SplitSuffix(d: Path, s: string) returns (n: string, t: string)
    requires Suffix(s) && s != ""
    ensures Slashless(n) && Suffix(t) && s == "/" + n + t && d + s == Child(d, n) + t
  {
    var k := NameEnd(s, 1);
    n, t := s[1..k], s[k..];
    assert s == s[..1] + s[1..k] + s[k..];
  }

  // ---------- trees ----------

  lemma NothingBelow(m: Fs, d: Path, p: Path)
    requires WellFormed(m) && Under(d, p) && p in m
    ensures d in m && (p != d ==> m[d] == Dir)
  {
    if p != d {
      assert p[|d|] == p[|d|..][0] == '/' && p[..|d|] == d;
    }
  }

  /** Adding a node where its parent directory exists and nothing is. */
  lemma AddKeepsWellFormed(m: Fs, p: Path, x: Node)
    requires WellFormed(m) && Ancestors(m, p) && (p in m ==> !m[p].Dir?)
    requires x.Link? ==> |x.target| < PATH_MAX
    ensures WellFormed(m[p := x]) && OnlyUnder(m, m[p := x], p)
  {
    var m1 := m[p := x];
    forall q | q in m1
      ensures Ancestors(m1, q)
    {
      forall k | 0 <= k < |q| && q[k] == '/'
        ensures q[..k] in m1 && m1[q[..k]] == Dir
      {
        assert Ancestors(m, q);
      }
    }
    assert p[|p|..] == "";
  }

  lemma EntryAncestors(m: Fs, d: Path, n: string)
    requires WellFormed(m) && d in m && m[d].Dir? && Slashless(n)
    ensures Ancestors(m, Child(d, n))
  {
    var p := Child(d, n);
    assert p[|d| + 1..] == n;
    forall k | 0 <= k < |p| && p[k] == '/'
      ensures p[..k] in m && m[p[..k]] == Dir
    {
      if k < |d| {
        assert p[..k] == d[..k] && d[k] == '/' && Ancestors(m, d);
      } else {
        assert p[..k] == d;
      }
    }
  }

  /** Removing a node that has nothing below it. */
  lemma RemoveKeepsWellFormed(m: Fs, p: Path)
    requires WellFormed(m) && forall q :: q in m && Under(p, q) ==> q == p
    ensures WellFormed(m - {p}) && OnlyUnder(m, m - {p}, p)
  {
    var m1 := m - {p};
    forall q | q in m1
      ensures Ancestors(m1, q)
    {
      forall k | 0 <= k < |q| && q[k] == '/'
        ensures q[..k] in m1 && m1[q[..k]] == Dir
      {
        assert Ancestors(m, q);
        assert q[|q[..k]|..][0] == '/';
        assert Under(q[..k], q);
      }
    }
    assert p[|p|..] == "";
  }

  lemma OnlyUnderTransitive(m0: Fs, m1: Fs, m2: Fs, d: Path, e: Path)
    requires OnlyUnder(m0, m1, d) && OnlyUnder(m1, m2, e) && Under(d, e)
    ensures OnlyUnder(m0, m2, d)
  {
    forall p | !Under(d, p)
      ensures Get(m2, p) == Get(m0, p)
    {
      if Under(e, p) {
        UnderTransitive(d, e, p);
      }
    }
  }

  // ---------- leaves ----------

  /** What the file counters count: everything in the subtree that is not a directory. */
  function Leaves(m: Fs, a: Path): set<Path> {
    set p | p in m && Under(a, p) && !m[p].Dir?
  }

  predicate DistinctNames(ns: seq<string>) {
    && (forall i :: 0 <= i < |ns| ==> Slashless(ns[i]))
    && (forall i, j :: 0 <= i < j < |ns| ==> ns[i] != ns[j])
  }

  function LeafSum(m: Fs, d: Path, ns: seq<string>): nat {
    if ns == [] then 0 else LeafSum(m, d, ns[..|ns| - 1]) + |Leaves(m, Child(d, ns[|ns| - 1]))|
  }

  function LeavesBelow(m: Fs, d: Path, ns: seq<string>): set<Path> {
    set p | p in m && !m[p].Dir? && exists i :: 0 <= i < |ns| && Under(Child(d, ns[i]), p)
  }

  lemma LastNameLeaves(m: Fs, d: Path, ns: seq<string>, n: string)
    requires DistinctNames(ns + [n])
    ensures LeavesBelow(m, d, ns) !! Leaves(m, Child(d, n))
    ensures LeavesBelow(m, d, ns + [n]) == LeavesBelow(m, d, ns) + Leaves(m, Child(d, n))
  {
    var ms, k := ns + [n], |ns|;
    forall p | p in LeavesBelow(m, d, ns)
      ensures p !in Leaves(m, Child(d, n)) && p in LeavesBelow(m, d, ms)
    {
      var i :| 0 <= i < k && Under(Child(d, ns[i]), p);
      assert ms[i] == ns[i] && ms[k] == n;
      Siblings(d, ns[i], n, p);
    }
    forall p | p in Leaves(m, Child(d, n))
      ensures p in LeavesBelow(m, d, ms)
    {
      assert ms[k] == n;
    }
    forall p | p in LeavesBelow(m, d, ms)
      ensures p in LeavesBelow(m, d, ns) || p in Leaves(m, Child(d, n))
    {
      var i :| 0 <= i < |ms| && Under(Child(d, ms[i]), p);
      assert i < k ==> ms[i] == ns[i];
    }
  }

  lemma {:induction false} LeafSumCounts(m: Fs, d: Path, ns: seq<string>)
    requires DistinctNames(ns)
    ensures LeafSum(m, d, ns) == |LeavesBelow(m, d, ns)|
    decreases |ns|
  {
    if ns == [] {
      assert LeavesBelow(m, d, ns) == {};
    } else {
      var k := |ns| - 1;
      LeafSumCounts(m, d, ns[..k]);
      assert ns == ns[..k] + [ns[k]];
      LastNameLeaves(m, d, ns[..k], ns[k]);
    }
  }

  /** The names of a directory's entries. */
  function Entries(m: Fs, d: Path): set<string> {
    set p | p in m && |p| > |d| && d + "/" <= p && Slashless(p[|d| + 1..]) :: p[|d| + 1..]
  }

  lemma EntryIsChild(m: Fs, d: Path, n: string)
    ensures n in Entries(m, d) <==> Slashless(n) && Child(d, n) in m
  {
    if Slashless(n) && Child(d, n) in m {
      var p := Child(d, n);
      assert p[|d| + 1..] == n && p[..|d| + 1] == d + "/";
    }
    if n in Entries(m, d) {
      var p :| p in m && |p| > |d| && d + "/" <= p && Slashless(p[|d| + 1..]) && n == p[|d| + 1..];
      assert p == Child(d, n);
    }
  }

  /** A listing of a directory, in whatever order. */
  ghost predicate Lists(m: Fs, d: Path, ns: seq<string>) {
    DistinctNames(ns) && forall n :: n in ns <==> n in Entries(m, d)
  }

  lemma DirectoryLeaves(m: Fs, d: Path, ns: seq<string>)
    requires WellFormed(m) && d in m && m[d].Dir? && Lists(m, d, ns)
    ensures |Leaves(m, d)| == LeafSum(m, d, ns)
  {
    LeafSumCounts(m, d, ns);
    forall p
      ensures p in Leaves(m, d) <==> p in LeavesBelow(m, d, ns)
    {
      if p in Leaves(m, d) {
        UnderSplit(d, p);
        assert p != d;
        var n, t := SplitSuffix(d, p[|d|..]);
        UnderSuffix(Child(d, n), t);
        NothingBelow(m, Child(d, n), p);
        EntryIsChild(m, d, n);
        var i :| 0 <= i < |ns| && ns[i] == n;
        assert Under(Child(d, ns[i]), p);
      }
      if p in LeavesBelow(m, d, ns) {
        var i :| 0 <= i < |ns| && Under(Child(d, ns[i]), p);
        UnderChild(d, ns[i]);
        UnderTransitive(d, Child(d, ns[i]), p);
      }
    }
    assert Leaves(m, d) == LeavesBelow(m, d, ns);
  }

  lemma SubtreeLeaves(m0: Fs, m1: Fs, a: Path)
    requires forall s :: Suffix(s) ==> At(m0, a, s) == At(m1, a, s)
    ensures Leaves(m0, a) == Leaves(m1, a)
  {
    forall p | Under(a, p)
      ensures Get(m0, p) == Get(m1, p)
    {
      UnderSplit(a, p);
      assert At(m0, a, p[|a|..]) == At(m1, a, p[|a|..]);
    }
    assert forall p :: Under(a, p) ==> Get(m0, p) == Get(m1, p);
  }
}
