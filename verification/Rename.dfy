/** rename(2) on file-system values, and what moving a subtree preserves. */
module Rename {
  import opened Paths
  import opened CopyTheory

  /** The subtree at `a` now sits at `b`, in place of whatever was there. */
  function Renamed(m: Fs, a: Path, b: Path): Fs {
    var moved := set p | p in m && Under(a, p) :: b + p[|a|..];
    (map p | p in m && !Under(a, p) && !Under(b, p) :: m[p])
    + (map q | q in moved && a + q[|b|..] in m :: m[a + q[|b|..]])
  }

  /** What rename accepts: never into itself; a directory only over an empty one, anything else
      only over a non-directory. */
  ghost predicate MayRename(m: Fs, a: Path, b: Path) {
    && a in m && !Under(a, b) && Ancestors(m, b)
    && (b in m ==> m[a].Dir? == m[b].Dir? && Entries(m, b) == {})
  }

  lemma RenamedGet(m: Fs, a: Path, b: Path, p: Path)
    ensures Get(Renamed(m, a, b), p) ==
      if Under(b, p) then Get(m, a + p[|b|..]) else if Under(a, p) then None else Get(m, p)
  {
    var moved := set q | q in m && Under(a, q) :: b + q[|a|..];
    if p in moved {
      var q :| q in m && Under(a, q) && p == b + q[|a|..];
      UnderSuffix(b, q[|a|..]);
      assert p[|b|..] == q[|a|..];
      assert a + p[|b|..] == q;
    } else if Under(b, p) && a + p[|b|..] in m {
      UnderSuffix(a, p[|b|..]);
      UnderSplit(b, p);
      var q := a + p[|b|..];
      assert b + q[|a|..] == p;
    }
  }

  lemma EmptyHasNothingBelow(m: Fs, d: Path, p: Path)
    requires WellFormed(m) && Entries(m, d) == {} && Under(d, p) && p in m
    ensures p == d
  {
    if p != d {
      UnderSplit(d, p);
      var n, t := SplitSuffix(d, p[|d|..]);
      UnderSuffix(Child(d, n), t);
      NothingBelow(m, Child(d, n), p);
      EntryIsChild(m, d, n);
    }
  }

  /** The two ends of a rename never lie below each other. */
  lemma MayRenameApart(m: Fs, a: Path, b: Path)
    requires WellFormed(m) && MayRename(m, a, b)
    ensures Apart(a, b)
  {
    if Under(b, a) {
      NothingBelow(m, b, a);
      EmptyHasNothingBelow(m, b, a);
      assert b[|b|..] == "";
    }
  }

  lemma RenamedSubtree(m: Fs, a: Path, b: Path, s: string)
    requires Suffix(s)
    ensures At(Renamed(m, a, b), b, s) == At(m, a, s)
    ensures Apart(a, b) ==> At(Renamed(m, a, b), a, s) == None
  {
    UnderSuffix(b, s);
    UnderSuffix(a, s);
    RenamedGet(m, a, b, b + s);
    RenamedGet(m, a, b, a + s);
    assert (b + s)[|b|..] == s;
    if Apart(a, b) {
      ApartSubtrees(a, b, s);
    }
  }

  lemma RenamedElsewhere(m: Fs, a: Path, b: Path, p: Path)
    requires !Under(a, p) && !Under(b, p)
    ensures Get(Renamed(m, a, b), p) == Get(m, p)
  {
    RenamedGet(m, a, b, p);
  }

  lemma RenamedAncestors(m: Fs, a: Path, b: Path, p: Path)
    requires WellFormed(m) && MayRename(m, a, b) && p in Renamed(m, a, b)
    ensures Ancestors(Renamed(m, a, b), p)
  {
    var m1 := Renamed(m, a, b);
    MayRenameApart(m, a, b);
    RenamedGet(m, a, b, p);
    forall k | 0 <= k < |p| && p[k] == '/'
      ensures p[..k] in m1 && m1[p[..k]] == Dir
    {
      var q := p[..k];
      assert p[|q|..][0] == '/' && Under(q, p);
      RenamedGet(m, a, b, q);
      if Under(b, p) {
        var s := p[|b|..];
        assert a + s in m && Ancestors(m, a + s);
        if k < |b| {
          assert b[k] == p[k] && b[..k] == q;
          assert q in m && m[q] == Dir;
          AboveDestination(a, b, q);
        } else {
          assert q == b + s[..k - |b|] && s[k - |b|] == '/';
          assert (a + s)[..|a| + k - |b|] == a + s[..k - |b|];
          UnderSuffix(b, s[..k - |b|]);
          assert q[|b|..] == s[..k - |b|];
        }
      } else {
        assert Ancestors(m, p);
        if Under(b, q) { UnderTransitive(b, q, p); }
        if Under(a, q) { UnderTransitive(a, q, p); }
      }
    }
  }

  /** A proper ancestor of the destination is neither below it nor below the source. */
  lemma AboveDestination(a: Path, b: Path, q: Path)
    requires Apart(a, b) && |q| < |b| && q == b[..|q|] && b[|q|] == '/'
    ensures !Under(b, q) && !Under(a, q)
  {
    assert b[|q|..][0] == '/';
    assert Under(q, b);
    if Under(a, q) { UnderTransitive(a, q, b); }
  }

  lemma RenamedWellFormed(m: Fs, a: Path, b: Path)
    requires WellFormed(m) && MayRename(m, a, b)
    ensures WellFormed(Renamed(m, a, b))
  {
    forall p | p in Renamed(m, a, b)
      ensures Ancestors(Renamed(m, a, b), p)
      ensures Renamed(m, a, b)[p].Link? ==> |Renamed(m, a, b)[p].target| < PATH_MAX
    {
      RenamedAncestors(m, a, b, p);
      RenamedGet(m, a, b, p);
    }
  }

  /** Moving a subtree to a free place and back changes nothing. */
  lemma RenameBack(m: Fs, a: Path, b: Path)
    requires WellFormed(m) && b !in m && Apart(a, b)
    ensures Renamed(Renamed(m, a, b), b, a) == m
  {
    var m1 := Renamed(m, a, b);
    var m2 := Renamed(m1, b, a);
    forall p
      ensures Get(m2, p) == Get(m, p)
    {
      RenamedGet(m1, b, a, p);
      RenamedGet(m, a, b, p);
      if Under(a, p) {
        UnderSplit(a, p);
        RenamedSubtree(m, a, b, p[|a|..]);
      } else if Under(b, p) {
        UnderSplit(b, p);
        NothingThere(m, b);
        assert At(m, b, p[|b|..]) == None;
      }
    }
    SameGets(m2, m);
  }

  lemma SameGets(m: Fs, n: Fs)
    requires forall p :: Get(m, p) == Get(n, p)
    ensures m == n
  {
    forall p
      ensures p in m <==> p in n
      ensures p in m ==> m[p] == n[p]
    {
      assert Get(m, p) == Get(n, p);
    }
  }

  /** As many leaves arrive as left. */
  lemma RenamedLeaves(m: Fs, a: Path, b: Path)
    ensures |Leaves(Renamed(m, a, b), b)| == |Leaves(m, a)|
  {
    var m1 := Renamed(m, a, b);
    forall p | p in Leaves(m, a)
      ensures b + p[|a|..] in Leaves(m1, b)
    {
      UnderSplit(a, p);
      RenamedSubtree(m, a, b, p[|a|..]);
      UnderSuffix(b, p[|a|..]);
      assert At(m1, b, p[|a|..]) == Get(m, p);
    }
    forall q | q in Leaves(m1, b)
      ensures a + q[|b|..] in Leaves(m, a) && b + (a + q[|b|..])[|a|..] == q
    {
      UnderSplit(b, q);
      RenamedSubtree(m, a, b, q[|b|..]);
      UnderSuffix(a, q[|b|..]);
      assert At(m1, b, q[|b|..]) == Get(m1, q);
    }
    SameSize(Leaves(m, a), Leaves(m1, b), a, b);
  }

  lemma {:induction false} SameSize(x: set<Path>, y: set<Path>, a: Path, b: Path)
    requires forall p :: p in x ==> a <= p && b + p[|a|..] in y
    requires forall q :: q in y ==> b <= q && a + q[|b|..] in x
    ensures |x| == |y|
  {
    if x == {} {
      if q :| q in y { assert a + q[|b|..] in x; }
    } else {
      var p :| p in x;
      var q := b + p[|a|..];
      assert q[|b|..] == p[|a|..] && p == a + p[|a|..];
      forall r | r in x - {p}
        ensures a <= r && b + r[|a|..] in y - {q}
      {
        assert r == a + r[|a|..];
        if b + r[|a|..] == q {
          assert (b + r[|a|..])[|b|..] == r[|a|..];
        }
      }
      forall r | r in y - {q}
        ensures b <= r && a + r[|b|..] in x - {p}
      {
        assert r == b + r[|b|..];
        if a + r[|b|..] == p {
          assert (a + r[|b|..])[|a|..] == r[|b|..];
        }
      }
      SameSize(x - {p}, y - {q}, a, b);
    }
  }
}
