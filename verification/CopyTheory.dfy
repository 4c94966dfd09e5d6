/** What a finished, failed or cancelled recursive copy leaves behind, on file-system values. */
module CopyTheory {
  import opened Paths
  import Conflict

  ghost predicate Covered(lost: set<Path>, p: Path) {
    exists l :: l in lost && Under(l, p)
  }

  /** The subtree at `b` is the one at `a` without the entries in `lost`. */
  ghost predicate MirrorExcept(m: Fs, a: Path, b: Path, lost: set<Path>) {
    forall s :: Suffix(s) ==> At(m, b, s) == if Covered(lost, a + s) then None else At(m, a, s)
  }

  ghost predicate Mirror(m: Fs, a: Path, b: Path) {
    forall s :: Suffix(s) ==> At(m, b, s) == At(m, a, s)
  }

  /** Whatever is at `b` is a complete copy of what is at the same place under `a`. */
  ghost predicate NoPartial(m: Fs, a: Path, b: Path) {
    forall s :: Suffix(s) && At(m, b, s) != None ==> At(m, b, s) == At(m, a, s)
  }

  ghost predicate Apart(a: Path, b: Path) { !Under(a, b) && !Under(b, a) }

  // ---------- directory reads that ended early ----------

  /** What the early-ended reads recorded between `e0` and `e1` left out. */
  ghost function Skips(e0: seq<set<Path>>, e1: seq<set<Path>>): set<Path> {
    set i, l | |e0| <= i < |e1| && l in e1[i] :: l
  }

  lemma SkipsSplit(e0: seq<set<Path>>, e1: seq<set<Path>>, e2: seq<set<Path>>)
    requires e0 <= e1 <= e2
    ensures Skips(e0, e2) == Skips(e0, e1) + Skips(e1, e2)
  {
    forall l
      ensures l in Skips(e0, e2) <==> l in Skips(e0, e1) || l in Skips(e1, e2)
    {
      if i :| |e0| <= i < |e2| && l in e2[i] {
        assert i < |e1| ==> e1[i] == e2[i];
      }
      if i :| |e0| <= i < |e1| && l in e1[i] {
        assert e1[i] == e2[i];
      }
    }
  }

  lemma NoSkips(e: seq<set<Path>>)
    ensures Skips(e, e) == {}
  {
  }

  /** A copy is exact exactly when no directory read ended early while it was made. */
  lemma ExactIffNoEarlyEnd(m0: Fs, m: Fs, a: Path, b: Path, e0: seq<set<Path>>, e1: seq<set<Path>>, clean: bool)
    requires CopyResult(m0, m, a, b, true, Skips(e0, e1), clean) && Apart(a, b)
    requires e0 <= e1 && forall e :: e in e1 ==> e != {}
    ensures Mirror(m, a, b) <==> e0 == e1
  {
    var lost := Skips(e0, e1);
    forall l | l in lost
      ensures l in m
    {
      UnderSplit(a, l);
      ApartSubtrees(a, b, l[|a|..]);
      assert Get(m, l) == Get(m0, l);
    }
    ExactIffNothingLost(m, a, b, lost);
    if |e0| < |e1| {
      assert e1[|e0|] in e1;
      var l :| l in e1[|e0|];
      assert l in lost;
    }
  }

  /** A copy without skipped entries is exact, and one with skipped entries is not. */
  lemma ExactIffNothingLost(m: Fs, a: Path, b: Path, lost: set<Path>)
    requires MirrorExcept(m, a, b, lost) && forall l :: l in lost ==> l in m && Under(a, l)
    ensures Mirror(m, a, b) <==> lost == {}
  {
    if l :| l in lost {
      UnderSplit(a, l);
      var s := l[|a|..];
      assert l[|l|..] == "";
      assert Covered(lost, a + s);
      assert At(m, b, s) == None && At(m, a, s) != None;
    }
  }

  /** Apart subtrees do not overlap. */
  lemma ApartSubtrees(a: Path, b: Path, s: string)
    requires Apart(a, b) && Suffix(s)
    ensures !Under(b, a + s)
  {
    UnderSuffix(a, s);
    if Under(b, a + s) {
      if |a| <= |b| { UnderComparable(a, b, a + s); } else { UnderComparable(b, a, a + s); }
    }
  }

  lemma ApartChildren(a: Path, b: Path, n: string)
    requires Apart(a, b)
    ensures Apart(Child(a, n), b) && Apart(a, Child(b, n)) && Apart(Child(a, n), Child(b, n))
  {
    UnderChild(a, n);
    UnderChild(b, n);
    ApartSubtrees(a, b, "/" + n);
    ApartSubtrees(b, a, "/" + n);
    assert a + ("/" + n) == Child(a, n) && b + ("/" + n) == Child(b, n);
    if Under(b, Child(a, n)) || Under(a, Child(b, n)) { assert false; }
    if Under(Child(a, n), b) { UnderTransitive(a, Child(a, n), b); }
    if Under(Child(b, n), a) { UnderTransitive(b, Child(b, n), a); }
    if Under(Child(a, n), Child(b, n)) { UnderTransitive(a, Child(a, n), Child(b, n)); }
    if Under(Child(b, n), Child(a, n)) { UnderTransitive(b, Child(b, n), Child(a, n)); }
  }

  /** Changes under `d` leave an apart subtree alone. */
  lemma ApartUnchanged(m0: Fs, m1: Fs, a: Path, d: Path)
    requires OnlyUnder(m0, m1, d) && Apart(a, d)
    ensures forall s :: Suffix(s) ==> At(m1, a, s) == At(m0, a, s)
    ensures Leaves(m1, a) == Leaves(m0, a)
  {
    forall s | Suffix(s)
      ensures At(m1, a, s) == At(m0, a, s)
    {
      ApartSubtrees(a, d, s);
    }
    SubtreeLeaves(m0, m1, a);
  }

  lemma NothingThere(m: Fs, b: Path)
    requires WellFormed(m) && b !in m
    ensures forall s :: Suffix(s) ==> At(m, b, s) == None
  {
    forall s | Suffix(s)
      ensures At(m, b, s) == None
    {
      UnderSuffix(b, s);
      if b + s in m {
        NothingBelow(m, b, b + s);
      }
    }
  }

  lemma NotDirNothingBelow(m: Fs, b: Path, s: string)
    requires WellFormed(m) && b in m && !m[b].Dir? && Suffix(s) && s != ""
    ensures At(m, b, s) == None
  {
    UnderSuffix(b, s);
    if b + s in m {
      NothingBelow(m, b, b + s);
    }
  }

  /** A single node, copied whole. */
  lemma LeafMirrors(m: Fs, a: Path, b: Path)
    requires WellFormed(m) && a in m && b in m && m[a] == m[b] && !m[a].Dir?
    ensures MirrorExcept(m, a, b, {}) && NoPartial(m, a, b)
  {
    forall s | Suffix(s)
      ensures At(m, b, s) == At(m, a, s)
    {
      if s != "" {
        NotDirNothingBelow(m, a, s);
        NotDirNothingBelow(m, b, s);
      } else {
        assert a + s == a && b + s == b;
      }
    }
  }

  lemma NothingIsNotPartial(m: Fs, a: Path, b: Path)
    requires WellFormed(m) && b !in m
    ensures NoPartial(m, a, b)
  {
    NothingThere(m, b);
  }

  // ---------- a directory, entry by entry ----------

  /** Skipped entries lie below names that are no longer to come. */
  ghost predicate LostElsewhere(lost: set<Path>, src: Path, rest: seq<string>) {
    forall l :: l in lost ==> exists n :: Slashless(n) && n !in rest && Under(Child(src, n), l)
  }

  /** The first `i` entries are copied, the others are not there yet. */
  ghost predicate Copied(m: Fs, src: Path, dst: Path, ns: seq<string>, i: nat, lost: set<Path>, ok: bool, clean: bool)
    requires i <= |ns|
  {
    && dst in m && m[dst].Dir?
    && (forall n :: Slashless(n) && n !in ns[..i] ==> Child(dst, n) !in m)
    && (ok ==> forall j :: 0 <= j < i ==> MirrorExcept(m, Child(src, ns[j]), Child(dst, ns[j]), lost))
    && (clean ==> forall j :: 0 <= j < i ==> NoPartial(m, Child(src, ns[j]), Child(dst, ns[j])))
  }

  /** Another sibling's copy, and what it skipped, do not disturb a finished one. */
  lemma SiblingKept(m0: Fs, m1: Fs, src: Path, dst: Path, n: string, k: string, lost: set<Path>, more: set<Path>)
    requires Slashless(n) && Slashless(k) && n != k
    requires Apart(src, dst) && OnlyUnder(m0, m1, Child(dst, k))
    requires forall l :: l in more ==> Under(Child(src, k), l)
    ensures MirrorExcept(m0, Child(src, n), Child(dst, n), lost) ==> MirrorExcept(m1, Child(src, n), Child(dst, n), lost + more)
    ensures NoPartial(m0, Child(src, n), Child(dst, n)) ==> NoPartial(m1, Child(src, n), Child(dst, n))
  {
    var a, b := Child(src, n), Child(dst, n);
    forall s | Suffix(s)
      ensures At(m1, a, s) == At(m0, a, s) && At(m1, b, s) == At(m0, b, s)
      ensures Covered(lost + more, a + s) == Covered(lost, a + s)
    {
      UnderSuffix(a, s);
      UnderSuffix(b, s);
      Siblings(dst, n, k, b + s);
      UnderChild(src, n);
      UnderChild(dst, k);
      ApartChildren(src, dst, n);
      if Under(Child(dst, k), a + s) {
        UnderTransitive(dst, Child(dst, k), a + s);
        ApartSubtrees(a, dst, s);
      }
      Siblings(src, n, k, a + s);
      if Covered(more, a + s) {
        var l :| l in more && Under(l, a + s);
        UnderTransitive(Child(src, k), l, a + s);
      }
      assert Covered(lost + more, a + s) <==> Covered(lost, a + s) || Covered(more, a + s);
    }
  }

  lemma NotLostHere(lost: set<Path>, src: Path, rest: seq<string>, k: string, s: string)
    requires LostElsewhere(lost, src, rest) && k in rest && Slashless(k) && Suffix(s)
    ensures !Covered(lost, Child(src, k) + s)
  {
    var p := Child(src, k) + s;
    UnderSuffix(Child(src, k), s);
    if Covered(lost, p) {
      var l :| l in lost && Under(l, p);
      var n :| Slashless(n) && n !in rest && Under(Child(src, n), l);
      UnderTransitive(Child(src, n), l, p);
      Siblings(src, k, n, p);
    }
  }

  lemma EntryMirrored(m: Fs, src: Path, b: Path, rest: seq<string>, k: string, lost: set<Path>, more: set<Path>)
    requires LostElsewhere(lost, src, rest) && k in rest && Slashless(k)
    requires MirrorExcept(m, Child(src, k), b, more)
    ensures MirrorExcept(m, Child(src, k), b, lost + more)
  {
    forall s | Suffix(s)
      ensures Covered(lost + more, Child(src, k) + s) == Covered(more, Child(src, k) + s)
    {
      NotLostHere(lost, src, rest, k, s);
      assert Covered(lost + more, Child(src, k) + s) <==>
        Covered(lost, Child(src, k) + s) || Covered(more, Child(src, k) + s);
    }
  }

  lemma LostAfterEntry(lost: set<Path>, more: set<Path>, src: Path, ns: seq<string>, i: nat)
    requires DistinctNames(ns) && i < |ns|
    requires LostElsewhere(lost, src, ns[i..])
    requires forall l :: l in more ==> Under(Child(src, ns[i]), l)
    ensures LostElsewhere(lost + more, src, ns[i + 1..])
  {
    assert ns[i] !in ns[i + 1..];
    forall l | l in lost + more
      ensures exists n :: Slashless(n) && n !in ns[i + 1..] && Under(Child(src, n), l)
    {
      if l in lost {
        var n :| Slashless(n) && n !in ns[i..] && Under(Child(src, n), l);
        assert forall j :: i + 1 <= j < |ns| ==> ns[j] == ns[i..][j - i];
        assert n !in ns[i + 1..];
      }
    }
  }

  lemma CopiedStep(m0: Fs, m1: Fs, src: Path, dst: Path, ns: seq<string>, i: nat,
                   lost: set<Path>, more: set<Path>, ok: bool, ok1: bool, clean: bool, clean1: bool)
    requires DistinctNames(ns) && i < |ns| && Apart(src, dst)
    requires Copied(m0, src, dst, ns, i, lost, ok, clean) && LostElsewhere(lost, src, ns[i..])
    requires OnlyUnder(m0, m1, Child(dst, ns[i]))
    requires forall l :: l in more ==> Under(Child(src, ns[i]), l)
    requires ok1 ==> ok && MirrorExcept(m1, Child(src, ns[i]), Child(dst, ns[i]), more)
    requires clean1 ==> clean && NoPartial(m1, Child(src, ns[i]), Child(dst, ns[i]))
    ensures Copied(m1, src, dst, ns, i + 1, lost + more, ok1, clean1)
  {
    NamesStillFree(m0, m1, dst, ns, i);
    EntriesKept(m0, m1, src, dst, ns, i, lost, more, ok1, clean1);
    if ok1 {
      assert ns[i] == ns[i..][0];
      EntryMirrored(m1, src, Child(dst, ns[i]), ns[i..], ns[i], lost, more);
    }
  }

  lemma NamesStillFree(m0: Fs, m1: Fs, dst: Path, ns: seq<string>, i: nat)
    requires i < |ns| && Slashless(ns[i]) && OnlyUnder(m0, m1, Child(dst, ns[i]))
    requires forall n :: Slashless(n) && n !in ns[..i] ==> Child(dst, n) !in m0
    ensures forall n :: Slashless(n) && n !in ns[..i + 1] ==> Child(dst, n) !in m1
    ensures Get(m1, dst) == Get(m0, dst)
  {
    UnderChild(dst, ns[i]);
    assert ns[..i + 1] == ns[..i] + [ns[i]];
    forall n | Slashless(n) && n !in ns[..i + 1]
      ensures Child(dst, n) !in m1
    {
      assert Child(dst, n) + "" == Child(dst, n);
      UnderSuffix(Child(dst, n), "");
      Siblings(dst, n, ns[i], Child(dst, n));
      assert Get(m1, Child(dst, n)) == Get(m0, Child(dst, n));
    }
  }

  lemma EntriesKept(m0: Fs, m1: Fs, src: Path, dst: Path, ns: seq<string>, i: nat,
                    lost: set<Path>, more: set<Path>, ok: bool, clean: bool)
    requires DistinctNames(ns) && i < |ns| && Apart(src, dst) && OnlyUnder(m0, m1, Child(dst, ns[i]))
    requires forall l :: l in more ==> Under(Child(src, ns[i]), l)
    requires ok ==> forall j :: 0 <= j < i ==> MirrorExcept(m0, Child(src, ns[j]), Child(dst, ns[j]), lost)
    requires clean ==> forall j :: 0 <= j < i ==> NoPartial(m0, Child(src, ns[j]), Child(dst, ns[j]))
    ensures ok ==> forall j :: 0 <= j < i ==> MirrorExcept(m1, Child(src, ns[j]), Child(dst, ns[j]), lost + more)
    ensures clean ==> forall j :: 0 <= j < i ==> NoPartial(m1, Child(src, ns[j]), Child(dst, ns[j]))
  {
    forall j | 0 <= j < i
      ensures ok ==> MirrorExcept(m1, Child(src, ns[j]), Child(dst, ns[j]), lost + more)
      ensures clean ==> NoPartial(m1, Child(src, ns[j]), Child(dst, ns[j]))
    {
      SiblingKept(m0, m1, src, dst, ns[j], ns[i], lost, more);
    }
  }

  /** All listed entries mirrored and the unlisted ones lost: the directory is mirrored. */
  lemma DirectoryMirrored(m: Fs, src: Path, dst: Path, ns: seq<string>, lost: set<Path>)
    requires WellFormed(m) && src in m && m[src].Dir? && DistinctNames(ns)
    requires Copied(m, src, dst, ns, |ns|, lost, true, false)
    requires forall n :: n in Entries(m, src) && n !in ns ==> Child(src, n) in lost
    requires forall l :: l in lost ==> Under(src, l) && l != src
    ensures MirrorExcept(m, src, dst, lost)
  {
    assert ns[..|ns|] == ns;
    forall s | Suffix(s)
      ensures At(m, dst, s) == if Covered(lost, src + s) then None else At(m, src, s)
    {
      if s == "" {
        assert src + s == src && dst + s == dst;
        if Covered(lost, src) {
          var l :| l in lost && Under(l, src);
        }
      } else {
        var n, t := SplitSuffix(src, s);
        assert dst + s == Child(dst, n) + t;
        if n in ns {
          var j :| 0 <= j < |ns| && ns[j] == n;
          assert MirrorExcept(m, Child(src, ns[j]), Child(dst, ns[j]), lost);
          assert At(m, dst, s) == At(m, Child(dst, n), t) && At(m, src, s) == At(m, Child(src, n), t);
        } else {
          UnlistedEntry(m, src, dst, n, t, lost);
        }
      }
    }
  }

  lemma UnlistedEntry(m: Fs, src: Path, dst: Path, n: string, t: string, lost: set<Path>)
    requires WellFormed(m) && Slashless(n) && Suffix(t) && Child(dst, n) !in m
    requires n in Entries(m, src) ==> Child(src, n) in lost
    ensures Child(dst, n) + t !in m
    ensures Child(src, n) + t in m ==> Covered(lost, Child(src, n) + t)
  {
    UnderSuffix(Child(dst, n), t);
    UnderSuffix(Child(src, n), t);
    NothingThere(m, Child(dst, n));
    assert At(m, Child(dst, n), t) == None;
    if Child(src, n) + t in m {
      NothingBelow(m, Child(src, n), Child(src, n) + t);
      EntryIsChild(m, src, n);
    }
  }

  lemma DirectoryNoPartial(m: Fs, src: Path, dst: Path, ns: seq<string>, i: nat, lost: set<Path>)
    requires WellFormed(m) && src in m && m[src].Dir? && DistinctNames(ns) && i <= |ns|
    requires Copied(m, src, dst, ns, i, lost, false, true)
    ensures NoPartial(m, src, dst)
  {
    forall s | Suffix(s) && At(m, dst, s) != None
      ensures At(m, dst, s) == At(m, src, s)
    {
      if s == "" {
        assert src + s == src && dst + s == dst;
      } else {
        var n, t := SplitSuffix(src, s);
        assert dst + s == Child(dst, n) + t;
        if n in ns[..i] {
          var j :| 0 <= j < i && ns[j] == n;
          assert NoPartial(m, Child(src, ns[j]), Child(dst, ns[j]));
          assert At(m, Child(dst, n), t) == At(m, Child(src, n), t);
        } else {
          NothingThere(m, Child(dst, n));
          assert At(m, Child(dst, n), t) == None;
        }
      }
    }
  }

  /** A listing that may have ended early names at most the leaves that are there. */
  lemma ListedLeaves(m: Fs, d: Path, ns: seq<string>)
    requires WellFormed(m) && d in m && m[d].Dir? && DistinctNames(ns)
    ensures LeafSum(m, d, ns) <= |Leaves(m, d)|
    ensures Lists(m, d, ns) ==> LeafSum(m, d, ns) == |Leaves(m, d)|
  {
    LeafSumCounts(m, d, ns);
    forall p | p in LeavesBelow(m, d, ns)
      ensures p in Leaves(m, d)
    {
      var i :| 0 <= i < |ns| && Under(Child(d, ns[i]), p);
      UnderChild(d, ns[i]);
      UnderTransitive(d, Child(d, ns[i]), p);
    }
    Conflict.SubsetSize(LeavesBelow(m, d, ns), Leaves(m, d));
    if Lists(m, d, ns) {
      DirectoryLeaves(m, d, ns);
    }
  }

  lemma {:induction false} LeafSumPrefix(m: Fs, d: Path, ns: seq<string>, i: nat)
    requires i <= |ns|
    ensures LeafSum(m, d, ns[..i]) <= LeafSum(m, d, ns)
    decreases |ns|
  {
    if i < |ns| {
      LeafSumPrefix(m, d, ns[..|ns| - 1], i);
      assert ns[..|ns| - 1][..i] == ns[..i];
    } else {
      assert ns[..i] == ns;
    }
  }

  lemma LeafCountOfLeaf(m: Fs, p: Path)
    requires WellFormed(m) && p in m && !m[p].Dir?
    ensures |Leaves(m, p)| == 1
  {
    assert p[|p|..] == "";
    forall q
      ensures q in Leaves(m, p) <==> q == p
    {
      if q in Leaves(m, p) {
        NothingBelow(m, p, q);
      }
    }
    assert Leaves(m, p) == {p};
  }

  // ---------- the contract of a recursive copy ----------

  /** From `m0` to `m1`, `src` was copied to the free place `dst`; `lost` are the entries no directory
      read reported, and `clean` says that no read, write or clean-up failed. */
  ghost predicate CopyResult(m0: Fs, m1: Fs, src: Path, dst: Path, ok: bool, lost: set<Path>, clean: bool) {
    && OnlyUnder(m0, m1, dst)
    && (ok ==> src in m0 && MirrorExcept(m1, src, dst, lost))
    && (clean ==> NoPartial(m1, src, dst))
    && (forall l :: l in lost ==> l in m0 && Under(src, l) && l != src)
  }

  /** The state of a directory copy before its `i`-th entry. */
  ghost predicate AtEntry(m0: Fs, m: Fs, src: Path, dst: Path, ns: seq<string>, i: nat, lost: set<Path>, ok: bool, clean: bool)
    requires i <= |ns|
  {
    && OnlyUnder(m0, m, dst)
    && Copied(m, src, dst, ns, i, lost, ok, clean)
    && LostElsewhere(lost, src, ns[i..])
    && (forall l :: l in lost ==> l in m0 && Under(src, l) && l != src)
  }

  lemma AtEntryFails(m0: Fs, m: Fs, src: Path, dst: Path, ns: seq<string>, i: nat, lost: set<Path>, ok: bool, clean: bool)
    requires i <= |ns| && AtEntry(m0, m, src, dst, ns, i, lost, ok, clean)
    ensures AtEntry(m0, m, src, dst, ns, i, lost, false, clean)
  {
  }

  ghost function Unreported(src: Path, missed: set<string>): set<Path> {
    set n | n in missed :: Child(src, n)
  }

  lemma FirstEntry(m0: Fs, src: Path, dst: Path, ns: seq<string>, missed: set<string>)
    requires WellFormed(m0) && dst !in m0 && DistinctNames(ns)
    requires missed == Entries(m0, src) - (set n | n in ns)
    requires OnlyUnder(m0, m0[dst := Dir], dst)
    ensures AtEntry(m0, m0[dst := Dir], src, dst, ns, 0, Unreported(src, missed), true, true)
  {
    var m := m0[dst := Dir];
    forall n | Slashless(n)
      ensures Child(dst, n) !in m
    {
      UnderChild(dst, n);
      if Child(dst, n) in m0 {
        NothingBelow(m0, dst, Child(dst, n));
      }
    }
    assert ns[0..] == ns;
    forall l | l in Unreported(src, missed)
      ensures l in m0 && Under(src, l) && l != src
      ensures exists n :: Slashless(n) && n !in ns && Under(Child(src, n), l)
    {
      var n :| n in missed && l == Child(src, n);
      EntryIsChild(m0, src, n);
      UnderChild(src, n);
      assert l[|l|..] == "";
    }
  }

  /** The reads recorded by listing one directory. */
  lemma SkipsOfOneRead(e0: seq<set<Path>>, e1: seq<set<Path>>, src: Path, missed: set<string>)
    requires e1 == if missed == {} then e0 else e0 + [Unreported(src, missed)]
    ensures Skips(e0, e1) == Unreported(src, missed)
  {
    assert missed != {} ==> e1[|e0|] == Unreported(src, missed);
  }

  lemma NextEntry(m0: Fs, m1: Fs, m2: Fs, src: Path, dst: Path, ns: seq<string>, i: nat, lost: set<Path>, more: set<Path>,
                  ok: bool, ok1: bool, clean: bool, clean1: bool)
    requires WellFormed(m0) && DistinctNames(ns) && i < |ns| && Apart(src, dst)
    requires AtEntry(m0, m1, src, dst, ns, i, lost, ok, clean)
    requires CopyResult(m1, m2, Child(src, ns[i]), Child(dst, ns[i]), ok1, more, clean1)
    requires clean1 ==> clean
    ensures AtEntry(m0, m2, src, dst, ns, i + 1, lost + more, ok && ok1, clean1)
  {
    var n := ns[i];
    UnderChild(dst, n);
    UnderChild(src, n);
    OnlyUnderTransitive(m0, m1, m2, dst, Child(dst, n));
    CopiedStep(m1, m2, src, dst, ns, i, lost, more, ok, ok && ok1, clean, clean1);
    LostAfterEntry(lost, more, src, ns, i);
    forall l | l in more
      ensures l in m0 && Under(src, l) && l != src
    {
      UnderTransitive(src, Child(src, n), l);
      UnderSplit(src, l);
      ApartSubtrees(src, dst, l[|src|..]);
      assert Get(m1, l) == Get(m0, l);
    }
  }

  lemma LastEntry(m0: Fs, m: Fs, src: Path, dst: Path, ns: seq<string>, i: nat, missed: set<string>, lost: set<Path>, ok: bool, clean: bool)
    requires WellFormed(m0) && WellFormed(m) && Apart(src, dst) && src in m0 && m0[src].Dir? && DistinctNames(ns) && i <= |ns|
    requires AtEntry(m0, m, src, dst, ns, i, lost, ok, clean)
    requires missed == Entries(m0, src) - (set n | n in ns) && Unreported(src, missed) <= lost
    requires ok ==> i == |ns|
    ensures CopyResult(m0, m, src, dst, ok, lost, clean)
  {
    ApartUnchanged(m0, m, src, dst);
    assert src + "" == src;
    assert At(m, src, "") == At(m0, src, "");
    if clean {
      DirectoryNoPartial(m, src, dst, ns, i, lost);
    }
    if ok {
      forall n | n in Entries(m, src) && n !in ns
        ensures Child(src, n) in lost
      {
        EntryIsChild(m, src, n);
        EntryIsChild(m0, src, n);
        assert Child(src, n) == src + ("/" + n);
        assert At(m, src, "/" + n) == At(m0, src, "/" + n);
        assert n in missed;
      }
      DirectoryMirrored(m, src, dst, ns, lost);
    }
  }

  // ---------- counting along a directory copy ----------

  lemma NextLeaves(m0: Fs, m1: Fs, src: Path, dst: Path, ns: seq<string>, i: nat)
    requires Apart(src, dst) && OnlyUnder(m0, m1, dst) && i < |ns|
    ensures Apart(Child(src, ns[i]), Child(dst, ns[i]))
    ensures LeafSum(m0, src, ns[..i + 1]) == LeafSum(m0, src, ns[..i]) + |Leaves(m1, Child(src, ns[i]))|
  {
    ApartChildren(src, dst, ns[i]);
    ApartUnchanged(m0, m1, Child(src, ns[i]), dst);
    assert ns[..i + 1][..i] == ns[..i];
  }

  lemma PrefixLeaves(m: Fs, src: Path, ns: seq<string>, i: nat)
    requires WellFormed(m) && src in m && m[src].Dir? && DistinctNames(ns) && i <= |ns|
    ensures LeafSum(m, src, ns[..i]) <= |Leaves(m, src)|
    ensures i == |ns| && Lists(m, src, ns) ==> LeafSum(m, src, ns[..i]) == |Leaves(m, src)|
  {
    ListedLeaves(m, src, ns);
    LeafSumPrefix(m, src, ns, i);
    assert ns[..|ns|] == ns;
  }

  /** A directory read that missed nothing listed everything. */
  lemma NothingMissed(m: Fs, src: Path, ns: seq<string>, missed: set<string>)
    requires DistinctNames(ns) && (forall n :: n in ns ==> n in Entries(m, src))
    requires missed == Entries(m, src) - (set n | n in ns) && missed == {}
    ensures Lists(m, src, ns)
  {
    forall n
      ensures n in ns <==> n in Entries(m, src)
    {
      if n in Entries(m, src) && n !in ns {
        assert n in missed;
      }
    }
  }

  /** Room left below a path whose subtree has bounded path lengths. */
  function Room(bound: nat, p: Path): nat {
    if |p| <= bound then bound - |p| else 0
  }

  /** A bound on the lengths of all paths. */
  ghost function Longest(m: Fs): (n: nat)
    ensures forall p :: p in m ==> |p| <= n
  {
    if m == map[] then 0
    else
      var p :| p in m;
      var k := Longest(m - {p});
      assert forall q :: q in m && q != p ==> q in m - {p};
      if |p| <= k then k else |p|
  }

  ghost predicate Bounded(m: Fs, a: Path, bound: nat) {
    forall p :: p in m && Under(a, p) ==> |p| <= bound
  }

  lemma BoundedEntry(m0: Fs, m1: Fs, src: Path, dst: Path, n: string, bound: nat)
    requires Apart(src, dst) && OnlyUnder(m0, m1, dst) && Bounded(m0, src, bound) && n in Entries(m0, src)
    ensures Bounded(m1, Child(src, n), bound) && Child(src, n) in m1 && Room(bound, Child(src, n)) < Room(bound, src)
  {
    EntryIsChild(m0, src, n);
    UnderChild(src, n);
    forall p | p in m1 && Under(Child(src, n), p)
      ensures |p| <= bound
    {
      UnderTransitive(src, Child(src, n), p);
      UnderSplit(src, p);
      ApartSubtrees(src, dst, p[|src|..]);
      assert Get(m1, p) == Get(m0, p);
    }
    UnderSplit(src, Child(src, n));
    ApartSubtrees(src, dst, Child(src, n)[|src|..]);
    assert Get(m1, Child(src, n)) == Get(m0, Child(src, n));
    assert |Child(src, n)| <= bound;
  }

  // ---------- several sources into one directory ----------

  ghost predicate SameSubtree(m0: Fs, m1: Fs, a: Path) {
    forall s :: Suffix(s) ==> At(m1, a, s) == At(m0, a, s)
  }

  lemma SameSubtreeFacts(m0: Fs, m1: Fs, a: Path)
    requires SameSubtree(m0, m1, a)
    ensures Leaves(m1, a) == Leaves(m0, a) && (a in m1 <==> a in m0)
  {
    SubtreeLeaves(m0, m1, a);
    assert a + "" == a;
    assert At(m1, a, "") == At(m0, a, "");
  }

  lemma SameSubtreeAfter(m0: Fs, m1: Fs, m2: Fs, a: Path, d: Path)
    requires SameSubtree(m0, m1, a) && OnlyUnder(m1, m2, d) && Apart(a, d)
    ensures SameSubtree(m0, m2, a)
  {
    ApartUnchanged(m1, m2, a, d);
    forall s | Suffix(s)
      ensures At(m2, a, s) == At(m0, a, s)
    {
      assert At(m2, a, s) == At(m1, a, s);
    }
  }

  /** A source that is neither above the target directory nor the new entry itself. */
  ghost predicate SourceFor(m: Fs, src: Path, dir: Path) {
    !Under(src, dir) && (src in m || !Under(dir, src))
  }

  lemma SourceNotAbove(m: Fs, src: Path, dir: Path, n: string)
    requires SourceFor(m, src, dir) && Slashless(n) && src != Child(dir, n)
    ensures !Under(src, Child(dir, n))
  {
    var q := Child(dir, n);
    UnderChild(dir, n);
    if Under(src, q) {
      if |src| <= |dir| {
        UnderComparable(src, dir, q);
      } else {
        UnderComparable(dir, src, q);
        assert q[|src|..][0] == '/' && q[|src|] == n[|src| - |dir| - 1];
      }
    }
  }

  /** A new entry of the target directory is apart from every source. */
  lemma SourceApart(m: Fs, src: Path, dir: Path, n: string)
    requires WellFormed(m) && SourceFor(m, src, dir) && Slashless(n) && Child(dir, n) !in m
    ensures Apart(src, Child(dir, n))
  {
    var q := Child(dir, n);
    UnderChild(dir, n);
    if src == q {
      assert false;
    }
    SourceNotAbove(m, src, dir, n);
    if Under(q, src) {
      UnderTransitive(dir, q, src);
      NothingBelow(m, q, src);
    }
  }

  function LeafTotal(m: Fs, srcs: seq<Path>): nat {
    if srcs == [] then 0 else LeafTotal(m, srcs[..|srcs| - 1]) + |Leaves(m, srcs[|srcs| - 1])|
  }

  lemma LeafTotalNext(m: Fs, srcs: seq<Path>, i: nat)
    requires i < |srcs|
    ensures LeafTotal(m, srcs[..i + 1]) == LeafTotal(m, srcs[..i]) + |Leaves(m, srcs[i])|
  {
    assert srcs[..i + 1][..i] == srcs[..i];
  }

  lemma {:induction false} LeafTotalPrefix(m: Fs, srcs: seq<Path>, i: nat)
    requires i <= |srcs|
    ensures LeafTotal(m, srcs[..i]) <= LeafTotal(m, srcs)
    decreases |srcs|
  {
    if i < |srcs| {
      LeafTotalPrefix(m, srcs[..|srcs| - 1], i);
      assert srcs[..|srcs| - 1][..i] == srcs[..i];
    } else {
      assert srcs[..i] == srcs;
    }
  }
}
