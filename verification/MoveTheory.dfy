/** Where the items of a move go and what survives it, on file-system values. */
module MoveTheory {
  import opened Paths
  import opened CopyTheory
  import opened Conflict
  import opened Rename
  import opened Steps

  datatype RenameResult = Moved | CrossDevice | Failed

  /** The name an item is asked to have in the target directory. */
  function Target(src: Path, dir: Path): Path { Child(dir, src[DirLen(src)..]) }

  /** It keeps its name. */
  lemma TargetText(d: string, n: string, dir: Path)
    requires (d == "" || d[|d| - 1] == '/') && Slashless(n)
    ensures Target(d + n, dir) == dir + "/" + n
  {
    assert (d + n)[|d|..] == n && (d + n)[..|d|] == d;
    DirLenUnique(d + n, |d|);
  }

  // ---------- one item ----------

  /** Every leaf that was at `src` is intact there or at `d`, unless a copy skipped it. */
  ghost predicate Survives(m0: Fs, m: Fs, src: Path, d: Path, lost: set<Path>) {
    forall s :: Suffix(s) && At(m0, src, s).Some? && !At(m0, src, s).value.Dir? ==>
      At(m, src, s) == At(m0, src, s) || At(m, d, s) == At(m0, src, s) || Covered(lost, src + s)
  }

  /** The item survives every recorded state. */
  ghost predicate AllSurvive(log0: seq<Fs>, log1: seq<Fs>, m0: Fs, src: Path, d: Path, lost: set<Path>) {
    log0 <= log1 && forall i :: |log0| <= i < |log1| ==> Survives(m0, log1[i], src, d, lost)
  }

  /** What is lost lies below the item and was left out by a directory read that ended early in between. */
  ghost predicate Explained(m0: Fs, src: Path, lost: set<Path>, e0: seq<set<Path>>, e1: seq<set<Path>>) {
    lost <= Skips(e0, e1) && forall l :: l in lost ==> l in m0 && Under(src, l) && l != src
  }

  ghost predicate Elsewhere(m0: Fs, m1: Fs, a: Path, b: Path) {
    forall p :: !Under(a, p) && !Under(b, p) ==> Get(m1, p) == Get(m0, p)
  }

  ghost predicate AllElsewhere(log0: seq<Fs>, log1: seq<Fs>, m0: Fs, a: Path, b: Path) {
    log0 <= log1 && forall i :: |log0| <= i < |log1| ==> Elsewhere(m0, log1[i], a, b)
  }

  /** What was at `src` is at `d`, without what was skipped. */
  ghost predicate Arrived(m0: Fs, m: Fs, src: Path, d: Path, lost: set<Path>) {
    forall s :: Suffix(s) ==> At(m, d, s) == if Covered(lost, src + s) then None else At(m0, src, s)
  }

  /** Whatever is at `d` is a complete copy of what was at the same place of `src`. */
  ghost predicate Whole(m0: Fs, m: Fs, src: Path, d: Path) {
    forall s :: Suffix(s) && At(m, d, s) != None ==> At(m, d, s) == At(m0, src, s)
  }

  /** Where an item may go: nowhere, over an entry that rename accepts, or to a free entry. */
  ghost predicate MovesTo(m0: Fs, src: Path, dir: Path, d: Path) {
    || d == src
    || (src != Target(src, dir) && d == Target(src, dir) && MayRename(m0, src, d))
    || (src != Target(src, dir) && d == Resolved(m0, Target(src, dir)) && d !in m0)
  }

  /** Only the item and its place change; a success brings it there, a failure leaves it whole. */
  ghost predicate MoveResult(m0: Fs, m: Fs, src: Path, dir: Path, d: Path, lost: set<Path>, ok: bool) {
    && Survives(m0, m, src, d, lost)
    && MovesTo(m0, src, dir, d)
    && (forall p :: !Under(d, p) && (!Under(src, p) || p in m) ==> Get(m, p) == Get(m0, p))
    && (d == src ==> m == m0)
    && (d in m0 ==> d in m) && (d in m || SameSubtree(m0, m, src))
    && (if ok then Arrived(m0, m, src, d, lost) && (d == src ==> src == Target(src, dir)) else SameSubtree(m0, m, src))
  }

  /** Once the original is gone, exactly the skipped leaves are nowhere. */
  lemma GoneIffSkipped(m0: Fs, m: Fs, src: Path, dir: Path, d: Path, lost: set<Path>, s: string)
    requires WellFormed(m) && MoveResult(m0, m, src, dir, d, lost, true) && src !in m
    requires Suffix(s) && At(m0, src, s).Some?
    ensures At(m, d, s) != At(m0, src, s) && At(m, src, s) == None <==> Covered(lost, src + s)
  {
    NothingThere(m, src);
  }

  lemma StaysInPlace(m: Fs, l: seq<Fs>, src: Path, dir: Path, e: seq<set<Path>>)
    requires src == Target(src, dir)
    ensures MoveResult(m, m, src, dir, src, {}, true)
    ensures AllSurvive(l, l, m, src, src, {}) && AllElsewhere(l, l, m, src, src) && Whole(m, m, src, src)
    ensures forall e1 :: Explained(m, src, {}, e, e1)
  {
  }

  lemma NotMoved(m: Fs, l: seq<Fs>, src: Path, dir: Path, e: seq<set<Path>>)
    ensures MoveResult(m, m, src, dir, src, {}, false)
    ensures AllSurvive(l, l, m, src, src, {}) && AllElsewhere(l, l, m, src, src) && Whole(m, m, src, src)
    ensures forall e1 :: Explained(m, src, {}, e, e1)
  {
  }

  lemma RenamedArrives(m: Fs, src: Path, d: Path)
    ensures Arrived(m, Renamed(m, src, d), src, d, {}) && Survives(m, Renamed(m, src, d), src, d, {})
    ensures Whole(m, Renamed(m, src, d), src, d)
    ensures Elsewhere(m, Renamed(m, src, d), src, d)
  {
    var m1 := Renamed(m, src, d);
    forall s | Suffix(s)
      ensures At(m1, d, s) == At(m, src, s)
    {
      RenamedSubtree(m, src, d, s);
    }
    forall p | !Under(src, p) && !Under(d, p)
      ensures Get(m1, p) == Get(m, p)
    {
      RenamedElsewhere(m, src, d, p);
    }
  }

  lemma RenamedResult(m: Fs, src: Path, dir: Path)
    requires WellFormed(m) && MayRename(m, src, Target(src, dir))
    ensures var d := Target(src, dir); var m1 := Renamed(m, src, d);
      MoveResult(m, m1, src, dir, d, {}, true) && src !in m1 && d in m1
  {
    var d := Target(src, dir);
    var m1 := Renamed(m, src, d);
    MayRenameApart(m, src, d);
    RenamedArrives(m, src, d);
    RenamedSubtree(m, src, d, "");
    assert src + "" == src && d + "" == d;
    hide Survives, Elsewhere, Arrived, MayRename, SameSubtree, Renamed, Apart;
    forall p | !Under(d, p) && (!Under(src, p) || p in m1)
      ensures Get(m1, p) == Get(m, p)
    {
      RenamedGet(m, src, d, p);
    }
  }

  lemma RenamedLogged(m: Fs, l: seq<Fs>, src: Path, d: Path)
    ensures var m1 := Renamed(m, src, d); AllSurvive(l, l + [m1], m, src, d, {}) && AllElsewhere(l, l + [m1], m, src, d) && Whole(m, m1, src, d)
  {
    RenamedArrives(m, src, d);
    hide Survives, Elsewhere, Arrived, Renamed, Whole;
  }

  lemma RenamedOutcome(m: Fs, l: seq<Fs>, src: Path, dir: Path)
    requires WellFormed(m) && MayRename(m, src, Target(src, dir))
    ensures var d := Target(src, dir); var m1 := Renamed(m, src, d);
      && MoveResult(m, m1, src, dir, d, {}, true) && m1 == MovedItem(m, src, dir)
      && AllSurvive(l, l + [m1], m, src, d, {}) && AllElsewhere(l, l + [m1], m, src, d) && Whole(m, m1, src, d)
      && src !in m1 && d in m1 && |Leaves(m1, d)| == |Leaves(m, src)|
  {
    var d := Target(src, dir);
    assert src != d by {
      MayRenameApart(m, src, d);
      assert src[|src|..] == "";
    }
    hide MoveResult, Survives, Elsewhere, Arrived, Renamed, MayRename, WellFormed, Leaves, AllSurvive, AllElsewhere, Target, Whole;
    RenamedResult(m, src, dir);
    RenamedLogged(m, l, src, d);
    RenamedLeaves(m, src, d);
  }

  /** While the copy runs the source is whole. */
  lemma CopyLogged(m0: Fs, m1: Fs, l0: seq<Fs>, l1: seq<Fs>, src: Path, d: Path, lost: set<Path>)
    requires Apart(src, d) && OnlyUnder(m0, m1, d) && Within(l0, l1, m0, d)
    ensures AllSurvive(l0, l1, m0, src, d, lost) && Survives(m0, m1, src, d, lost)
    ensures AllElsewhere(l0, l1, m0, src, d) && Elsewhere(m0, m1, src, d) && SameSubtree(m0, m1, src)
  {
    ApartUnchanged(m0, m1, src, d);
    forall i | |l0| <= i < |l1|
      ensures Survives(m0, l1[i], src, d, lost)
    {
      ApartUnchanged(m0, l1[i], src, d);
    }
  }

  /** While the original is deleted the copy is whole. */
  lemma CopiedSurvives(m0: Fs, m1: Fs, m2: Fs, src: Path, d: Path, lost: set<Path>)
    requires Apart(src, d) && OnlyUnder(m0, m1, d) && MirrorExcept(m1, src, d, lost) && OnlyUnder(m1, m2, src)
    ensures Arrived(m0, m2, src, d, lost) && Survives(m0, m2, src, d, lost) && Elsewhere(m0, m2, src, d)
  {
    ApartUnchanged(m0, m1, src, d);
    ApartUnchanged(m1, m2, d, src);
    forall s | Suffix(s)
      ensures At(m2, d, s) == if Covered(lost, src + s) then None else At(m0, src, s)
    {
      assert At(m2, d, s) == At(m1, d, s) && At(m1, src, s) == At(m0, src, s);
    }
  }

  lemma DeleteLogged(m0: Fs, m1: Fs, m2: Fs, l0: seq<Fs>, l1: seq<Fs>, l2: seq<Fs>, src: Path, d: Path, lost: set<Path>)
    requires Apart(src, d) && OnlyUnder(m0, m1, d) && MirrorExcept(m1, src, d, lost)
    requires OnlyUnder(m1, m2, src) && Within(l1, l2, m1, src)
    requires AllSurvive(l0, l1, m0, src, d, lost) && AllElsewhere(l0, l1, m0, src, d)
    ensures AllSurvive(l0, l2, m0, src, d, lost) && AllElsewhere(l0, l2, m0, src, d)
    ensures Arrived(m0, m2, src, d, lost) && Survives(m0, m2, src, d, lost) && Elsewhere(m0, m2, src, d)
  {
    CopiedSurvives(m0, m1, m2, src, d, lost);
    forall i | |l0| <= i < |l2|
      ensures Survives(m0, l2[i], src, d, lost) && Elsewhere(m0, l2[i], src, d)
    {
      if i < |l1| {
        assert l2[i] == l1[i];
      } else {
        CopiedSurvives(m0, m1, l2[i], src, d, lost);
      }
    }
  }

  /** Copy, and on success delete: `m1` is the state in between. */
  lemma AcrossOutcome(m0: Fs, m1: Fs, m2: Fs, src: Path, dir: Path, d: Path, lost: set<Path>, ok: bool)
    requires src != Target(src, dir) && d == Resolved(m0, Target(src, dir)) && d !in m0 && Apart(src, d)
    requires OnlyUnder(m0, m1, d) && forall l :: l in lost ==> l in m0 && Under(src, l) && l != src
    requires if ok then src in m0 && MirrorExcept(m1, src, d, lost) && OnlyUnder(m1, m2, src) && Shrinks(m1, m2) else m2 == m1
    ensures MoveResult(m0, m2, src, dir, d, lost, ok)
  {
    ApartUnchanged(m0, m1, src, d);
    assert src[|src|..] == "";
    if ok {
      CopiedSurvives(m0, m1, m2, src, d, lost);
      assert src + "" == src && d + "" == d;
      assert At(m2, d, "") == At(m0, src, "");
    }
    forall p | !Under(d, p) && (!Under(src, p) || p in m2)
      ensures Get(m2, p) == Get(m0, p)
    {
      assert Get(m1, p) == Get(m0, p);
    }
  }

  /** Changes under two places leave a subtree apart from both alone. */
  lemma ElsewhereSame(m0: Fs, m1: Fs, a: Path, b: Path, c: Path)
    requires Elsewhere(m0, m1, a, b) && Apart(c, a) && Apart(c, b)
    ensures SameSubtree(m0, m1, c)
  {
    forall s | Suffix(s)
      ensures At(m1, c, s) == At(m0, c, s)
    {
      ApartSubtrees(c, a, s);
      ApartSubtrees(c, b, s);
    }
  }

  lemma SameTwice(m0: Fs, m1: Fs, m2: Fs, a: Path)
    requires SameSubtree(m0, m1, a) && SameSubtree(m1, m2, a)
    ensures SameSubtree(m0, m2, a)
  {
    forall s | Suffix(s)
      ensures At(m2, a, s) == At(m0, a, s)
    {
      assert At(m1, a, s) == At(m0, a, s);
    }
  }

  lemma SurvivesSame(m0: Fs, m1: Fs, m: Fs, src: Path, d: Path, lost: set<Path>)
    requires SameSubtree(m0, m1, src) && Survives(m1, m, src, d, lost)
    ensures Survives(m0, m, src, d, lost)
  {
    forall s | Suffix(s)
      ensures At(m0, src, s) == At(m1, src, s)
    {
    }
  }

  lemma NotAbove(src: Path, dir: Path, n: string)
    requires !Under(src, dir) && Slashless(n) && src != Child(dir, n)
    ensures !Under(src, Child(dir, n))
  {
    SourceNotAbove(map[src := Dir], src, dir, n);
  }

  lemma ExplainedSince(m0: Fs, m1: Fs, src: Path, lost: set<Path>, e0: seq<set<Path>>, e1: seq<set<Path>>, e2: seq<set<Path>>)
    requires e0 <= e1 <= e2 && SameSubtree(m0, m1, src) && Explained(m1, src, lost, e1, e2)
    ensures Explained(m0, src, lost, e0, e2)
  {
    hide Skips, Suffix;
    SkipsSplit(e0, e1, e2);
    forall l | l in lost
      ensures l in m0
    {
      UnderSplit(src, l);
      assert Suffix(l[|src|..]);
      assert At(m1, src, l[|src|..]) == At(m0, src, l[|src|..]);
    }
  }

  lemma NothingToExplain(m: Fs, src: Path, e0: seq<set<Path>>, e1: seq<set<Path>>)
    ensures Explained(m, src, {}, e0, e1)
  {
  }

  lemma NothingLeftOut(m: Fs, src: Path, lost: set<Path>, e: seq<set<Path>>)
    requires Explained(m, src, lost, e, e)
    ensures lost == {}
  {
    NoSkips(e);
  }

  lemma ArrivedSince(m0: Fs, m1: Fs, m2: Fs, src: Path, dst: Path, lost: set<Path>)
    requires SameSubtree(m0, m1, src) && Arrived(m1, m2, src, dst, lost)
    ensures Arrived(m0, m2, src, dst, lost)
  {
    forall s | Suffix(s)
      ensures At(m0, src, s) == At(m1, src, s)
    {
    }
  }

  /** What exec_move's rename does to one item. */
  ghost function MovedItem(m: Fs, src: Path, dir: Path): Fs {
    var t := Target(src, dir);
    if src != t && MayRename(m, src, t) then Renamed(m, src, t) else m
  }

  /** A complete copy whose original is deleted is a rename. */
  lemma CopiedAndDeleted(m0: Fs, m1: Fs, m2: Fs, src: Path, dst: Path)
    requires WellFormed(m0) && WellFormed(m2) && dst !in m0 && Apart(src, dst)
    requires OnlyUnder(m0, m1, dst) && Mirror(m1, src, dst)
    requires OnlyUnder(m1, m2, src) && src !in m2
    ensures m2 == Renamed(m0, src, dst)
  {
    forall p
      ensures Get(m2, p) == Get(Renamed(m0, src, dst), p)
    {
      RenamedGet(m0, src, dst, p);
      if Under(dst, p) {
        var s := p[|dst|..];
        UnderSplit(dst, p);
        ApartSubtrees(src, dst, s);
        assert At(m1, dst, s) == At(m1, src, s);
      } else if Under(src, p) {
        UnderSplit(src, p);
        NothingThere(m2, src);
        assert At(m2, src, p[|src|..]) == None;
      }
    }
    SameGets(m2, Renamed(m0, src, dst));
  }

  /** Nothing can be put where no directory leads. */
  lemma NoWayThere(m0: Fs, m1: Fs, d: Path)
    requires WellFormed(m0) && WellFormed(m1) && OnlyUnder(m0, m1, d) && !Ancestors(m0, d)
    ensures m1 == m0 && d !in m1
  {
    if d in m1 {
      forall k | 0 <= k < |d| && d[k] == '/'
        ensures d[..k] in m0 && m0[d[..k]] == Dir
      {
        assert Ancestors(m1, d) && !Under(d, d[..k]);
        assert Get(m1, d[..k]) == Get(m0, d[..k]);
      }
    }
    forall p
      ensures Get(m1, p) == Get(m0, p)
    {
      if Under(d, p) {
        if p in m0 { NothingBelow(m0, d, p); }
        if p in m1 { NothingBelow(m1, d, p); }
      }
    }
    SameGets(m1, m0);
  }

  /** So a copy that succeeded had a way there. */
  lemma CopyHadWay(m0: Fs, m1: Fs, src: Path, d: Path, ok: bool, lost: set<Path>, clean: bool)
    requires WellFormed(m0) && WellFormed(m1) && CopyResult(m0, m1, src, d, ok, lost, clean) && Apart(src, d)
    ensures !Ancestors(m0, d) ==> !ok && m1 == m0
  {
    if !Ancestors(m0, d) {
      NoWayThere(m0, m1, d);
      if ok {
        assert src + "" == src && d + "" == d;
        assert At(m1, d, "") == if Covered(lost, src) then None else At(m1, src, "");
        if Covered(lost, src) {
          var l :| l in lost && Under(l, src);
        }
      }
    }
  }

  /** Whether an item can go where it is asked to: it is there already, or it exists and its place can be made. */
  ghost predicate Goes(m: Fs, src: Path, dir: Path, away: bool) {
    var t := Target(src, dir);
    src == t || (src in m && if away then Ancestors(m, t) else MayRename(m, src, t))
  }

  /** What becomes of one item of a move when every call that can succeed does. */
  ghost function SentItem(m: Fs, src: Path, dir: Path, away: bool): Fs {
    var t := Target(src, dir);
    if src != t && Goes(m, src, dir, away) then Renamed(m, src, if away then Resolved(m, t) else t) else m
  }

  lemma AcrossSent(m0: Fs, m1: Fs, m2: Fs, src: Path, dir: Path, d: Path)
    requires WellFormed(m0) && WellFormed(m1) && WellFormed(m2) && src in m0 && src != Target(src, dir)
    requires d == Resolved(m0, Target(src, dir)) && d !in m0 && Apart(src, d) && OnlyUnder(m0, m1, d)
    requires Ancestors(m0, Target(src, dir)) ==> Mirror(m1, src, d) && OnlyUnder(m1, m2, src) && src !in m2
    requires !Ancestors(m0, Target(src, dir)) ==> m2 == m0
    ensures m2 == SentItem(m0, src, dir, true)
  {
    SameWay(m0, Target(src, dir));
    hide Resolved, WellFormed, Mirror, Renamed, Apart;
    if Ancestors(m0, Target(src, dir)) {
      CopiedAndDeleted(m0, m1, m2, src, d);
    }
  }

  /** exec_move renames over what has the name already: everything else stays exactly when the name is free, the
      kernel refuses, or what is there is the same node. */
  lemma OthersStayIff(m: Fs, src: Path, dir: Path)
    requires WellFormed(m)
    ensures var t := Target(src, dir);
      (forall p :: p in m && !Under(src, p) ==> Get(MovedItem(m, src, dir), p) == Get(m, p)) <==>
        t !in m || src == t || !MayRename(m, src, t) || m[t] == m[src]
  {
    var t, m1 := Target(src, dir), MovedItem(m, src, dir);
    if src != t && MayRename(m, src, t) {
      assert src + "" == src && t + "" == t && t[|t|..] == "";
      RenamedSubtree(m, src, t, "");
      assert Get(m1, t) == Get(m, src);
      forall p | p in m && !Under(src, p) && p != t
        ensures Get(m1, p) == Get(m, p)
      {
        RenamedGet(m, src, t, p);
        if Under(t, p) {
          NothingBelow(m, t, p);
          EmptyHasNothingBelow(m, t, p);
        }
      }
    }
  }

  // ---------- several items: conditions a caller can look up ----------

  /** The first `i` sources exist. */
  predicate Present(m: Fs, srcs: seq<Path>, i: nat) {
    i <= |srcs| && forall j :: 0 <= j < i ==> srcs[j] in m
  }

  /** No source lies above the target directory, and none is missing from inside it. */
  ghost predicate AllFound(m: Fs, srcs: seq<Path>, dir: Path) {
    forall j :: 0 <= j < |srcs| ==> SourceFor(m, srcs[j], dir)
  }

  predicate PairwiseApart(srcs: seq<Path>) {
    forall i, j :: 0 <= i < j < |srcs| ==> !Under(srcs[i], srcs[j]) && !Under(srcs[j], srcs[i])
  }

  ghost predicate AllOutside(srcs: seq<Path>, dir: Path) {
    forall j :: 0 <= j < |srcs| ==> Apart(srcs[j], dir)
  }

  /** No source sits where another one is going. */
  predicate NoneInTheWay(srcs: seq<Path>, dir: Path) {
    forall i, j :: 0 <= i < |srcs| && 0 <= j < |srcs| && i != j ==> srcs[j] != Target(srcs[i], dir)
  }

  /** Nor below it. */
  predicate Clear(srcs: seq<Path>, dir: Path) {
    forall i, j :: 0 <= i < |srcs| && 0 <= j < |srcs| && i != j ==> !Under(Target(srcs[i], dir), srcs[j])
  }

  ghost predicate Untangled(m: Fs, srcs: seq<Path>, dir: Path) {
    AllFound(m, srcs, dir) && PairwiseApart(srcs) && NoneInTheWay(srcs, dir)
  }

  /** Item `i` may be put under a numbered name: it goes to another file system, and its name is taken from the start
      or may be taken by an item before it. */
  ghost predicate MayBeNumbered(m: Fs, srcs: seq<Path>, across: seq<bool>, dir: Path, i: nat)
    requires i < |srcs| == |across|
  {
    across[i] && (Target(srcs[i], dir) in m || exists h :: 0 <= h < i && Variant(Target(srcs[i], dir), Target(srcs[h], dir)))
  }

  /** No later item goes to the name of an earlier one, or to a numbered name that one may have been given. */
  ghost predicate NeverReplaced(m: Fs, srcs: seq<Path>, across: seq<bool>, dir: Path)
    requires |srcs| == |across|
  {
    forall i, j :: 0 <= i < j < |srcs| ==>
      && Target(srcs[j], dir) != Target(srcs[i], dir)
      && (MayBeNumbered(m, srcs, across, dir, i) ==> !Variant(Target(srcs[j], dir), Target(srcs[i], dir)))
  }

  ghost predicate Unthreatened(m: Fs, srcs: seq<Path>, across: seq<bool>, dir: Path)
    requires |srcs| == |across|
  {
    AllFound(m, srcs, dir) && PairwiseApart(srcs) && Clear(srcs, dir) && NeverReplaced(m, srcs, across, dir)
  }

  /** Two items may want the same name. */
  ghost predicate Rivals(a: Path, b: Path, dir: Path) {
    exists q :: Variant(q, Target(a, dir)) && Variant(q, Target(b, dir))
  }

  /** The items from the `i`th on, before the `j`th, that may take one of its names. */
  ghost function RivalsBefore(srcs: seq<Path>, dir: Path, i: nat, j: nat): set<nat>
    requires j < |srcs|
  {
    set h: nat | i <= h < j && Rivals(srcs[h], srcs[j], dir)
  }

  /** Each item from the `i`th on that needs a free name will find one when its turn comes: not all of its names are
      taken, or will be by the items before it. */
  ghost predicate RoomFor(m: Fs, srcs: seq<Path>, needs: seq<bool>, dir: Path, i: nat)
    requires |needs| == |srcs|
  {
    forall j :: i <= j < |srcs| && needs[j] ==> |Taken(m, Target(srcs[j], dir))| + |RivalsBefore(srcs, dir, i, j)| < 999
  }

  function All(n: nat): (bs: seq<bool>)
    ensures |bs| == n && forall i :: 0 <= i < n ==> bs[i]
  {
    seq(n, _ => true)
  }

  lemma RoomNow(m: Fs, srcs: seq<Path>, needs: seq<bool>, dir: Path, i: nat)
    requires |needs| == |srcs| && RoomFor(m, srcs, needs, dir, i) && i < |srcs| && needs[i]
    ensures Resolved(m, Target(srcs[i], dir)) !in m
  {
    ResolvedFreeIff(m, Target(srcs[i], dir));
  }

  /** Any number of items find room, as long as no two want the same name and for each one is free. */
  lemma NoRivals(m: Fs, srcs: seq<Path>, needs: seq<bool>, dir: Path)
    requires |needs| == |srcs| && forall h, j :: 0 <= h < j < |srcs| ==> !Rivals(srcs[h], srcs[j], dir)
    requires forall j :: 0 <= j < |srcs| && needs[j] ==> Resolved(m, Target(srcs[j], dir)) !in m
    ensures RoomFor(m, srcs, needs, dir, 0)
  {
    hide Rivals, Taken, Resolved;
    forall j | 0 <= j < |srcs| && needs[j]
      ensures |Taken(m, Target(srcs[j], dir))| + |RivalsBefore(srcs, dir, 0, j)| < 999
    {
      ResolvedFreeIff(m, Target(srcs[j], dir));
      assert RivalsBefore(srcs, dir, 0, j) == {};
    }
  }

  lemma RivalGone(srcs: seq<Path>, dir: Path, i: nat, j: nat)
    requires i < j < |srcs|
    ensures |RivalsBefore(srcs, dir, i, j)| == |RivalsBefore(srcs, dir, i + 1, j)| + if Rivals(srcs[i], srcs[j], dir) then 1 else 0
  {
    var x, y := RivalsBefore(srcs, dir, i, j), RivalsBefore(srcs, dir, i + 1, j);
    assert i !in y;
    assert x == if Rivals(srcs[i], srcs[j], dir) then y + {i} else y;
  }

  /** An item that took a name, or none, has had its turn. */
  lemma RoomNext(m1: Fs, m2: Fs, srcs: seq<Path>, needs: seq<bool>, dir: Path, i: nat, d: Path)
    requires |needs| == |srcs| && RoomFor(m1, srcs, needs, dir, i) && i < |srcs|
    requires m2 == m1 || (Variant(d, Target(srcs[i], dir)) && forall p :: !Under(d, p) && p in m2 ==> Get(m2, p) == Get(m1, p))
    ensures RoomFor(m2, srcs, needs, dir, i + 1)
  {
    hide Taken, Rivals, Variant, RivalsBefore, Under;
    forall j | i < j < |srcs| && needs[j]
      ensures |Taken(m2, Target(srcs[j], dir))| + |RivalsBefore(srcs, dir, i + 1, j)| < 999
    {
      RivalGone(srcs, dir, i, j);
      if m2 != m1 {
        var n := VariantIsEntry(srcs[i], dir, d);
        TakenGrows(m1, m2, srcs[j], dir, d, n);
        VariantMakesRivals(srcs[i], srcs[j], dir, d);
      }
    }
  }

  lemma VariantMakesRivals(a: Path, b: Path, dir: Path, d: Path)
    requires Variant(d, Target(a, dir))
    ensures Variant(d, Target(b, dir)) ==> Rivals(a, b, dir)
  {
  }

  // ---------- several items: what a step keeps ----------

  /** The sources from the `i`th on are as they were. */
  ghost predicate Intact(m0: Fs, m: Fs, srcs: seq<Path>, i: nat) {
    forall j :: i <= j < |srcs| ==> SameSubtree(m0, m, srcs[j])
  }

  /** Nothing at a source but what was there. */
  ghost predicate Shrunk(m0: Fs, m: Fs, srcs: seq<Path>) {
    forall j, s :: 0 <= j < |srcs| && Suffix(s) && At(m, srcs[j], s) != None ==> At(m, srcs[j], s) == At(m0, srcs[j], s)
  }

  lemma PresentNext(m: Fs, srcs: seq<Path>, i: nat)
    requires i <= |srcs|
    ensures Present(m, srcs, 0)
    ensures i < |srcs| && Present(m, srcs, i) && srcs[i] in m ==> Present(m, srcs, i + 1)
  {
  }

  lemma PresentAt(m: Fs, srcs: seq<Path>, i: nat)
    requires i < |srcs|
    ensures Present(m, srcs, |srcs|) ==> srcs[i] in m
  {
  }

  lemma PresentFound(m: Fs, srcs: seq<Path>, dir: Path)
    requires Present(m, srcs, |srcs|) && forall j :: 0 <= j < |srcs| ==> !Under(srcs[j], dir)
    ensures AllFound(m, srcs, dir)
  {
  }

  lemma IntactAtStart(m: Fs, srcs: seq<Path>)
    ensures Intact(m, m, srcs, 0) && Shrunk(m, m, srcs)
  {
  }

  lemma OthersIntact(m0: Fs, m1: Fs, m2: Fs, srcs: seq<Path>, i: nat)
    requires PairwiseApart(srcs) && i < |srcs| && Intact(m0, m1, srcs, i) && OnlyUnder(m1, m2, srcs[i])
    ensures Intact(m0, m2, srcs, i + 1)
  {
    forall j | i < j < |srcs|
      ensures SameSubtree(m0, m2, srcs[j])
    {
      SameSubtreeAfter(m0, m1, m2, srcs[j], srcs[i]);
    }
  }

  lemma FreeEntry(m: Fs, dir: Path, base: string) returns (n: string)
    requires Slashless(base) && Resolved(m, Child(dir, base)) !in m
    ensures Slashless(n) && Resolved(m, Child(dir, base)) == Child(dir, n)
  {
    n := ResolvedChild(m, dir, base);
  }

  lemma SourceBeside(m: Fs, src: Path, dir: Path, n: string)
    requires !Under(src, dir) && Slashless(n) && Child(dir, n) !in m
    ensures src in m ==> !Under(src, Child(dir, n))
  {
    if src in m {
      SourceNotAbove(m, src, dir, n);
    }
  }

  lemma SourcesApart(m0: Fs, m: Fs, srcs: seq<Path>, dir: Path, n: string)
    requires WellFormed(m) && Slashless(n) && Child(dir, n) !in m && AllFound(m0, srcs, dir) && Intact(m0, m, srcs, 0)
    ensures forall j :: 0 <= j < |srcs| ==> Apart(srcs[j], Child(dir, n))
  {
    forall j | 0 <= j < |srcs|
      ensures Apart(srcs[j], Child(dir, n))
    {
      SameSubtreeFacts(m0, m, srcs[j]);
      SourceApart(m, srcs[j], dir, n);
    }
  }

  lemma SourcesKept(m0: Fs, m1: Fs, m2: Fs, srcs: seq<Path>, d: Path)
    requires OnlyUnder(m1, m2, d) && Intact(m0, m1, srcs, 0)
    requires forall j :: 0 <= j < |srcs| ==> Apart(srcs[j], d)
    ensures Intact(m0, m2, srcs, 0)
  {
    forall j | 0 <= j < |srcs|
      ensures SameSubtree(m0, m2, srcs[j])
    {
      SameSubtreeAfter(m0, m1, m2, srcs[j], d);
    }
  }

  lemma ShrunkLeaves(m0: Fs, m1: Fs, a: Path)
    requires forall p :: p in m1 && Under(a, p) ==> p in m0 && m1[p] == m0[p]
    ensures |Leaves(m1, a)| <= |Leaves(m0, a)|
  {
    SubsetSize(Leaves(m1, a), Leaves(m0, a));
  }

  lemma ShrunkSource(m0: Fs, m1: Fs, srcs: seq<Path>, j: nat)
    requires Shrunk(m0, m1, srcs) && j < |srcs|
    ensures |Leaves(m1, srcs[j])| <= |Leaves(m0, srcs[j])|
  {
    forall p | p in m1 && Under(srcs[j], p)
      ensures p in m0 && m1[p] == m0[p]
    {
      UnderSplit(srcs[j], p);
      assert At(m1, srcs[j], p[|srcs[j]|..]) == Get(m1, p);
    }
    ShrunkLeaves(m0, m1, srcs[j]);
  }

  /** The place an item goes to, unless it stays, is an entry of the target directory. */
  lemma PlaceIsEntry(m: Fs, src: Path, dir: Path, d: Path) returns (n: string)
    requires MovesTo(m, src, dir, d) && d != src
    ensures Slashless(n) && d == Child(dir, n) && Variant(d, Target(src, dir))
  {
    var base := src[DirLen(src)..];
    if d == Target(src, dir) {
      n := base;
    } else {
      n := ResolvedChild(m, dir, base);
      FirstFreeScan(m, Target(src, dir), 2);
    }
  }

  /** A variant of a target is an entry of the target directory as well. */
  lemma VariantIsEntry(src: Path, dir: Path, d: Path) returns (n: string)
    requires Variant(d, Target(src, dir))
    ensures Slashless(n) && d == Child(dir, n)
  {
    n := src[DirLen(src)..];
    if d != Child(dir, n) {
      var i :| 2 <= i < 1000 && d == Candidate(Child(dir, n), i);
      n := CandidateChild(dir, n, i);
    }
  }

  /** A move changes nothing at a source that lies outside the target directory, except to take away. */
  lemma ShrunkNext(m0: Fs, m1: Fs, m2: Fs, srcs: seq<Path>, src: Path, dir: Path, d: Path, lost: set<Path>, ok: bool)
    requires Shrunk(m0, m1, srcs) && AllOutside(srcs, dir) && MoveResult(m1, m2, src, dir, d, lost, ok)
    ensures Shrunk(m0, m2, srcs)
  {
    if d != src {
      var n := PlaceIsEntry(m1, src, dir, d);
      UnderChild(dir, n);
      forall j, s | 0 <= j < |srcs| && Suffix(s) && At(m2, srcs[j], s) != None
        ensures At(m2, srcs[j], s) == At(m0, srcs[j], s)
      {
        var p := srcs[j] + s;
        ApartSubtrees(srcs[j], dir, s);
        if Under(d, p) {
          UnderTransitive(dir, d, p);
        }
        assert Get(m2, p) == Get(m1, p);
        assert At(m1, srcs[j], s) == Get(m1, p);
      }
    }
  }

  /** A change confined to one entry of the target directory takes at most one more variant of any name. */
  lemma TakenGrows(m0: Fs, m1: Fs, other: Path, dir: Path, d: Path, n: string)
    requires Slashless(n) && d == Child(dir, n)
    requires forall p :: !Under(d, p) && p in m1 ==> Get(m1, p) == Get(m0, p)
    ensures |Taken(m1, Target(other, dir))| <= |Taken(m0, Target(other, dir))| + if Variant(d, Target(other, dir)) then 1 else 0
  {
    var x, y := Taken(m0, Target(other, dir)), Taken(m1, Target(other, dir));
    forall q | q in y && q != d
      ensures q in x
    {
      var k := VariantIsEntry(other, dir, q);
      assert q[|q|..] == "";
      Siblings(dir, k, n, q);
      assert Get(m1, q) == Get(m0, q);
    }
    assert d in y ==> Variant(d, Target(other, dir));
    hide *;
    SubsetSize(y, if d in y then x + {d} else x);
  }

  /** Another source is untouched by a move. */
  lemma OtherSourceKept(m0: Fs, m1: Fs, m2: Fs, src: Path, other: Path, dir: Path, d: Path, lost: set<Path>, ok: bool)
    requires WellFormed(m1) && SameSubtree(m0, m1, other) && MoveResult(m1, m2, src, dir, d, lost, ok)
    requires SourceFor(m1, src, dir) && SourceFor(m1, other, dir)
    requires Apart(src, other) && other != Target(src, dir)
    ensures SameSubtree(m0, m2, other)
  {
    if d != src {
      var n := PlaceIsEntry(m1, src, dir, d);
      if d in m1 {
        SourceNotAbove(m1, other, dir, n);
        if Under(d, other) {
          UnderChild(dir, n);
          UnderTransitive(dir, d, other);
          NothingBelow(m1, d, other);
          EmptyHasNothingBelow(m1, d, other);
        }
      } else {
        SourceApart(m1, other, dir, n);
      }
    }
    assert Apart(other, src) && Apart(other, d);
    forall s | Suffix(s)
      ensures At(m2, other, s) == At(m0, other, s)
    {
      ApartSubtrees(other, src, s);
      ApartSubtrees(other, d, s);
      assert At(m1, other, s) == At(m0, other, s);
    }
  }

  lemma OthersKept(m0: Fs, m1: Fs, m2: Fs, srcs: seq<Path>, i: nat, dir: Path, d: Path, lost: set<Path>, ok: bool)
    requires WellFormed(m1) && Untangled(m0, srcs, dir) && i < |srcs|
    requires Intact(m0, m1, srcs, i) && MoveResult(m1, m2, srcs[i], dir, d, lost, ok)
    ensures Intact(m0, m2, srcs, i + 1)
  {
    hide MoveResult, WellFormed;
    SameSubtreeFacts(m0, m1, srcs[i]);
    forall j | i < j < |srcs|
      ensures SameSubtree(m0, m2, srcs[j])
    {
      SameSubtreeFacts(m0, m1, srcs[j]);
      OtherSourceKept(m0, m1, m2, srcs[i], srcs[j], dir, d, lost, ok);
    }
  }
}
