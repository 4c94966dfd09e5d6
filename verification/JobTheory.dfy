/** What whole jobs do to a file system: several items copied, moved or deleted one after the other. */
module JobTheory {
  import opened Paths
  import opened CopyTheory
  import opened Conflict
  import opened Rename
  import opened Steps
  import opened MoveTheory
  import opened RenameList

  // ---------- what a job leaves alone ----------

  /** `p` lies in one of the sources. */
  ghost predicate InSource(p: Path, srcs: seq<Path>) { exists i :: 0 <= i < |srcs| && Under(srcs[i], p) }

  /** `p` lies where one of the sources may be put: at its name in the target directory, or a numbered variant. */
  ghost predicate InPlace(p: Path, srcs: seq<Path>, dir: Path) {
    exists i, q :: 0 <= i < |srcs| && Variant(q, Target(srcs[i], dir)) && Under(q, p)
  }

  /** Nothing that was there changes, and what is new is where a source may be put. */
  ghost predicate CopyFrame(m0: Fs, m: Fs, srcs: seq<Path>, dir: Path) {
    Keeps(m0, m) && forall p :: !InPlace(p, srcs, dir) ==> Get(m, p) == Get(m0, p)
  }

  ghost predicate DeleteFrame(m0: Fs, m: Fs, srcs: seq<Path>) {
    forall p :: !InSource(p, srcs) ==> Get(m, p) == Get(m0, p)
  }

  ghost predicate MoveFrame(m0: Fs, m: Fs, srcs: seq<Path>, dir: Path) {
    forall p :: !InSource(p, srcs) && !InPlace(p, srcs, dir) ==> Get(m, p) == Get(m0, p)
  }

  ghost predicate AllCopyFrame(l0: seq<Fs>, l1: seq<Fs>, m0: Fs, srcs: seq<Path>, dir: Path) {
    l0 <= l1 && forall i :: |l0| <= i < |l1| ==> CopyFrame(m0, l1[i], srcs, dir)
  }

  ghost predicate AllDeleteFrame(l0: seq<Fs>, l1: seq<Fs>, m0: Fs, srcs: seq<Path>) {
    l0 <= l1 && forall i :: |l0| <= i < |l1| ==> DeleteFrame(m0, l1[i], srcs)
  }

  ghost predicate AllMoveFrame(l0: seq<Fs>, l1: seq<Fs>, m0: Fs, srcs: seq<Path>, dir: Path) {
    l0 <= l1 && forall i :: |l0| <= i < |l1| ==> MoveFrame(m0, l1[i], srcs, dir)
  }

  lemma FramesAtStart(m: Fs, l: seq<Fs>, srcs: seq<Path>, dir: Path)
    ensures CopyFrame(m, m, srcs, dir) && DeleteFrame(m, m, srcs) && MoveFrame(m, m, srcs, dir)
    ensures AllCopyFrame(l, l, m, srcs, dir) && AllDeleteFrame(l, l, m, srcs) && AllMoveFrame(l, l, m, srcs, dir)
  {
  }

  lemma CopyFrameStep(m0: Fs, m1: Fs, m2: Fs, srcs: seq<Path>, dir: Path, i: nat, d: Path)
    requires CopyFrame(m0, m1, srcs, dir) && i < |srcs| && Variant(d, Target(srcs[i], dir)) && OnlyUnder(m1, m2, d) && Keeps(m1, m2)
    ensures CopyFrame(m0, m2, srcs, dir)
  {
    forall p | !InPlace(p, srcs, dir)
      ensures Get(m2, p) == Get(m0, p)
    {
      assert Get(m2, p) == Get(m1, p);
    }
  }

  lemma CopyFrameNext(m0: Fs, l0: seq<Fs>, l1: seq<Fs>, l2: seq<Fs>, m1: Fs, m2: Fs, srcs: seq<Path>, dir: Path, i: nat, d: Path)
    requires AllCopyFrame(l0, l1, m0, srcs, dir) && CopyFrame(m0, m1, srcs, dir) && i < |srcs| && Variant(d, Target(srcs[i], dir))
    requires Within(l1, l2, m1, d) && OnlyUnder(m1, m2, d) && Keeps(m1, m2) && forall k :: |l1| <= k < |l2| ==> Keeps(m1, l2[k])
    ensures AllCopyFrame(l0, l2, m0, srcs, dir) && CopyFrame(m0, m2, srcs, dir)
  {
    hide CopyFrame, Keeps, OnlyUnder, Variant;
    CopyFrameStep(m0, m1, m2, srcs, dir, i, d);
    forall k | |l0| <= k < |l2|
      ensures CopyFrame(m0, l2[k], srcs, dir)
    {
      if k < |l1| {
        assert l2[k] == l1[k];
      } else {
        CopyFrameStep(m0, m1, l2[k], srcs, dir, i, d);
      }
    }
  }

  lemma DeleteFrameStep(m0: Fs, m1: Fs, m2: Fs, srcs: seq<Path>, i: nat)
    requires DeleteFrame(m0, m1, srcs) && i < |srcs| && OnlyUnder(m1, m2, srcs[i])
    ensures DeleteFrame(m0, m2, srcs)
  {
    forall p | !InSource(p, srcs)
      ensures Get(m2, p) == Get(m0, p)
    {
      assert Get(m2, p) == Get(m1, p);
    }
  }

  lemma DeleteFrameNext(m0: Fs, l0: seq<Fs>, l1: seq<Fs>, l2: seq<Fs>, m1: Fs, m2: Fs, srcs: seq<Path>, i: nat)
    requires AllDeleteFrame(l0, l1, m0, srcs) && DeleteFrame(m0, m1, srcs) && i < |srcs|
    requires Within(l1, l2, m1, srcs[i]) && OnlyUnder(m1, m2, srcs[i])
    ensures AllDeleteFrame(l0, l2, m0, srcs) && DeleteFrame(m0, m2, srcs)
  {
    hide DeleteFrame, OnlyUnder;
    DeleteFrameStep(m0, m1, m2, srcs, i);
    forall k | |l0| <= k < |l2|
      ensures DeleteFrame(m0, l2[k], srcs)
    {
      if k < |l1| {
        assert l2[k] == l1[k];
      } else {
        DeleteFrameStep(m0, m1, l2[k], srcs, i);
      }
    }
  }

  lemma MoveFrameStep(m0: Fs, m1: Fs, m2: Fs, srcs: seq<Path>, dir: Path, i: nat, d: Path)
    requires MoveFrame(m0, m1, srcs, dir) && i < |srcs| && MovesTo(m1, srcs[i], dir, d) && Elsewhere(m1, m2, srcs[i], d)
    ensures MoveFrame(m0, m2, srcs, dir)
  {
    if d != srcs[i] {
      var _ := PlaceIsEntry(m1, srcs[i], dir, d);
    }
    forall p | !InSource(p, srcs) && !InPlace(p, srcs, dir)
      ensures Get(m2, p) == Get(m0, p)
    {
      assert Get(m2, p) == Get(m1, p);
    }
  }

  lemma MoveFrameNext(m0: Fs, l0: seq<Fs>, l1: seq<Fs>, l2: seq<Fs>, m1: Fs, m2: Fs, srcs: seq<Path>, dir: Path, i: nat, d: Path,
                      lost: set<Path>, ok: bool)
    requires AllMoveFrame(l0, l1, m0, srcs, dir) && MoveFrame(m0, m1, srcs, dir) && i < |srcs|
    requires AllElsewhere(l1, l2, m1, srcs[i], d) && MoveResult(m1, m2, srcs[i], dir, d, lost, ok)
    ensures AllMoveFrame(l0, l2, m0, srcs, dir) && MoveFrame(m0, m2, srcs, dir)
  {
    assert MovesTo(m1, srcs[i], dir, d) && Elsewhere(m1, m2, srcs[i], d);
    hide MoveFrame, MovesTo, Elsewhere, MoveResult;
    MoveFrameStep(m0, m1, m2, srcs, dir, i, d);
    forall k | |l0| <= k < |l2|
      ensures MoveFrame(m0, l2[k], srcs, dir)
    {
      if k < |l1| {
        assert l2[k] == l1[k];
      } else {
        MoveFrameStep(m0, m1, l2[k], srcs, dir, i, d);
      }
    }
  }

  // ---------- several items copied ----------

  /** A source's copy: at a name that was free, and complete but for what was skipped. */
  ghost predicate CopiedOne(m0: Fs, m: Fs, src: Path, dir: Path, d: Path, lost: set<Path>) {
    d !in m0 && d in m && Variant(d, Target(src, dir)) && Arrived(m0, m, src, d, lost)
  }

  /** The sources dealt with are copied, each to a place of its own, except those whose copy failed. */
  ghost predicate Copies(m0: Fs, m: Fs, srcs: seq<Path>, dir: Path, ds: seq<Path>, losts: seq<set<Path>>, oks: seq<bool>) {
    && |ds| == |losts| == |oks| <= |srcs|
    && (forall h :: 0 <= h < |ds| && oks[h] ==> CopiedOne(m0, m, srcs[h], dir, ds[h], losts[h]))
    && (forall h, k :: 0 <= h < k < |ds| && oks[h] ==> ds[h] != ds[k])
  }

  /** An earlier copy is apart from the place of the next one. */
  lemma EarlierCopy(m0: Fs, m1: Fs, m2: Fs, src: Path, dir: Path, dh: Path, lost: set<Path>, other: Path, d: Path)
    requires CopiedOne(m0, m1, src, dir, dh, lost) && Variant(d, Target(other, dir)) && d !in m1 && OnlyUnder(m1, m2, d)
    ensures CopiedOne(m0, m2, src, dir, dh, lost) && dh != d
  {
    var n := VariantIsEntry(other, dir, d);
    var k := VariantIsEntry(src, dir, dh);
    assert d[|d|..] == "" && dh[|dh|..] == "";
    if Under(dh, d) { Siblings(dir, n, k, d); }
    if Under(d, dh) { Siblings(dir, k, n, dh); }
    ApartUnchanged(m1, m2, dh, d);
    assert Get(m2, dh) == Get(m1, dh);
    forall s | Suffix(s)
      ensures At(m2, dh, s) == if Covered(lost, src + s) then None else At(m0, src, s)
    {
      assert At(m2, dh, s) == At(m1, dh, s);
    }
  }

  lemma NewCopy(m0: Fs, m1: Fs, m2: Fs, src: Path, dir: Path, d: Path, lost: set<Path>, clean: bool)
    requires SameSubtree(m0, m1, src) && Keeps(m0, m1) && d !in m1 && Variant(d, Target(src, dir)) && Apart(src, d)
    requires CopyResult(m1, m2, src, d, true, lost, clean)
    ensures CopiedOne(m0, m2, src, dir, d, lost)
  {
    ApartUnchanged(m1, m2, src, d);
    assert src + "" == src && d + "" == d;
    forall s | Suffix(s)
      ensures At(m2, d, s) == if Covered(lost, src + s) then None else At(m0, src, s)
    {
      assert At(m2, src, s) == At(m1, src, s) && At(m1, src, s) == At(m0, src, s);
    }
    assert At(m1, src, "") != None && At(m2, d, "") == At(m0, src, "");
    assert At(m0, src, "") == At(m1, src, "");
  }

  lemma CopiesNext(m0: Fs, m1: Fs, m2: Fs, srcs: seq<Path>, dir: Path, ds: seq<Path>, losts: seq<set<Path>>, oks: seq<bool>,
                   d: Path, lost: set<Path>, ok: bool, clean: bool, e0: seq<set<Path>>, e1: seq<set<Path>>, e2: seq<set<Path>>)
    requires Copies(m0, m1, srcs, dir, ds, losts, oks) && |ds| < |srcs| && Intact(m0, m1, srcs, 0) && Keeps(m0, m1)
    requires d !in m1 && Variant(d, Target(srcs[|ds|], dir)) && Apart(srcs[|ds|], d)
    requires CopyResult(m1, m2, srcs[|ds|], d, ok, lost, clean)
    requires AllExplained(m0, srcs, losts, e0, e1) && e0 <= e1 <= e2 && lost <= Skips(e1, e2)
    ensures Copies(m0, m2, srcs, dir, ds + [d], losts + [lost], oks + [ok]) && AllExplained(m0, srcs, losts + [lost], e0, e2)
  {
    var i := |ds|;
    assert OnlyUnder(m1, m2, d) && Explained(m1, srcs[i], lost, e1, e2) && SameSubtree(m0, m1, srcs[i]);
    hide CopiedOne, SameSubtree, Keeps, Variant, CopyResult, OnlyUnder, Skips, Explained, AllExplained, Apart;
    if ok {
      NewCopy(m0, m1, m2, srcs[i], dir, d, lost, clean);
    }
    ExplainedNext(m0, m1, srcs, losts, lost, e0, e1, e2);
    forall h | 0 <= h < i && oks[h]
      ensures CopiedOne(m0, m2, srcs[h], dir, ds[h], losts[h]) && ds[h] != d
    {
      EarlierCopy(m0, m1, m2, srcs[h], dir, ds[h], losts[h], srcs[i], d);
    }
  }

  ghost predicate CopiesSoFar(m0: Fs, m: Fs, srcs: seq<Path>, dir: Path, ds: seq<Path>, losts: seq<set<Path>>, oks: seq<bool>,
                              e0: seq<set<Path>>, e1: seq<set<Path>>) {
    && (forall h :: 0 <= h < |losts| ==> losts[h] <= Skips(e0, e1))
    && (AllFound(m0, srcs, dir) ==> Copies(m0, m, srcs, dir, ds, losts, oks) && AllExplained(m0, srcs, losts, e0, e1))
  }

  /** How far a copy job is: the sources are as they were, all is whole, and the counter is in step. */
  ghost predicate CopyTally(m0: Fs, m: Fs, srcs: seq<Path>, dir: Path, i: nat, done: int, smooth: bool, clean: bool) {
    && i <= |srcs|
    && (AllFound(m0, srcs, dir) ==>
      Intact(m0, m, srcs, 0) && (clean ==> AllWhole(m0, m, srcs, dir)) && Counted(0, done, LeafTotal(m0, srcs[..i]), true, smooth))
  }

  lemma CopyTallyNext(m0: Fs, m1: Fs, m2: Fs, srcs: seq<Path>, dir: Path, i: nat, d: Path, ok: bool, lost: set<Path>,
                      done0: int, done1: int, smooth0: bool, smooth1: bool, clean0: bool, clean1: bool)
    requires i < |srcs| && CopyTally(m0, m1, srcs, dir, i, done0, smooth0, clean0)
    requires Variant(d, Target(srcs[i], dir)) && CopyResult(m1, m2, srcs[i], d, ok, lost, clean1)
    requires AllFound(m0, srcs, dir) ==> forall j :: 0 <= j < |srcs| ==> Apart(srcs[j], d)
    requires Counted(done0, done1, |Leaves(m1, srcs[i])|, true, smooth1)
    ensures CopyTally(m0, m2, srcs, dir, i + 1, done1, smooth0 && smooth1, clean0 && clean1)
  {
    if AllFound(m0, srcs, dir) {
      assert OnlyUnder(m1, m2, d) && Intact(m0, m1, srcs, i);
      hide CopyResult, Intact, AllWhole, Leaves, LeafTotal, Variant, Apart;
      IntactLeaves(m0, m1, srcs, i);
      LeafTotalNext(m0, srcs, i);
      SourcesKept(m0, m1, m2, srcs, d);
      if clean0 && clean1 {
        CopyAllWhole(m0, m1, m2, srcs, dir, i, d, ok, lost);
      }
    }
  }

  lemma CopyTallyAnyway(m0: Fs, m: Fs, srcs: seq<Path>, dir: Path, i: nat, done: int, clean: bool)
    ensures CopyTally(m0, m, srcs, dir, i, done, true, clean) ==> CopyTally(m0, m, srcs, dir, i, done, false, clean)
  {
  }

  lemma CopyTallyEnds(m0: Fs, m: Fs, srcs: seq<Path>, dir: Path, i: nat, done: int, smooth: bool, clean: bool)
    requires CopyTally(m0, m, srcs, dir, i, done, smooth, clean)
    ensures AllFound(m0, srcs, dir) ==> done <= LeafTotal(m0, srcs) && (smooth && i == |srcs| ==> done == LeafTotal(m0, srcs))
    ensures AllFound(m0, srcs, dir) && clean ==> AllWhole(m0, m, srcs, dir)
  {
    LeafTotalPrefix(m0, srcs, i);
    assert srcs[..|srcs|] == srcs;
  }

  lemma CopyStarts(m: Fs, l: seq<Fs>, srcs: seq<Path>, dir: Path, e0: seq<set<Path>>, e1: seq<set<Path>>)
    ensures AllCopyFrame(l, l, m, srcs, dir) && CopyFrame(m, m, srcs, dir) && Intact(m, m, srcs, 0)
    ensures CopiesSoFar(m, m, srcs, dir, [], [], [], e0, e1)
    ensures forall smooth, clean :: CopyTally(m, m, srcs, dir, 0, 0, smooth, clean)
  {
    FramesAtStart(m, l, srcs, dir);
    IntactAtStart(m, srcs);
  }

  /** The next source can be copied as long as the target directory is there. */
  lemma ReadyToCopy(m0: Fs, m: Fs, srcs: seq<Path>, dir: Path, i: nat)
    requires WellFormed(m) && CopyFrame(m0, m, srcs, dir) && i < |srcs| && srcs[i] in m0 && dir in m0 && m0[dir].Dir?
    ensures srcs[i] in m && Ancestors(m, Target(srcs[i], dir))
  {
    EntryAncestors(m, dir, srcs[i][DirLen(srcs[i])..]);
  }

  lemma DeleteStarts(m: Fs, l: seq<Fs>, srcs: seq<Path>)
    ensures AllDeleteFrame(l, l, m, srcs) && DeleteFrame(m, m, srcs) && Intact(m, m, srcs, 0) && LeafTotal(m, srcs[..0]) == 0
  {
    IntactAtStart(m, srcs);
  }

  lemma IntactLeaves(m0: Fs, m: Fs, srcs: seq<Path>, i: nat)
    requires i < |srcs|
    ensures Intact(m0, m, srcs, i) ==> Leaves(m, srcs[i]) == Leaves(m0, srcs[i]) && (srcs[i] in m <==> srcs[i] in m0)
  {
    if Intact(m0, m, srcs, i) {
      SameSubtreeFacts(m0, m, srcs[i]);
    }
  }

  /** The place of the next copy is apart from all sources. */
  lemma PlaceForCopy(m0: Fs, m: Fs, srcs: seq<Path>, dir: Path, i: nat)
    requires WellFormed(m) && i < |srcs| && !Under(srcs[i], dir) && Resolved(m, Target(srcs[i], dir)) !in m
    ensures var d := Resolved(m, Target(srcs[i], dir));
      && (srcs[i] in m ==> !Under(srcs[i], d)) && Variant(d, Target(srcs[i], dir))
      && (AllFound(m0, srcs, dir) && Intact(m0, m, srcs, 0) ==> forall j :: 0 <= j < |srcs| ==> Apart(srcs[j], d))
  {
    var src := srcs[i];
    var n := FreeEntry(m, dir, src[DirLen(src)..]);
    SourceBeside(m, src, dir, n);
    ResolvedFreeIff(m, Target(src, dir));
    if AllFound(m0, srcs, dir) && Intact(m0, m, srcs, 0) {
      SourcesApart(m0, m, srcs, dir, n);
    }
  }

  lemma CopyDone(m0: Fs, m1: Fs, m2: Fs, l0: seq<Fs>, l1: seq<Fs>, l2: seq<Fs>, srcs: seq<Path>, dir: Path, i: nat, d: Path,
                 ok: bool, clean: bool, e1: seq<set<Path>>, e2: seq<set<Path>>)
    requires WellFormed(m1) && i < |srcs| && RoomFor(m1, srcs, All(|srcs|), dir, i) && d !in m1 && Variant(d, Target(srcs[i], dir))
    requires AllCopyFrame(l0, l1, m0, srcs, dir) && CopyFrame(m0, m1, srcs, dir)
    requires Within(l1, l2, m1, d) && CopyResult(m1, m2, srcs[i], d, ok, Skips(e1, e2), clean)
    requires Keeps(m1, m2) && forall k :: |l1| <= k < |l2| ==> Keeps(m1, l2[k])
    ensures AllCopyFrame(l0, l2, m0, srcs, dir) && CopyFrame(m0, m2, srcs, dir) && RoomFor(m2, srcs, All(|srcs|), dir, i + 1)
  {
    assert OnlyUnder(m1, m2, d);
    hide CopyResult, AllCopyFrame, CopyFrame, Within, Keeps, Intact, Taken, Variant, Skips, RoomFor;
    CopyFrameNext(m0, l0, l1, l2, m1, m2, srcs, dir, i, d);
    RoomNext(m1, m2, srcs, All(|srcs|), dir, i, d);
  }

  lemma CopySoFarNext(m0: Fs, m1: Fs, m2: Fs, srcs: seq<Path>, dir: Path, ds: seq<Path>, losts: seq<set<Path>>, oks: seq<bool>,
                      d: Path, ok: bool, clean: bool, e0: seq<set<Path>>, e1: seq<set<Path>>, e2: seq<set<Path>>)
    requires |ds| == |losts| < |srcs| && CopiesSoFar(m0, m1, srcs, dir, ds, losts, oks, e0, e1) && e0 <= e1 <= e2
    requires CopyFrame(m0, m1, srcs, dir) && d !in m1 && Variant(d, Target(srcs[|ds|], dir))
    requires AllFound(m0, srcs, dir) ==> Intact(m0, m1, srcs, 0) && forall j :: 0 <= j < |srcs| ==> Apart(srcs[j], d)
    requires CopyResult(m1, m2, srcs[|ds|], d, ok, Skips(e1, e2), clean)
    ensures CopiesSoFar(m0, m2, srcs, dir, ds + [d], losts + [Skips(e1, e2)], oks + [ok], e0, e2)
  {
    SkipsSplit(e0, e1, e2);
    if AllFound(m0, srcs, dir) {
      hide AllFound, Skips, CopyResult, Copies, AllExplained, Intact, Variant, Apart;
      CopiesNext(m0, m1, m2, srcs, dir, ds, losts, oks, d, Skips(e1, e2), ok, clean, e0, e1, e2);
    }
  }

  lemma CopyEnds(m0: Fs, m: Fs, srcs: seq<Path>, dir: Path, ds: seq<Path>, losts: seq<set<Path>>, oks: seq<bool>,
                 e0: seq<set<Path>>, e1: seq<set<Path>>)
    requires CopiesSoFar(m0, m, srcs, dir, ds, losts, oks, e0, e1)
    ensures AllFound(m0, srcs, dir) ==> Copies(m0, m, srcs, dir, ds, losts, oks) && AllExplained(m0, srcs, losts, e0, e1)
    ensures e0 == e1 ==> forall j :: 0 <= j < |losts| ==> losts[j] == {}
  {
    NoSkips(e0);
  }

  // ---------- several items: what survives the whole job ----------

  /** A source that went to `d`: its leaves survive every state, and unless it is whole something is at `d`;
      if its move succeeded, it is there, and if nothing failed, only there. */
  ghost predicate KeptOne(m0: Fs, l0: seq<Fs>, l1: seq<Fs>, m: Fs, src: Path, dir: Path, d: Path, lost: set<Path>,
                          ok: bool, gone: bool) {
    && AllSurvive(l0, l1, m0, src, d, lost) && Survives(m0, m, src, d, lost)
    && (d in m || SameSubtree(m0, m, src))
    && (d == src || Variant(d, Target(src, dir)))
    && (ok ==> src !in m0 || (d in m && Variant(d, Target(src, dir)) && Arrived(m0, m, src, d, lost)))
    && (gone ==> src == Target(src, dir) || src !in m)
  }

  /** A subtree that is the same in every state. */
  ghost predicate Still(m0: Fs, l0: seq<Fs>, l1: seq<Fs>, m: Fs, a: Path) {
    SameSubtree(m0, m, a) && l0 <= l1 && forall i :: |l0| <= i < |l1| ==> SameSubtree(m0, l1[i], a)
  }

  ghost predicate EntriesStay(m0: Fs, m: Fs, dir: Path) {
    forall n :: Slashless(n) && Child(dir, n) in m0 ==> Child(dir, n) in m
  }

  /** The items already dealt with survive at their places, apart from the others, which are as they were. */
  ghost predicate Kept(m0: Fs, l0: seq<Fs>, l1: seq<Fs>, m: Fs, srcs: seq<Path>, dir: Path, ds: seq<Path>, losts: seq<set<Path>>,
                       allOk: bool, allGone: bool) {
    && |ds| == |losts| <= |srcs|
    && (forall h :: 0 <= h < |ds| ==> KeptOne(m0, l0, l1, m, srcs[h], dir, ds[h], losts[h], allOk, allGone))
    && (forall j :: |ds| <= j < |srcs| ==> Still(m0, l0, l1, m, srcs[j]))
    && (forall h, j :: 0 <= h < |ds| <= j < |srcs| ==> Apart(ds[h], srcs[j]))
    && EntriesStay(m0, m, dir)
  }

  lemma KeptAtStart(m: Fs, l: seq<Fs>, srcs: seq<Path>, dir: Path)
    ensures Kept(m, l, l, m, srcs, dir, [], [], true, true)
  {
  }

  /** Where an item went: nowhere, to its name, or to a numbered name where that may be. */
  ghost predicate PlacedAs(m0: Fs, srcs: seq<Path>, across: seq<bool>, dir: Path, h: nat, d: Path)
    requires h < |srcs| == |across|
  {
    || d == srcs[h]
    || d == Target(srcs[h], dir)
    || (MayBeNumbered(m0, srcs, across, dir, h) && Variant(d, Target(srcs[h], dir)))
  }

  /** New entries of the target directory are the places of the items dealt with. */
  ghost predicate Placed(m0: Fs, m: Fs, srcs: seq<Path>, across: seq<bool>, dir: Path, ds: seq<Path>)
    requires |ds| <= |srcs| == |across|
  {
    && (forall h :: 0 <= h < |ds| ==> PlacedAs(m0, srcs, across, dir, h, ds[h]))
    && (forall n :: Slashless(n) && Child(dir, n) in m ==> Child(dir, n) in m0 || Child(dir, n) in ds)
  }

  lemma PlacedNext(m0: Fs, m1: Fs, m2: Fs, srcs: seq<Path>, across: seq<bool>, dir: Path, ds: seq<Path>, d: Path, lost: set<Path>, ok: bool)
    requires |ds| < |srcs| == |across| && Placed(m0, m1, srcs, across, dir, ds) && AllFound(m0, srcs, dir) && Clear(srcs, dir)
    requires MoveResult(m1, m2, srcs[|ds|], dir, d, lost, ok) && (across[|ds|] || d == srcs[|ds|] || d == Target(srcs[|ds|], dir))
    ensures Placed(m0, m2, srcs, across, dir, ds + [d])
  {
    var i := |ds|;
    EntriesKnownNext(m0, m1, m2, srcs[i], dir, ds, d, lost, ok);
    if d != srcs[i] && d != Target(srcs[i], dir) {
      NumberedBecause(m0, m1, srcs, across, dir, ds, d);
    }
    forall h | 0 <= h < i
      ensures PlacedAs(m0, srcs, across, dir, h, (ds + [d])[h])
    {
      assert (ds + [d])[h] == ds[h];
    }
  }

  lemma EntriesKnownNext(m0: Fs, m1: Fs, m2: Fs, src: Path, dir: Path, ds: seq<Path>, d: Path, lost: set<Path>, ok: bool)
    requires MoveResult(m1, m2, src, dir, d, lost, ok)
    requires forall n :: Slashless(n) && Child(dir, n) in m1 ==> Child(dir, n) in m0 || Child(dir, n) in ds
    ensures forall n :: Slashless(n) && Child(dir, n) in m2 ==> Child(dir, n) in m0 || Child(dir, n) in ds + [d]
  {
    if d != src {
      var k := PlaceIsEntry(m1, src, dir, d);
      forall n | Slashless(n) && Child(dir, n) in m2
        ensures Child(dir, n) in m0 || Child(dir, n) in ds + [d]
      {
        var p := Child(dir, n);
        if p != d {
          assert p[|p|..] == "" && p[|dir| + 1..] == n;
          Siblings(dir, n, k, p);
          assert Get(m2, p) == Get(m1, p);
        }
      }
    }
  }

  /** An item gets a numbered name only because its own is taken. */
  lemma NumberedBecause(m0: Fs, m1: Fs, srcs: seq<Path>, across: seq<bool>, dir: Path, ds: seq<Path>, d: Path)
    requires |ds| < |srcs| == |across| && Placed(m0, m1, srcs, across, dir, ds) && Clear(srcs, dir)
    requires MovesTo(m1, srcs[|ds|], dir, d) && across[|ds|] && d != srcs[|ds|] && d != Target(srcs[|ds|], dir)
    ensures PlacedAs(m0, srcs, across, dir, |ds|, d)
  {
    var i := |ds|;
    var t := Target(srcs[i], dir);
    var _ := PlaceIsEntry(m1, srcs[i], dir, d);
    assert t in m1 && t == Child(dir, srcs[i][DirLen(srcs[i])..]);
    if t !in m0 {
      assert t in ds;
      var h :| 0 <= h < i && ds[h] == t;
      assert PlacedAs(m0, srcs, across, dir, h, ds[h]);
      assert t[|t|..] == "";
      assert ds[h] != srcs[h];
    }
  }

  /** The place of one item is apart from every other source. */
  lemma PlaceApart(m0: Fs, m: Fs, srcs: seq<Path>, dir: Path, i: nat, h: nat, d: Path)
    requires WellFormed(m0) && AllFound(m0, srcs, dir) && Clear(srcs, dir) && PairwiseApart(srcs) && EntriesStay(m0, m, dir)
    requires i < |srcs| && h < |srcs| && h != i && MovesTo(m, srcs[i], dir, d)
    ensures Apart(srcs[h], d)
  {
    if d != srcs[i] {
      var other := srcs[h];
      var n := PlaceIsEntry(m, srcs[i], dir, d);
      assert SourceFor(m0, other, dir);
      if Under(d, other) {
        UnderChild(dir, n);
        UnderTransitive(dir, d, other);
        NothingBelow(m0, d, other);
      }
      assert !Under(d, other);
      assert d[|d|..] == "";
      SourceNotAbove(m0, other, dir, n);
    }
  }

  /** Places of different items do not overlap, as long as the earlier one is taken. */
  lemma PlacesApart(m0: Fs, m: Fs, srcs: seq<Path>, across: seq<bool>, dir: Path, i: nat, h: nat, dh: Path, d: Path)
    requires |srcs| == |across| && WellFormed(m0) && Unthreatened(m0, srcs, across, dir) && EntriesStay(m0, m, dir)
    requires h < i < |srcs| && MovesTo(m, srcs[i], dir, d) && dh in m && Apart(dh, srcs[i])
    requires PlacedAs(m0, srcs, across, dir, h, dh)
    ensures Apart(dh, d)
  {
    if dh == srcs[h] {
      PlaceApart(m0, m, srcs, dir, i, h, d);
    } else if d != srcs[i] {
      var n := PlaceIsEntry(m, srcs[i], dir, d);
      var k := VariantIsEntry(srcs[h], dir, dh);
      assert d != dh;
      assert d[|d|..] == "" && dh[|dh|..] == "";
      if Under(dh, d) { Siblings(dir, n, k, d); }
      if Under(d, dh) { Siblings(dir, k, n, dh); }
    }
  }

  /** A state reached from `m1` by changes apart from an earlier item and its place keeps it. */
  lemma StaysKept(m0: Fs, m1: Fs, m2: Fs, src: Path, d: Path, lost: set<Path>, ok: bool)
    requires Survives(m0, m1, src, d, lost) && (d in m1 || SameSubtree(m0, m1, src))
    requires ok ==> src !in m0 || (d in m1 && Arrived(m0, m1, src, d, lost))
    requires SameSubtree(m1, m2, src) && (d in m1 ==> SameSubtree(m1, m2, d))
    ensures Survives(m0, m2, src, d, lost) && (d in m2 || SameSubtree(m0, m2, src))
    ensures ok ==> src !in m0 || (d in m2 && Arrived(m0, m2, src, d, lost))
    ensures src !in m1 ==> src !in m2
  {
    SameSubtreeFacts(m1, m2, src);
    if d in m1 {
      SameSubtreeFacts(m1, m2, d);
      forall s | Suffix(s)
        ensures At(m2, src, s) == At(m1, src, s) && At(m2, d, s) == At(m1, d, s)
      {
      }
    } else {
      SameTwice(m0, m1, m2, src);
    }
  }

  /** An earlier item is kept through the states of a later move. */
  lemma EarlierKept(m0: Fs, l0: seq<Fs>, l1: seq<Fs>, l2: seq<Fs>, m1: Fs, m2: Fs, srcs: seq<Path>, across: seq<bool>, dir: Path,
                    i: nat, h: nat, dh: Path, lost: set<Path>, d: Path,
                    ok: bool, gone: bool, ok1: bool, gone1: bool)
    requires |srcs| == |across| && WellFormed(m0) && Unthreatened(m0, srcs, across, dir) && EntriesStay(m0, m1, dir)
    requires h < |srcs| && PlacedAs(m0, srcs, across, dir, h, dh)
    requires h < i < |srcs| && KeptOne(m0, l0, l1, m1, srcs[h], dir, dh, lost, ok, gone) && Apart(dh, srcs[i]) && (ok1 ==> ok) && (gone1 ==> gone)
    requires MovesTo(m1, srcs[i], dir, d) && AllElsewhere(l1, l2, m1, srcs[i], d) && Elsewhere(m1, m2, srcs[i], d)
    ensures KeptOne(m0, l0, l2, m2, srcs[h], dir, dh, lost, ok1, gone1)
  {
    hide WellFormed, EntriesStay, MovesTo, Survives, SameSubtree, Elsewhere, Variant, Arrived, PlacedAs, NeverReplaced;
    var src := srcs[h];
    PlaceApart(m0, m1, srcs, dir, i, h, d);
    if dh in m1 {
      PlacesApart(m0, m1, srcs, across, dir, i, h, dh, d);
    }
    assert Apart(src, srcs[i]);
    forall m | Elsewhere(m1, m, srcs[i], d)
      ensures Survives(m0, m, src, dh, lost) && (dh in m || SameSubtree(m0, m, src))
      ensures ok ==> src !in m0 || (dh in m && Arrived(m0, m, src, dh, lost))
      ensures src !in m1 ==> src !in m
    {
      ElsewhereSame(m1, m, srcs[i], d, src);
      if dh in m1 {
        ElsewhereSame(m1, m, srcs[i], d, dh);
      }
      StaysKept(m0, m1, m, src, dh, lost, ok);
    }
    forall k | |l0| <= k < |l2|
      ensures Survives(m0, l2[k], src, dh, lost)
    {
      assert k < |l1| ==> l2[k] == l1[k];
    }
  }

  /** A source still to come is the same through the states of another move. */
  lemma LaterStill(m0: Fs, l0: seq<Fs>, l1: seq<Fs>, l2: seq<Fs>, m1: Fs, m2: Fs, a: Path, src: Path, d: Path)
    requires Still(m0, l0, l1, m1, a) && Apart(a, src) && Apart(a, d)
    requires AllElsewhere(l1, l2, m1, src, d) && Elsewhere(m1, m2, src, d)
    ensures Still(m0, l0, l2, m2, a)
  {
    hide SameSubtree, Elsewhere, Apart;
    forall m | Elsewhere(m1, m, src, d)
      ensures SameSubtree(m0, m, a)
    {
      ElsewhereSame(m1, m, src, d, a);
      SameTwice(m0, m1, m, a);
    }
    forall k | |l0| <= k < |l2|
      ensures SameSubtree(m0, l2[k], a)
    {
      assert k < |l1| ==> l2[k] == l1[k];
    }
  }

  /** The item just dealt with. */
  lemma NewKept(m0: Fs, l0: seq<Fs>, l1: seq<Fs>, l2: seq<Fs>, m1: Fs, m2: Fs, src: Path, dir: Path, d: Path, lost: set<Path>,
                ok: bool, gone: bool)
    requires Still(m0, l0, l1, m1, src) && AllSurvive(l1, l2, m1, src, d, lost) && MoveResult(m1, m2, src, dir, d, lost, ok)
    requires (forall l :: l in lost ==> Under(src, l) && l != src) && (gone ==> src == Target(src, dir) || src !in m2)
    ensures KeptOne(m0, l0, l2, m2, src, dir, d, lost, ok, gone)
  {
    if d != src {
      var _ := PlaceIsEntry(m1, src, dir, d);
    }
    SurvivesSame(m0, m1, m2, src, d, lost);
    if ok && src in m0 {
      ArrivedSince(m0, m1, m2, src, d, lost);
      assert src + "" == src && d + "" == d;
      assert At(m2, d, "") == At(m0, src, "");
    }
    if SameSubtree(m1, m2, src) {
      SameTwice(m0, m1, m2, src);
    }
    forall k | |l0| <= k < |l2|
      ensures Survives(m0, l2[k], src, d, lost)
    {
      if k < |l1| {
        assert l2[k] == l1[k];
      } else {
        SurvivesSame(m0, m1, l2[k], src, d, lost);
      }
    }
  }

  lemma KeptAnyway(m0: Fs, l0: seq<Fs>, l1: seq<Fs>, m: Fs, src: Path, dir: Path, d: Path, lost: set<Path>,
                      ok: bool, gone: bool, ok1: bool, gone1: bool)
    requires KeptOne(m0, l0, l1, m, src, dir, d, lost, ok, gone) && (ok1 ==> ok) && (gone1 ==> gone)
    ensures KeptOne(m0, l0, l1, m, src, dir, d, lost, ok1, gone1)
  {
  }

  lemma EntriesStayNext(m0: Fs, m1: Fs, m2: Fs, src: Path, dir: Path, d: Path, lost: set<Path>, ok: bool)
    requires EntriesStay(m0, m1, dir) && !Under(src, dir) && MoveResult(m1, m2, src, dir, d, lost, ok)
    ensures EntriesStay(m0, m2, dir)
  {
    if d != src {
      var k := PlaceIsEntry(m1, src, dir, d);
      forall n | Slashless(n) && Child(dir, n) in m0
        ensures Child(dir, n) in m2
      {
        var p := Child(dir, n);
        assert p[|p|..] == "" && p[|dir| + 1..] == n;
        DirLenUnique(p, |dir| + 1);
        assert src != p;
        NotAbove(src, dir, n);
        if p != d {
          Siblings(dir, n, k, p);
          assert Get(m2, p) == Get(m1, p);
        }
      }
    }
  }

  lemma KeptNext(m0: Fs, l0: seq<Fs>, l1: seq<Fs>, l2: seq<Fs>, m1: Fs, m2: Fs, srcs: seq<Path>, across: seq<bool>, dir: Path,
                 ds: seq<Path>, losts: seq<set<Path>>, allOk: bool, allGone: bool, d: Path, lost: set<Path>, ok: bool, gone: bool)
    requires |srcs| == |across| && WellFormed(m0) && Unthreatened(m0, srcs, across, dir)
    requires Kept(m0, l0, l1, m1, srcs, dir, ds, losts, allOk, allGone) && |ds| < |srcs| && Placed(m0, m1, srcs, across, dir, ds)
    requires var src := srcs[|ds|];
      && AllSurvive(l1, l2, m1, src, d, lost) && AllElsewhere(l1, l2, m1, src, d) && Elsewhere(m1, m2, src, d)
      && MoveResult(m1, m2, src, dir, d, lost, ok) && (forall l :: l in lost ==> Under(src, l) && l != src)
      && (gone ==> src == Target(src, dir) || src !in m2)
    ensures Kept(m0, l0, l2, m2, srcs, dir, ds + [d], losts + [lost], allOk && ok, allGone && gone)
  {
    hide WellFormed, EntriesStay, KeptOne, Still, AllSurvive, AllElsewhere, Elsewhere, NeverReplaced, Clear, MovesTo, Target, Variant, PlacedAs;
    var i := |ds|;
    var src := srcs[i];
    assert MovesTo(m1, src, dir, d) && SourceFor(m0, src, dir) && !Under(src, dir);
    hide MoveResult, Apart, AllFound, PairwiseApart, SourceFor;
    NewKept(m0, l0, l1, l2, m1, m2, src, dir, d, lost, ok, gone);
    KeptAnyway(m0, l0, l2, m2, src, dir, d, lost, ok, gone, allOk && ok, allGone && gone);
    EntriesStayNext(m0, m1, m2, src, dir, d, lost, ok);
    EarlierOnesKept(m0, l0, l1, l2, m1, m2, srcs, across, dir, ds, losts, allOk, allGone, d, allOk && ok, allGone && gone);
    LaterOnesStill(m0, l0, l1, l2, m1, m2, srcs, dir, i, d);
  }

  lemma EarlierOnesKept(m0: Fs, l0: seq<Fs>, l1: seq<Fs>, l2: seq<Fs>, m1: Fs, m2: Fs, srcs: seq<Path>, across: seq<bool>, dir: Path,
                        ds: seq<Path>, losts: seq<set<Path>>, allOk: bool, allGone: bool, d: Path, ok1: bool, gone1: bool)
    requires |srcs| == |across| && WellFormed(m0) && Unthreatened(m0, srcs, across, dir)
    requires Kept(m0, l0, l1, m1, srcs, dir, ds, losts, allOk, allGone) && |ds| < |srcs| && Placed(m0, m1, srcs, across, dir, ds)
    requires MovesTo(m1, srcs[|ds|], dir, d) && AllElsewhere(l1, l2, m1, srcs[|ds|], d) && Elsewhere(m1, m2, srcs[|ds|], d)
    requires (ok1 ==> allOk) && (gone1 ==> allGone)
    ensures forall h :: 0 <= h < |ds| ==> KeptOne(m0, l0, l2, m2, srcs[h], dir, ds[h], losts[h], ok1, gone1)
  {
    hide WellFormed, Unthreatened, EntriesStay, KeptOne, Still, AllElsewhere, Elsewhere, MovesTo, PlacedAs, Apart;
    forall h | 0 <= h < |ds|
      ensures KeptOne(m0, l0, l2, m2, srcs[h], dir, ds[h], losts[h], ok1, gone1)
    {
      EarlierKept(m0, l0, l1, l2, m1, m2, srcs, across, dir, |ds|, h, ds[h], losts[h], d, allOk, allGone, ok1, gone1);
    }
  }

  lemma LaterOnesStill(m0: Fs, l0: seq<Fs>, l1: seq<Fs>, l2: seq<Fs>, m1: Fs, m2: Fs, srcs: seq<Path>, dir: Path, i: nat, d: Path)
    requires WellFormed(m0) && AllFound(m0, srcs, dir) && PairwiseApart(srcs) && Clear(srcs, dir) && EntriesStay(m0, m1, dir)
    requires i < |srcs| && forall j :: i < j < |srcs| ==> Still(m0, l0, l1, m1, srcs[j])
    requires MovesTo(m1, srcs[i], dir, d) && AllElsewhere(l1, l2, m1, srcs[i], d) && Elsewhere(m1, m2, srcs[i], d)
    ensures forall j :: i < j < |srcs| ==> Still(m0, l0, l2, m2, srcs[j]) && Apart(d, srcs[j])
  {
    hide WellFormed, AllFound, Clear, EntriesStay, Still, AllElsewhere, Elsewhere, MovesTo;
    forall j | i < j < |srcs|
      ensures Still(m0, l0, l2, m2, srcs[j]) && Apart(d, srcs[j])
    {
      PlaceApart(m0, m1, srcs, dir, i, j, d);
      LaterStill(m0, l0, l1, l2, m1, m2, srcs[j], srcs[i], d);
    }
  }

  /** A job that stops early has left the remaining items where they were. */
  lemma KeptToEnd(m0: Fs, l0: seq<Fs>, l1: seq<Fs>, m: Fs, srcs: seq<Path>, dir: Path, ds: seq<Path>, losts: seq<set<Path>>, allOk: bool, allGone: bool, j: nat)
    requires Kept(m0, l0, l1, m, srcs, dir, ds, losts, allOk, allGone) && |ds| <= j < |srcs|
    ensures AllSurvive(l0, l1, m0, srcs[j], srcs[j], {}) && Survives(m0, m, srcs[j], srcs[j], {})
  {
    assert Still(m0, l0, l1, m, srcs[j]);
  }

  ghost predicate AllExplained(m0: Fs, srcs: seq<Path>, losts: seq<set<Path>>, e0: seq<set<Path>>, e1: seq<set<Path>>) {
    |losts| <= |srcs| && forall h :: 0 <= h < |losts| ==> Explained(m0, srcs[h], losts[h], e0, e1)
  }

  lemma ExplainedNext(m0: Fs, m1: Fs, srcs: seq<Path>, losts: seq<set<Path>>, lost: set<Path>,
                      e0: seq<set<Path>>, e1: seq<set<Path>>, e2: seq<set<Path>>)
    requires |losts| < |srcs| && AllExplained(m0, srcs, losts, e0, e1) && e0 <= e1 <= e2
    requires SameSubtree(m0, m1, srcs[|losts|]) && Explained(m1, srcs[|losts|], lost, e1, e2)
    ensures AllExplained(m0, srcs, losts + [lost], e0, e2)
  {
    hide Skips, SameSubtree;
    SkipsSplit(e0, e1, e2);
    ExplainedSince(m0, m1, srcs[|losts|], lost, e0, e1, e2);
  }

  /** The whole job: what each source's leaves came to. */
  ghost predicate JobSurvives(m0: Fs, l0: seq<Fs>, l1: seq<Fs>, m: Fs, srcs: seq<Path>, ds: seq<Path>, losts: seq<set<Path>>,
                              e0: seq<set<Path>>, e1: seq<set<Path>>) {
    |ds| == |losts| == |srcs| && forall j :: 0 <= j < |srcs| ==>
      && AllSurvive(l0, l1, m0, srcs[j], ds[j], losts[j]) && Survives(m0, m, srcs[j], ds[j], losts[j])
      && Explained(m0, srcs[j], losts[j], e0, e1)
  }

  lemma JobEnds(m0: Fs, l0: seq<Fs>, l1: seq<Fs>, m: Fs, srcs: seq<Path>, across: seq<bool>, dir: Path,
                ds: seq<Path>, losts: seq<set<Path>>, allOk: bool, allGone: bool, e0: seq<set<Path>>, e1: seq<set<Path>>)
    requires |srcs| == |across| && Unthreatened(m0, srcs, across, dir) && KeptSoFar(m0, l0, l1, m, srcs, across, dir, ds, losts, allOk, allGone, e0, e1)
    ensures |ds| <= |srcs| && JobSurvives(m0, l0, l1, m, srcs, ds + srcs[|ds|..], losts + seq(|srcs| - |ds|, _ => {}), e0, e1)
    ensures allOk && |ds| == |srcs| ==> JobArrived(m0, m, srcs, dir, ds + srcs[|ds|..], losts + seq(|srcs| - |ds|, _ => {}))
    ensures var losts1 := losts + seq(|srcs| - |ds|, _ => {}); e0 == e1 ==> forall j :: 0 <= j < |losts1| ==> losts1[j] == {}
    ensures allGone && |ds| == |srcs| ==> forall j :: 0 <= j < |srcs| ==> srcs[j] == Target(srcs[j], dir) || srcs[j] !in m
  {
    if e0 == e1 {
      NothingLost(m0, srcs, losts, e0);
    }
    hide AllSurvive, Survives, Still, Explained, Arrived, Variant;
    var ds1, losts1 := ds + srcs[|ds|..], losts + seq(|srcs| - |ds|, _ => {});
    forall j | 0 <= j < |srcs|
      ensures AllSurvive(l0, l1, m0, srcs[j], ds1[j], losts1[j]) && Survives(m0, m, srcs[j], ds1[j], losts1[j])
      ensures Explained(m0, srcs[j], losts1[j], e0, e1)
      ensures allOk && j < |ds| && srcs[j] in m0 ==> Variant(ds1[j], Target(srcs[j], dir)) && Arrived(m0, m, srcs[j], ds1[j], losts1[j])
      ensures allGone && j < |ds| ==> srcs[j] == Target(srcs[j], dir) || srcs[j] !in m
    {
      if j < |ds| {
        assert KeptOne(m0, l0, l1, m, srcs[j], dir, ds[j], losts[j], allOk, allGone);
      } else {
        KeptToEnd(m0, l0, l1, m, srcs, dir, ds, losts, allOk, allGone, j);
        NothingToExplain(m0, srcs[j], e0, e1);
      }
    }
  }

  /** Every item is at its place, without what was skipped. */
  ghost predicate JobArrived(m0: Fs, m: Fs, srcs: seq<Path>, dir: Path, ds: seq<Path>, losts: seq<set<Path>>) {
    |ds| == |losts| == |srcs| && forall j :: 0 <= j < |srcs| ==> srcs[j] in m0 ==>
      Variant(ds[j], Target(srcs[j], dir)) && Arrived(m0, m, srcs[j], ds[j], losts[j])
  }

  /** Without early-ended directory reads nothing at all is lost. */
  lemma NothingLost(m0: Fs, srcs: seq<Path>, losts: seq<set<Path>>, e: seq<set<Path>>)
    requires AllExplained(m0, srcs, losts, e, e)
    ensures forall j :: 0 <= j < |losts| ==> losts[j] == {}
  {
    NoSkips(e);
  }

  // ---------- nothing in part ----------

  /** `x` is what was at some place of a source, and `p` is that place below a name the source may take. */
  ghost predicate FromSource(m0: Fs, x: Node, p: Path, srcs: seq<Path>, dir: Path) {
    exists j, d, s :: 0 <= j < |srcs| && Variant(d, Target(srcs[j], dir)) && p == d + s && Suffix(s) && At(m0, srcs[j], s) == Some(x)
  }

  /** Everything is an old thing at its old place, or a complete copy of what was at a source. */
  ghost predicate AllWhole(m0: Fs, m: Fs, srcs: seq<Path>, dir: Path) {
    forall p :: p in m ==> Get(m0, p) == Some(m[p]) || FromSource(m0, m[p], p, srcs, dir)
  }

  lemma AllWholeNext(m0: Fs, m1: Fs, m2: Fs, srcs: seq<Path>, dir: Path, i: nat, d: Path)
    requires AllWhole(m0, m1, srcs, dir) && i < |srcs| && SameSubtree(m0, m1, srcs[i]) && Whole(m1, m2, srcs[i], d)
    requires m2 == m1 || (Variant(d, Target(srcs[i], dir)) && forall p :: p in m2 && !Under(d, p) ==> Get(m2, p) == Get(m1, p))
    ensures AllWhole(m0, m2, srcs, dir)
  {
    forall p | p in m2
      ensures Get(m0, p) == Some(m2[p]) || FromSource(m0, m2[p], p, srcs, dir)
    {
      if m2 != m1 && Under(d, p) {
        UnderSplit(d, p);
        var s := p[|d|..];
        assert At(m2, d, s) == At(m1, srcs[i], s);
        assert At(m1, srcs[i], s) == At(m0, srcs[i], s);
      } else {
        assert Get(m2, p) == Get(m1, p);
      }
    }
  }

  /** What a copy left is whole unless a read or write failed. */
  lemma CopyIsWhole(m1: Fs, m2: Fs, src: Path, d: Path, ok: bool, lost: set<Path>)
    requires Apart(src, d) && CopyResult(m1, m2, src, d, ok, lost, true)
    ensures Whole(m1, m2, src, d)
  {
    ApartUnchanged(m1, m2, src, d);
    forall s | Suffix(s) && At(m2, d, s) != None
      ensures At(m2, d, s) == At(m1, src, s)
    {
      assert At(m2, src, s) == At(m1, src, s);
    }
  }

  lemma WholeAfterDelete(m0: Fs, m1: Fs, m2: Fs, src: Path, d: Path)
    requires Apart(src, d) && Whole(m0, m1, src, d) && OnlyUnder(m1, m2, src)
    ensures Whole(m0, m2, src, d)
  {
    ApartUnchanged(m1, m2, d, src);
    forall s | Suffix(s) && At(m2, d, s) != None
      ensures At(m2, d, s) == At(m0, src, s)
    {
      assert At(m2, d, s) == At(m1, d, s);
    }
  }

  /** The same for a move, given its result. */
  lemma MoveIsWhole(m0: Fs, m1: Fs, m2: Fs, srcs: seq<Path>, dir: Path, i: nat, d: Path, lost: set<Path>, ok: bool)
    requires AllWhole(m0, m1, srcs, dir) && i < |srcs| && SameSubtree(m0, m1, srcs[i]) && Whole(m1, m2, srcs[i], d)
    requires MoveResult(m1, m2, srcs[i], dir, d, lost, ok)
    ensures AllWhole(m0, m2, srcs, dir)
  {
    if d != srcs[i] {
      var _ := PlaceIsEntry(m1, srcs[i], dir, d);
    }
    hide AllWhole, Whole, SameSubtree;
    AllWholeNext(m0, m1, m2, srcs, dir, i, d);
  }

  lemma CopyAllWhole(m0: Fs, m1: Fs, m2: Fs, srcs: seq<Path>, dir: Path, i: nat, d: Path, ok: bool, lost: set<Path>)
    requires AllWhole(m0, m1, srcs, dir) && i < |srcs| && Intact(m0, m1, srcs, 0) && Apart(srcs[i], d)
    requires Variant(d, Target(srcs[i], dir)) && CopyResult(m1, m2, srcs[i], d, ok, lost, true)
    ensures AllWhole(m0, m2, srcs, dir)
  {
    CopyIsWhole(m1, m2, srcs[i], d, ok, lost);
    assert SameSubtree(m0, m1, srcs[i]);
    hide AllWhole, Whole, SameSubtree, Variant, NoPartial;
    AllWholeNext(m0, m1, m2, srcs, dir, i, d);
  }

  lemma MoveAllWhole(m0: Fs, m1: Fs, m2: Fs, srcs: seq<Path>, dir: Path, i: nat, d: Path, lost: set<Path>, ok: bool)
    requires AllWhole(m0, m1, srcs, dir) && i < |srcs| && Intact(m0, m1, srcs, i) && Whole(m1, m2, srcs[i], d)
    requires MoveResult(m1, m2, srcs[i], dir, d, lost, ok)
    ensures AllWhole(m0, m2, srcs, dir)
  {
    assert SameSubtree(m0, m1, srcs[i]);
    hide AllWhole, Whole, SameSubtree, MoveResult;
    MoveIsWhole(m0, m1, m2, srcs, dir, i, d, lost, ok);
  }

  // ---------- the steps of a whole job ----------

  ghost predicate KeptSoFar(m0: Fs, l0: seq<Fs>, l1: seq<Fs>, m: Fs, srcs: seq<Path>, across: seq<bool>, dir: Path,
                            ds: seq<Path>, losts: seq<set<Path>>, allOk: bool, allGone: bool, e0: seq<set<Path>>, e1: seq<set<Path>>)
    requires |srcs| == |across|
  {
    Unthreatened(m0, srcs, across, dir) ==>
      && Kept(m0, l0, l1, m, srcs, dir, ds, losts, allOk, allGone) && AllExplained(m0, srcs, losts, e0, e1)
      && Placed(m0, m, srcs, across, dir, ds)
  }

  /** How far a move job is, for items out of each other's way, or outside the target directory: which items are as
      they were, whether all is whole, and how far the counter is. */
  ghost predicate Tally(m0: Fs, m: Fs, srcs: seq<Path>, dir: Path, i: nat, done: int, smooth: bool, clean: bool) {
    && i <= |srcs|
    && (Untangled(m0, srcs, dir) ==> Intact(m0, m, srcs, i) && (clean ==> AllWhole(m0, m, srcs, dir)))
    && (AllOutside(srcs, dir) ==> Shrunk(m0, m, srcs))
    && (Untangled(m0, srcs, dir) || AllOutside(srcs, dir) ==>
      Counted(0, done, LeafTotal(m0, srcs[..i]), true, smooth && Untangled(m0, srcs, dir)))
  }

  lemma TallyNext(m0: Fs, m1: Fs, m2: Fs, srcs: seq<Path>, dir: Path, i: nat, d: Path, lost: set<Path>, ok: bool,
                  done0: int, done1: int, smooth0: bool, smooth1: bool, clean0: bool, clean1: bool)
    requires WellFormed(m1) && i < |srcs| && Tally(m0, m1, srcs, dir, i, done0, smooth0, clean0)
    requires MoveResult(m1, m2, srcs[i], dir, d, lost, ok) && (clean1 ==> Whole(m1, m2, srcs[i], d))
    requires Counted(done0, done1, |Leaves(m1, srcs[i])|, true, smooth1)
    ensures Tally(m0, m2, srcs, dir, i + 1, done1, smooth0 && smooth1, clean0 && clean1)
  {
    hide MoveResult, Intact, Shrunk, Untangled, AllOutside, WellFormed, AllWhole, Whole, Leaves, LeafTotal;
    SourceLeaves(m0, m1, srcs, i, dir);
    if Untangled(m0, srcs, dir) {
      OthersKept(m0, m1, m2, srcs, i, dir, d, lost, ok);
      if clean0 && clean1 {
        MoveAllWhole(m0, m1, m2, srcs, dir, i, d, lost, ok);
      }
    }
    if AllOutside(srcs, dir) {
      ShrunkNext(m0, m1, m2, srcs, srcs[i], dir, d, lost, ok);
    }
  }

  lemma TallyAnyway(m0: Fs, m: Fs, srcs: seq<Path>, dir: Path, i: nat, done: int, clean: bool)
    ensures Tally(m0, m, srcs, dir, i, done, true, clean) ==> Tally(m0, m, srcs, dir, i, done, false, clean)
  {
  }

  lemma TallyEnds(m0: Fs, m: Fs, srcs: seq<Path>, dir: Path, i: nat, done: int, smooth: bool, clean: bool)
    requires Tally(m0, m, srcs, dir, i, done, smooth, clean)
    ensures Untangled(m0, srcs, dir) || AllOutside(srcs, dir) ==> done <= LeafTotal(m0, srcs)
    ensures Untangled(m0, srcs, dir) && smooth && i == |srcs| ==> done == LeafTotal(m0, srcs)
    ensures Untangled(m0, srcs, dir) && clean ==> AllWhole(m0, m, srcs, dir)
  {
    LeafTotalPrefix(m0, srcs, i);
    assert srcs[..|srcs|] == srcs;
  }

  /** How far a move job is, in all. */
  ghost predicate MoveProgress(m0: Fs, l0: seq<Fs>, l1: seq<Fs>, m: Fs, srcs: seq<Path>, across: seq<bool>, dir: Path, i: nat, done: int,
                               ds: seq<Path>, losts: seq<set<Path>>, failed: bool, faultless: bool, smooth: bool, clean: bool, calm: bool,
                               e0: seq<set<Path>>, e1: seq<set<Path>>)
    requires i <= |srcs| == |across|
  {
    && |ds| == i == |losts| && e0 <= e1 && RoomFor(m, srcs, across, dir, i)
    && AllMoveFrame(l0, l1, m0, srcs, dir) && MoveFrame(m0, m, srcs, dir)
    && Tally(m0, m, srcs, dir, i, done, smooth, clean)
    && KeptSoFar(m0, l0, l1, m, srcs, across, dir, ds, losts, !failed, !failed && faultless, e0, e1)
    && Sent(m0, m, srcs, across, dir, i, calm, failed, !failed && faultless)
  }

  lemma JobStarts(m: Fs, l: seq<Fs>, srcs: seq<Path>, across: seq<bool>, dir: Path, gone: bool, e0: seq<set<Path>>, e1: seq<set<Path>>)
    requires |srcs| == |across|
    requires RoomFor(m, srcs, across, dir, 0) && e0 <= e1
    ensures forall faultless, smooth, clean, calm :: (gone ==> faultless) && (calm && Present(m, srcs, |srcs|) ==> faultless) ==>
      MoveProgress(m, l, l, m, srcs, across, dir, 0, 0, [], [], false, faultless, smooth, clean, calm, e0, e1)
  {
    KeptAtStart(m, l, srcs, dir);
    IntactAtStart(m, srcs);
    FramesAtStart(m, l, srcs, dir);
  }

  /** A job that is stopped was not smooth. */
  lemma ProgressAnyway(m0: Fs, l0: seq<Fs>, l1: seq<Fs>, m: Fs, srcs: seq<Path>, across: seq<bool>, dir: Path, i: nat, done: int,
                       ds: seq<Path>, losts: seq<set<Path>>, failed: bool, faultless: bool, clean: bool,
                       e0: seq<set<Path>>, e1: seq<set<Path>>)
    requires i <= |srcs| == |across|
    ensures forall smooth, calm :: MoveProgress(m0, l0, l1, m, srcs, across, dir, i, done, ds, losts, failed, faultless, smooth, clean, calm, e0, e1) ==>
      MoveProgress(m0, l0, l1, m, srcs, across, dir, i, done, ds, losts, failed, faultless, false, clean, false, e0, e1)
  {
    hide RoomFor, AllMoveFrame, MoveFrame, KeptSoFar;
    TallyAnyway(m0, m, srcs, dir, i, done, clean);
  }

  /** What has been reached when a job is over: either every item had its turn, or it was stopped. */
  lemma MoveEnds(m0: Fs, l0: seq<Fs>, l1: seq<Fs>, m: Fs, srcs: seq<Path>, across: seq<bool>, dir: Path, i: nat, done: int,
                 ds: seq<Path>, losts: seq<set<Path>>, failed: bool, faultless: bool, smooth: bool, clean: bool, calm: bool,
                 e0: seq<set<Path>>, e1: seq<set<Path>>)
    requires i <= |srcs| == |across| && (smooth || calm ==> i == |srcs|)
    requires MoveProgress(m0, l0, l1, m, srcs, across, dir, i, done, ds, losts, failed, faultless, smooth, clean, calm, e0, e1)
    ensures |ds| == i == |losts| && AllMoveFrame(l0, l1, m0, srcs, dir) && MoveFrame(m0, m, srcs, dir)
    ensures Untangled(m0, srcs, dir) && clean ==> AllWhole(m0, m, srcs, dir)
    ensures Untangled(m0, srcs, dir) || AllOutside(srcs, dir) ==> done <= LeafTotal(m0, srcs)
    ensures AllFound(m0, srcs, dir) && PairwiseApart(srcs) && NoneInTheWay(srcs, dir) && smooth ==> done == LeafTotal(m0, srcs)
    ensures var ds1, losts1 := ds + srcs[i..], losts + seq(|srcs| - i, _ => {}); Unthreatened(m0, srcs, across, dir) ==>
      && JobSurvives(m0, l0, l1, m, srcs, ds1, losts1, e0, e1)
      && (e0 == e1 ==> forall j :: 0 <= j < |losts1| ==> losts1[j] == {})
      && (!failed && i == |srcs| ==> JobArrived(m0, m, srcs, dir, ds1, losts1))
      && (!failed && faultless && i == |srcs| ==> forall j :: 0 <= j < |srcs| ==> srcs[j] == Target(srcs[j], dir) || srcs[j] !in m)
    ensures calm ==> m == SentAll(m0, srcs, across, dir, |srcs|) && (failed <==> !AllGo(m0, srcs, across, dir, |srcs|))
    ensures calm && !failed && Present(m0, srcs, |srcs|) && Untangled(m0, srcs, dir) ==> faultless
    ensures calm && (forall j :: 0 <= j < |across| ==> !across[j]) ==> m == MovedAll(m0, srcs, dir)
  {
    hide Tally, KeptSoFar, JobSurvives, JobArrived, Unthreatened, Untangled, AllOutside, RoomFor, Under, LeafTotal, Sent, SentAll, AllGo,
      MovedAll, AllFound, PairwiseApart, NoneInTheWay, Present, AllMoveFrame, MoveFrame, AllWhole, Target;
    UntangledIs(m0, srcs, dir);
    TallyEnds(m0, m, srcs, dir, i, done, smooth, clean);
    SentEnds(m0, m, srcs, across, dir, i, calm, failed, !failed && faultless);
    if Unthreatened(m0, srcs, across, dir) {
      JobEnds(m0, l0, l1, m, srcs, across, dir, ds, losts, !failed, !failed && faultless, e0, e1);
    }
  }

  lemma UntangledIs(m: Fs, srcs: seq<Path>, dir: Path)
    ensures Untangled(m, srcs, dir) <==> AllFound(m, srcs, dir) && PairwiseApart(srcs) && NoneInTheWay(srcs, dir)
  {
  }

  /** How far a move job is when every call that can succeed does. */
  ghost predicate Sent(m0: Fs, m: Fs, srcs: seq<Path>, across: seq<bool>, dir: Path, i: nat, undisturbed: bool, failed: bool, faultless: bool)
    requires i <= |srcs| == |across|
  {
    undisturbed ==>
      && m == SentAll(m0, srcs, across, dir, i) && (failed <==> !AllGo(m0, srcs, across, dir, i))
      && (!failed && Present(m0, srcs, |srcs|) && Untangled(m0, srcs, dir) ==> faultless)
  }

  lemma SentNext(m0: Fs, m1: Fs, m2: Fs, srcs: seq<Path>, across: seq<bool>, dir: Path, i: nat, undisturbed0: bool, undisturbed1: bool,
                 failed: bool, ok: bool, faultless0: bool, faultless1: bool)
    requires i < |srcs| == |across| && Sent(m0, m1, srcs, across, dir, i, undisturbed0, failed, faultless0)
    requires undisturbed1 ==> m2 == SentItem(m1, srcs[i], dir, across[i]) && (ok <==> Goes(m1, srcs[i], dir, across[i]))
    requires undisturbed1 && ok && Present(m0, srcs, |srcs|) && Untangled(m0, srcs, dir) ==> faultless1
    ensures Sent(m0, m2, srcs, across, dir, i + 1, undisturbed0 && undisturbed1, failed || !ok, faultless0 && ok && faultless1)
  {
    hide SentItem, Goes, Untangled;
  }

  lemma SentEnds(m0: Fs, m: Fs, srcs: seq<Path>, across: seq<bool>, dir: Path, i: nat, undisturbed: bool, failed: bool, faultless: bool)
    requires i <= |srcs| == |across| && (undisturbed ==> i == |srcs|) && Sent(m0, m, srcs, across, dir, i, undisturbed, failed, faultless)
    ensures undisturbed ==> m == SentAll(m0, srcs, across, dir, |srcs|) && (failed <==> !AllGo(m0, srcs, across, dir, |srcs|))
    ensures undisturbed && !failed && Present(m0, srcs, |srcs|) && Untangled(m0, srcs, dir) ==> faultless
    ensures undisturbed && (forall j :: 0 <= j < |across| ==> !across[j]) ==> m == MovedAll(m0, srcs, dir)
  {
    if forall j :: 0 <= j < |across| ==> !across[j] {
      SentWithin(m0, srcs, across, dir, |srcs|);
      assert srcs[..|srcs|] == srcs;
    }
  }

  lemma StillPresent(m0: Fs, m: Fs, srcs: seq<Path>, dir: Path, i: nat, done: int, smooth: bool, clean: bool)
    requires i < |srcs| && Tally(m0, m, srcs, dir, i, done, smooth, clean)
    ensures Untangled(m0, srcs, dir) && Present(m0, srcs, |srcs|) ==> srcs[i] in m
  {
    if Untangled(m0, srcs, dir) {
      SameSubtreeFacts(m0, m, srcs[i]);
    }
  }

  /** How many files an item still holds when its turn comes. */
  lemma SourceLeaves(m0: Fs, m: Fs, srcs: seq<Path>, i: nat, dir: Path)
    requires i < |srcs|
    ensures LeafTotal(m0, srcs[..i + 1]) == LeafTotal(m0, srcs[..i]) + |Leaves(m0, srcs[i])|
    ensures Intact(m0, m, srcs, i) ==> |Leaves(m, srcs[i])| == |Leaves(m0, srcs[i])|
    ensures Shrunk(m0, m, srcs) ==> |Leaves(m, srcs[i])| <= |Leaves(m0, srcs[i])|
  {
    LeafTotalNext(m0, srcs, i);
    if Intact(m0, m, srcs, i) {
      SameSubtreeFacts(m0, m, srcs[i]);
    }
    if Shrunk(m0, m, srcs) {
      ShrunkSource(m0, m, srcs, i);
    }
  }

  lemma SourceDone(m1: Fs, m2: Fs, srcs: seq<Path>, across: seq<bool>, i: nat, dir: Path, d: Path, lost: set<Path>, ok: bool)
    requires i < |srcs| == |across| && MoveResult(m1, m2, srcs[i], dir, d, lost, ok)
    ensures RoomFor(m1, srcs, across, dir, i) ==> RoomFor(m2, srcs, across, dir, i + 1)
  {
    if d != srcs[i] {
      var _ := PlaceIsEntry(m1, srcs[i], dir, d);
    }
    if RoomFor(m1, srcs, across, dir, i) {
      RoomNext(m1, m2, srcs, across, dir, i, d);
    }
  }

  lemma SourceKept(m0: Fs, l0: seq<Fs>, l1: seq<Fs>, l2: seq<Fs>, m1: Fs, m2: Fs, srcs: seq<Path>, across: seq<bool>, dir: Path,
                   ds: seq<Path>, losts: seq<set<Path>>, allOk: bool, allGone: bool, d: Path, lost: set<Path>, ok: bool, gone: bool,
                   e0: seq<set<Path>>, e1: seq<set<Path>>, e2: seq<set<Path>>)
    requires |srcs| == |across| && WellFormed(m0) && KeptSoFar(m0, l0, l1, m1, srcs, across, dir, ds, losts, allOk, allGone, e0, e1) && |ds| == |losts| < |srcs|
    requires var src := srcs[|ds|];
      && AllSurvive(l1, l2, m1, src, d, lost) && AllElsewhere(l1, l2, m1, src, d)
      && MoveResult(m1, m2, src, dir, d, lost, ok) && Explained(m1, src, lost, e1, e2)
      && (gone ==> src == Target(src, dir) || src !in m2)
      && (across[|ds|] || d == src || d == Target(src, dir))
    requires e0 <= e1 <= e2
    ensures KeptSoFar(m0, l0, l2, m2, srcs, across, dir, ds + [d], losts + [lost], allOk && ok, allGone && gone, e0, e2)
  {
    if Unthreatened(m0, srcs, across, dir) {
      var src := srcs[|ds|];
      PlacedNext(m0, m1, m2, srcs, across, dir, ds, d, lost, ok);
      assert Elsewhere(m1, m2, src, d);
      assert Still(m0, l0, l1, m1, src);
      assert forall l :: l in lost ==> Under(src, l) && l != src;
      hide MoveResult, Elsewhere, Explained, AllExplained, AllSurvive, AllElsewhere, WellFormed, Unthreatened, Placed;
      KeptNext(m0, l0, l1, l2, m1, m2, srcs, across, dir, ds, losts, allOk, allGone, d, lost, ok, gone);
      ExplainedNext(m0, m1, srcs, losts, lost, e0, e1, e2);
    }
  }

  /** What an item's turn can count on: a free name when it has to be copied, and its own presence. */
  lemma BeforeMove(m0: Fs, l0: seq<Fs>, l1: seq<Fs>, m: Fs, srcs: seq<Path>, across: seq<bool>, dir: Path, i: nat, done: int,
                   ds: seq<Path>, losts: seq<set<Path>>, failed: bool, faultless: bool, smooth: bool, clean: bool, calm: bool,
                   e0: seq<set<Path>>, e1: seq<set<Path>>)
    requires i < |srcs| == |across|
    requires MoveProgress(m0, l0, l1, m, srcs, across, dir, i, done, ds, losts, failed, faultless, smooth, clean, calm, e0, e1)
    ensures across[i] ==> Resolved(m, Target(srcs[i], dir)) !in m
    ensures Untangled(m0, srcs, dir) && Present(m0, srcs, |srcs|) ==> srcs[i] in m
  {
    hide Tally, KeptSoFar, RoomFor, Sent, AllMoveFrame, MoveFrame, Untangled, Present, Resolved, Target;
    if across[i] {
      RoomNow(m, srcs, across, dir, i);
    }
    StillPresent(m0, m, srcs, dir, i, done, smooth, clean);
  }

  /** One more move carries a job on. */
  lemma ProgressNext(m0: Fs, l0: seq<Fs>, l1: seq<Fs>, l2: seq<Fs>, m1: Fs, m2: Fs, srcs: seq<Path>, across: seq<bool>, dir: Path, i: nat,
                     done0: int, done1: int, ds: seq<Path>, losts: seq<set<Path>>, d: Path, lost: set<Path>, failed: bool, ok: bool,
                     faultless0: bool, faultless1: bool, smooth0: bool, smooth1: bool, clean0: bool, clean1: bool, calm0: bool, calm1: bool,
                     e0: seq<set<Path>>, e1: seq<set<Path>>, e2: seq<set<Path>>)
    requires WellFormed(m0) && WellFormed(m1) && i < |srcs| == |across| && e1 <= e2
    requires MoveProgress(m0, l0, l1, m1, srcs, across, dir, i, done0, ds, losts, failed, faultless0, smooth0, clean0, calm0, e0, e1)
    requires AllSurvive(l1, l2, m1, srcs[i], d, lost) && AllElsewhere(l1, l2, m1, srcs[i], d)
    requires MoveResult(m1, m2, srcs[i], dir, d, lost, ok) && Explained(m1, srcs[i], lost, e1, e2)
    requires faultless1 && ok ==> srcs[i] == Target(srcs[i], dir) || srcs[i] !in m2
    requires across[i] || d == srcs[i] || d == Target(srcs[i], dir)
    requires clean1 ==> Whole(m1, m2, srcs[i], d)
    requires Counted(done0, done1, |Leaves(m1, srcs[i])|, true, smooth1)
    requires calm1 ==> m2 == SentItem(m1, srcs[i], dir, across[i]) && (ok <==> Goes(m1, srcs[i], dir, across[i]))
    requires calm1 && ok && srcs[i] in m1 ==> faultless1
    ensures MoveProgress(m0, l0, l2, m2, srcs, across, dir, i + 1, done1, ds + [d], losts + [lost], failed || !ok, faultless0 && faultless1,
                         smooth0 && smooth1, clean0 && clean1, calm0 && calm1, e0, e2)
  {
    BeforeMove(m0, l0, l1, m1, srcs, across, dir, i, done0, ds, losts, failed, faultless0, smooth0, clean0, calm0, e0, e1);
    hide Tally, KeptSoFar, RoomFor, Sent, AllMoveFrame, MoveFrame, Untangled, Present, Resolved, Target, AllSurvive, AllElsewhere, MoveResult,
      Explained, Whole, Counted, Leaves, SentItem, Goes, WellFormed;
    TallyNext(m0, m1, m2, srcs, dir, i, d, lost, ok, done0, done1, smooth0, smooth1, clean0, clean1);
    SourceDone(m1, m2, srcs, across, i, dir, d, lost, ok);
    MoveFrameNext(m0, l0, l1, l2, m1, m2, srcs, dir, i, d, lost, ok);
    SourceKept(m0, l0, l1, l2, m1, m2, srcs, across, dir, ds, losts, !failed, !failed && faultless0, d, lost, ok, ok && faultless1, e0, e1, e2);
    SentNext(m0, m1, m2, srcs, across, dir, i, calm0, calm1, failed, ok, !failed && faultless0, faultless1);
  }
}
