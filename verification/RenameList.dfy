/** Moving a list of items within one file system, and where the conditions on such lists matter. */
module RenameList {
  import opened Paths
  import opened CopyTheory
  import opened Conflict
  import opened Rename
  import opened Steps
  import opened MoveTheory

  // ---------- renaming a list of items ----------

  ghost function MovedAll(m: Fs, srcs: seq<Path>, dir: Path): Fs {
    if srcs == [] then m else MovedItem(MovedAll(m, srcs[..|srcs| - 1], dir), srcs[|srcs| - 1], dir)
  }

  /** The first `i` items of a move, some of them to another file system, when every call that can succeed does. */
  ghost function SentAll(m: Fs, srcs: seq<Path>, across: seq<bool>, dir: Path, i: nat): Fs
    requires i <= |srcs| == |across|
  {
    if i == 0 then m else SentItem(SentAll(m, srcs, across, dir, i - 1), srcs[i - 1], dir, across[i - 1])
  }

  /** Each of the first `i` items can go when its turn comes. */
  ghost predicate AllGo(m: Fs, srcs: seq<Path>, across: seq<bool>, dir: Path, i: nat)
    requires i <= |srcs| == |across|
  {
    forall j :: 0 <= j < i ==> Goes(SentAll(m, srcs, across, dir, j), srcs[j], dir, across[j])
  }

  lemma SentAsMoved(m: Fs, src: Path, dir: Path)
    ensures SentItem(m, src, dir, false) == MovedItem(m, src, dir)
  {
    hide Renamed, Resolved, Target, Ancestors;
  }

  lemma {:induction false} SentWithin(m: Fs, srcs: seq<Path>, across: seq<bool>, dir: Path, i: nat)
    requires i <= |srcs| == |across| && forall j :: 0 <= j < i ==> !across[j]
    ensures SentAll(m, srcs, across, dir, i) == MovedAll(m, srcs[..i], dir)
  {
    hide MovedItem, SentItem, Goes, MayRename;
    if i > 0 {
      SentWithin(m, srcs, across, dir, i - 1);
      assert srcs[..i][..i - 1] == srcs[..i - 1];
      SentAsMoved(SentAll(m, srcs, across, dir, i - 1), srcs[i - 1], dir);
    }
  }

  /** The same things are at `a` and at `b`. */
  ghost predicate Alike(m: Fs, a: Path, b: Path) {
    forall s :: Suffix(s) ==> At(m, a, s) == At(m, b, s)
  }

  /** Sources that exist, not above the target directory, and out of each other's way. */
  ghost predicate Movable(m: Fs, srcs: seq<Path>, dir: Path) {
    && WellFormed(m) && Present(m, srcs, |srcs|) && PairwiseApart(srcs) && Clear(srcs, dir)
    && forall j :: 0 <= j < |srcs| ==> !Under(srcs[j], dir)
  }

  /** Every item is at its place. */
  ghost predicate AllArrived(m0: Fs, m: Fs, srcs: seq<Path>, dir: Path) {
    forall j :: 0 <= j < |srcs| ==> Arrived(m0, m, srcs[j], Target(srcs[j], dir), {})
  }

  /** Items that go to the same name hold the same, and each rename is one the kernel accepts, or needless. */
  ghost predicate NamesAgree(m: Fs, srcs: seq<Path>, dir: Path) {
    && (forall i, j :: 0 <= i < j < |srcs| && Target(srcs[i], dir) == Target(srcs[j], dir) ==> Alike(m, srcs[i], srcs[j]))
    && (forall j :: 0 <= j < |srcs| ==>
      var t := Target(srcs[j], dir); MayRename(m, srcs[j], t) || Alike(m, srcs[j], t))
  }

  /** Nothing on the way to the target directory has changed. */
  ghost predicate SameAbove(m0: Fs, m: Fs, dir: Path) {
    forall p :: Under(p, dir) ==> Get(m, p) == Get(m0, p)
  }

  /** The sources still to come are whole, and each target is as it was unless an accepted rename went there. */
  ghost predicate MovedSoFar(m0: Fs, m: Fs, srcs: seq<Path>, dir: Path, k: nat)
    requires k <= |srcs|
  {
    && WellFormed(m) && Intact(m0, m, srcs, k) && SameAbove(m0, m, dir)
    && forall j :: 0 <= j < |srcs| ==> SameSubtree(m0, m, Target(srcs[j], dir)) || Filled(m0, srcs, dir, k, Target(srcs[j], dir))
  }

  ghost predicate Filled(m0: Fs, srcs: seq<Path>, dir: Path, k: nat, t: Path)
    requires k <= |srcs|
  {
    exists h :: 0 <= h < k && Target(srcs[h], dir) == t && MayRename(m0, srcs[h], t)
  }

  lemma TargetSlash(src: Path, dir: Path, k: nat)
    requires k < |Target(src, dir)| && Target(src, dir)[k] == '/'
    ensures Under(Target(src, dir)[..k], dir)
  {
    var t, base := Target(src, dir), src[DirLen(src)..];
    assert t[|dir| + 1..] == base;
    if k < |dir| {
      assert dir[k..] == dir[|t[..k]|..] && dir[k] == t[k];
    } else if k == |dir| {
      assert t[..k] == dir;
    }
  }

  /** The kernel's answer depends on the item, its target and the way there only. */
  lemma SameAnswer(m0: Fs, m: Fs, src: Path, dir: Path)
    requires var t := Target(src, dir); SameSubtree(m0, m, src) && SameSubtree(m0, m, t) && SameAbove(m0, m, dir)
    ensures MayRename(m0, src, Target(src, dir)) <==> MayRename(m, src, Target(src, dir))
  {
    var t := Target(src, dir);
    SameEntries(m0, m, t);
    assert src + "" == src && t + "" == t;
    assert At(m, src, "") == At(m0, src, "") && At(m, t, "") == At(m0, t, "");
    forall k | 0 <= k < |t| && t[k] == '/'
      ensures Get(m, t[..k]) == Get(m0, t[..k])
    {
      TargetSlash(src, dir, k);
    }
    assert Ancestors(m0, t) <==> Ancestors(m, t) by {
      assert forall k :: 0 <= k < |t| && t[k] == '/' ==> Get(m, t[..k]) == Get(m0, t[..k]);
    }
  }

  /** The targets of two items are the same, or apart; and an item is apart from another's target. */
  lemma TargetsApart(m: Fs, srcs: seq<Path>, dir: Path, j: nat, k: nat)
    requires Movable(m, srcs, dir) && j < |srcs| && k < |srcs| && j != k
    ensures Apart(srcs[j], Target(srcs[k], dir))
    ensures Target(srcs[j], dir) != Target(srcs[k], dir) ==> Apart(Target(srcs[j], dir), Target(srcs[k], dir))
  {
    var a, b := srcs[j][DirLen(srcs[j])..], srcs[k][DirLen(srcs[k])..];
    var s, t := Child(dir, a), Child(dir, b);
    assert s[|s|..] == "" && t[|t|..] == "";
    NotAbove(srcs[j], dir, b);
    if s != t {
      Siblings(dir, a, b, s);
      Siblings(dir, b, a, t);
    }
  }

  /** What an accepted rename leaves alone. */
  lemma AcceptedElsewhere(m0: Fs, m: Fs, srcs: seq<Path>, dir: Path, k: nat, j: nat)
    requires Movable(m0, srcs, dir) && k < |srcs| && j < |srcs| && MayRename(m, srcs[k], Target(srcs[k], dir))
    ensures var m1 := Renamed(m, srcs[k], Target(srcs[k], dir));
      && (j != k ==> SameSubtree(m, m1, srcs[j]))
      && (Target(srcs[j], dir) != Target(srcs[k], dir) ==> SameSubtree(m, m1, Target(srcs[j], dir)))
      && SameAbove(m, m1, dir)
  {
    var src, t := srcs[k], Target(srcs[k], dir);
    RenamedArrives(m, src, t);
    if j != k {
      TargetsApart(m0, srcs, dir, j, k);
      ElsewhereSame(m, Renamed(m, src, t), src, t, srcs[j]);
      if Target(srcs[j], dir) != t {
        TargetsApart(m0, srcs, dir, k, j);
        ElsewhereSame(m, Renamed(m, src, t), src, t, Target(srcs[j], dir));
      }
    }
    forall p | Under(p, dir)
      ensures !Under(src, p) && !Under(t, p)
    {
      if Under(src, p) { UnderTransitive(src, p, dir); }
    }
  }

  lemma MovedNext(m0: Fs, m: Fs, srcs: seq<Path>, dir: Path, k: nat)
    requires Movable(m0, srcs, dir) && k < |srcs| && MovedSoFar(m0, m, srcs, dir, k)
    ensures MovedSoFar(m0, MovedItem(m, srcs[k], dir), srcs, dir, k + 1)
  {
    hide SameSubtree, WellFormed, Movable, SameAbove, MayRename;
    var src, t, m1 := srcs[k], Target(srcs[k], dir), MovedItem(m, srcs[k], dir);
    if m1 != m {
      RenamedWellFormed(m, src, t);
      AcceptedElsewhere(m0, m, srcs, dir, k, k);
      SameAboveTwice(m0, m, m1, dir);
      if SameSubtree(m0, m, t) {
        SameAnswer(m0, m, src, dir);
      }
      forall j | 0 <= j < |srcs|
        ensures j > k ==> SameSubtree(m0, m1, srcs[j])
        ensures SameSubtree(m0, m1, Target(srcs[j], dir)) || Filled(m0, srcs, dir, k + 1, Target(srcs[j], dir))
      {
        AcceptedElsewhere(m0, m, srcs, dir, k, j);
        if j > k { SameTwice(m0, m, m1, srcs[j]); }
        FilledLater(m0, srcs, dir, k, Target(srcs[j], dir));
        if Target(srcs[j], dir) != t && SameSubtree(m0, m, Target(srcs[j], dir)) {
          SameTwice(m0, m, m1, Target(srcs[j], dir));
        }
      }
    } else {
      forall j | 0 <= j < |srcs| {
        FilledLater(m0, srcs, dir, k, Target(srcs[j], dir));
      }
    }
  }

  lemma SameAboveTwice(m0: Fs, m1: Fs, m2: Fs, dir: Path)
    requires SameAbove(m0, m1, dir) && SameAbove(m1, m2, dir)
    ensures SameAbove(m0, m2, dir)
  {
  }

  lemma FilledLater(m0: Fs, srcs: seq<Path>, dir: Path, k: nat, t: Path)
    requires k < |srcs|
    ensures Filled(m0, srcs, dir, k, t) ==> Filled(m0, srcs, dir, k + 1, t)
    ensures Target(srcs[k], dir) == t && MayRename(m0, srcs[k], t) ==> Filled(m0, srcs, dir, k + 1, t)
  {
  }

  lemma {:induction false} MovedSoFarAlways(m0: Fs, srcs: seq<Path>, dir: Path, k: nat)
    requires Movable(m0, srcs, dir) && k <= |srcs|
    ensures MovedSoFar(m0, MovedAll(m0, srcs[..k], dir), srcs, dir, k)
  {
    if k > 0 {
      MovedSoFarAlways(m0, srcs, dir, k - 1);
      MovedNext(m0, MovedAll(m0, srcs[..k - 1], dir), srcs, dir, k - 1);
      assert srcs[..k][..k - 1] == srcs[..k - 1];
    }
  }

  /** With names that agree, every item dealt with is at its place. */
  lemma ArriveNext(m0: Fs, m: Fs, srcs: seq<Path>, dir: Path, k: nat, h: nat)
    requires Movable(m0, srcs, dir) && NamesAgree(m0, srcs, dir) && h <= k < |srcs| && MovedSoFar(m0, m, srcs, dir, k)
    requires forall i :: 0 <= i < k ==> Arrived(m0, m, srcs[i], Target(srcs[i], dir), {})
    ensures Arrived(m0, MovedItem(m, srcs[k], dir), srcs[h], Target(srcs[h], dir), {})
  {
    hide WellFormed, Movable, SameAbove, MayRename, NamesAgree;
    var src, t, m1 := srcs[k], Target(srcs[k], dir), MovedItem(m, srcs[k], dir);
    if Target(srcs[h], dir) != t {
      if m1 != m {
        AcceptedElsewhere(m0, m, srcs, dir, k, h);
        ArrivedSame(m0, m, m1, srcs[h], Target(srcs[h], dir));
      }
    } else if m1 != m || src == t || h == k {
      ItemArrives(m0, m, srcs, dir, k);
      SameNameAlike(m0, srcs, dir, h, k);
      ArrivedAlike(m0, m1, src, srcs[h], t);
    }
  }

  lemma SameNameAlike(m: Fs, srcs: seq<Path>, dir: Path, h: nat, k: nat)
    requires NamesAgree(m, srcs, dir) && h <= k < |srcs| && Target(srcs[h], dir) == Target(srcs[k], dir)
    ensures Alike(m, srcs[h], srcs[k])
  {
  }

  lemma ArrivedSame(m0: Fs, m: Fs, m1: Fs, src: Path, t: Path)
    requires Arrived(m0, m, src, t, {}) && SameSubtree(m, m1, t)
    ensures Arrived(m0, m1, src, t, {})
  {
    forall s | Suffix(s)
      ensures At(m1, t, s) == At(m0, src, s)
    {
      assert At(m1, t, s) == At(m, t, s);
    }
  }

  lemma ArrivedAlike(m0: Fs, m: Fs, a: Path, b: Path, t: Path)
    requires Alike(m0, b, a)
    ensures Arrived(m0, m, a, t, {}) <==> Arrived(m0, m, b, t, {})
  {
    forall s | Suffix(s)
      ensures At(m0, b, s) == At(m0, a, s)
    {
    }
  }

  /** The item itself arrives: it is renamed, or its like is there already. */
  lemma ItemArrives(m0: Fs, m: Fs, srcs: seq<Path>, dir: Path, k: nat)
    requires Movable(m0, srcs, dir) && NamesAgree(m0, srcs, dir) && k < |srcs| && MovedSoFar(m0, m, srcs, dir, k)
    requires forall i :: 0 <= i < k ==> Arrived(m0, m, srcs[i], Target(srcs[i], dir), {})
    ensures Arrived(m0, MovedItem(m, srcs[k], dir), srcs[k], Target(srcs[k], dir), {})
  {
    var src, t, m1 := srcs[k], Target(srcs[k], dir), MovedItem(m, srcs[k], dir);
    assert SameSubtree(m0, m, src);
    if MayRename(m, src, t) {
      assert src != t by { assert src[|src|..] == ""; }
      RenamedArrives(m, src, t);
      forall s | Suffix(s)
        ensures At(m1, t, s) == At(m0, src, s)
      {
        assert At(m1, t, s) == At(m, src, s);
      }
    } else if Filled(m0, srcs, dir, k, t) {
      var h :| 0 <= h < k && Target(srcs[h], dir) == t && MayRename(m0, srcs[h], t);
      SameNameAlike(m0, srcs, dir, h, k);
      ArrivedAlike(m0, m, src, srcs[h], t);
    } else {
      SameAnswer(m0, m, src, dir);
      assert Alike(m0, src, t);
      forall s | Suffix(s)
        ensures At(m, t, s) == At(m0, src, s)
      {
        assert At(m0, t, s) == At(m0, src, s);
      }
    }
  }

  lemma {:induction false} AgreedArrive(m0: Fs, srcs: seq<Path>, dir: Path, k: nat)
    requires Movable(m0, srcs, dir) && NamesAgree(m0, srcs, dir) && k <= |srcs|
    ensures forall h :: 0 <= h < k ==> Arrived(m0, MovedAll(m0, srcs[..k], dir), srcs[h], Target(srcs[h], dir), {})
  {
    hide Arrived, NamesAgree, Movable, MovedSoFar, MovedItem;
    if k > 0 {
      AgreedArrive(m0, srcs, dir, k - 1);
      MovedSoFarAlways(m0, srcs, dir, k - 1);
      assert srcs[..k][..k - 1] == srcs[..k - 1];
      forall h | 0 <= h < k
        ensures Arrived(m0, MovedAll(m0, srcs[..k], dir), srcs[h], Target(srcs[h], dir), {})
      {
        ArriveNext(m0, MovedAll(m0, srcs[..k - 1], dir), srcs, dir, k - 1, h);
      }
    }
  }

  /** exec_move renames without looking for conflicts: on one file system every item of a list arrives
      if and only if those of the same name are alike and each can go, or need not go, to its place. */
  lemma AllArriveIff(m: Fs, srcs: seq<Path>, dir: Path)
    requires Movable(m, srcs, dir)
    ensures AllArrived(m, MovedAll(m, srcs, dir), srcs, dir) <==> NamesAgree(m, srcs, dir)
  {
    var m1 := MovedAll(m, srcs, dir);
    assert srcs[..|srcs|] == srcs;
    MovedSoFarAlways(m, srcs, dir, |srcs|);
    if NamesAgree(m, srcs, dir) {
      AgreedArrive(m, srcs, dir, |srcs|);
    }
    if AllArrived(m, m1, srcs, dir) {
      forall i, j | 0 <= i < j < |srcs| && Target(srcs[i], dir) == Target(srcs[j], dir)
        ensures Alike(m, srcs[i], srcs[j])
      {
        ArrivedBoth(m, m1, srcs[i], srcs[j], Target(srcs[i], dir));
      }
      forall j | 0 <= j < |srcs|
        ensures MayRename(m, srcs[j], Target(srcs[j], dir)) || Alike(m, srcs[j], Target(srcs[j], dir))
      {
        ArrivedSomehow(m, m1, srcs, dir, j);
      }
    }
  }

  lemma ArrivedBoth(m0: Fs, m: Fs, a: Path, b: Path, t: Path)
    requires Arrived(m0, m, a, t, {}) && Arrived(m0, m, b, t, {})
    ensures Alike(m0, a, b)
  {
    forall s | Suffix(s)
      ensures At(m0, a, s) == At(m0, b, s)
    {
      assert At(m, t, s) == At(m0, a, s);
    }
  }

  lemma ArrivedSomehow(m0: Fs, m: Fs, srcs: seq<Path>, dir: Path, j: nat)
    requires Movable(m0, srcs, dir) && MovedSoFar(m0, m, srcs, dir, |srcs|) && AllArrived(m0, m, srcs, dir) && j < |srcs|
    ensures MayRename(m0, srcs[j], Target(srcs[j], dir)) || Alike(m0, srcs[j], Target(srcs[j], dir))
  {
    var src, t := srcs[j], Target(srcs[j], dir);
    if Filled(m0, srcs, dir, |srcs|, t) {
      var h :| 0 <= h < |srcs| && Target(srcs[h], dir) == t && MayRename(m0, srcs[h], t);
      ArrivedBoth(m0, m, srcs[h], src, t);
      assert src + "" == src && srcs[h] + "" == srcs[h];
      assert At(m0, srcs[h], "") == At(m0, src, "");
      if src != t {
        NotAbove(src, dir, src[DirLen(src)..]);
      }
    } else {
      forall s | Suffix(s)
        ensures At(m0, src, s) == At(m0, t, s)
      {
        assert At(m, t, s) == At(m0, src, s);
      }
    }
  }

  /** In particular, items whose contents differ all arrive only if their names do. */
  lemma DifferentItemsNeedDifferentNames(m: Fs, srcs: seq<Path>, dir: Path)
    requires Movable(m, srcs, dir)
    requires forall i, j :: 0 <= i < j < |srcs| ==> !Alike(m, srcs[i], srcs[j])
    requires forall j :: 0 <= j < |srcs| ==> var t := Target(srcs[j], dir); t == srcs[j] || MayRename(m, srcs[j], t)
    ensures AllArrived(m, MovedAll(m, srcs, dir), srcs, dir) <==>
      forall i, j :: 0 <= i < j < |srcs| ==> Target(srcs[i], dir) != Target(srcs[j], dir)
  {
    AllArriveIff(m, srcs, dir);
  }

  // ---------- where the conditions matter ----------

  /** A subtree taken away as a whole. */
  ghost function Without(m: Fs, a: Path): Fs { map p | p in m && !Under(a, p) :: m[p] }

  lemma WithoutFacts(m: Fs, a: Path)
    requires WellFormed(m)
    ensures WellFormed(Without(m, a)) && OnlyUnder(m, Without(m, a), a) && Shrinks(m, Without(m, a)) && a !in Without(m, a)
  {
    forall p | p in Without(m, a)
      ensures Ancestors(Without(m, a), p)
    {
      assert Ancestors(m, p);
      forall k | 0 <= k < |p| && p[k] == '/'
        ensures !Under(a, p[..k])
      {
        assert p[|p[..k]|..][0] == '/' && Under(p[..k], p);
        if Under(a, p[..k]) { UnderTransitive(a, p[..k], p); }
      }
    }
    assert a[|a|..] == "";
  }

  /** A directory read that ends at once: the copy of the directory succeeds, empty. */
  lemma NothingListed(m: Fs, src: Path, dst: Path)
    requires WellFormed(m) && src in m && m[src].Dir? && dst !in m && Ancestors(m, dst) && Apart(src, dst)
    ensures CopyResult(m, m[dst := Dir], src, dst, true, Unreported(src, Entries(m, src)), true)
  {
    AddKeepsWellFormed(m, dst, Dir);
    FirstEntry(m, src, dst, [], Entries(m, src));
    assert (set n: string | n in []) == {};
    LastEntry(m, m[dst := Dir], src, dst, [], 0, Entries(m, src), Unreported(src, Entries(m, src)), true, true);
  }

  /** For every directory there is an early end that loses all of it: the directory read of the copy reports
      nothing, the copy succeeds, the original is deleted, and nothing that was below it is anywhere. */
  lemma EarlyEndLosesAll(m: Fs, src: Path, dir: Path, d: Path)
    requires WellFormed(m) && src in m && m[src].Dir? && !Under(src, dir) && src != Target(src, dir)
    requires d == Resolved(m, Target(src, dir)) && d !in m && Ancestors(m, d)
    ensures var m2 := Without(m[d := Dir], src); var lost := Unreported(src, Entries(m, src));
      && CopyResult(m, m[d := Dir], src, d, true, lost, true)
      && MoveResult(m, m2, src, dir, d, lost, true)
      && forall s :: Suffix(s) && s != "" ==> At(m2, src, s) == None && At(m2, d, s) == None
  {
    var m1, lost := m[d := Dir], Unreported(src, Entries(m, src));
    var n := ResolvedChild(m, dir, src[DirLen(src)..]);
    SourceApart(m, src, dir, n);
    NothingListed(m, src, d);
    AddKeepsWellFormed(m, d, Dir);
    WithoutFacts(m1, src);
    AcrossOutcome(m, m1, Without(m1, src), src, dir, d, lost, true);
    forall s | Suffix(s) && s != ""
      ensures At(Without(m1, src), src, s) == None && At(Without(m1, src), d, s) == None
    {
      UnderSuffix(src, s);
      UnderSuffix(d, s);
      if d + s in m { NothingBelow(m, d, d + s); }
    }
  }

  /** Names may differ and still a later item replaces an earlier one: the first file is copied from another
      file system under a numbered name, and the second, which has just that name, is renamed over it. */
  lemma LaterItemReplacesEarlier(m: Fs, a: Path, b: Path, dir: Path, d: Path)
    requires WellFormed(m) && a in m && m[a].File? && b in m && m[b].File? && forall p :: p in m && m[p] == m[a] ==> p == a
    requires a != b && !Under(a, dir) && !Under(b, dir) && a != Target(a, dir) && Target(a, dir) in m
    requires d == Resolved(m, Target(a, dir)) && d !in m && Ancestors(m, d) && Target(b, dir) == d
    ensures Target(a, dir) != Target(b, dir)
    ensures var m1 := m[d := m[a]] - {a};
      && MoveResult(m, m1, a, dir, d, {}, true)
      && forall p :: p in MovedItem(m1, b, dir) ==> MovedItem(m1, b, dir)[p] != m[a]
  {
    var mc := m[d := m[a]];
    var m1 := mc - {a};
    var n := ResolvedChild(m, dir, a[DirLen(a)..]);
    SourceApart(m, a, dir, n);
    AddKeepsWellFormed(m, d, m[a]);
    LeafMirrors(mc, a, d);
    NothingBelowLeaf(mc, a);
    RemoveKeepsWellFormed(mc, a);
    AcrossOutcome(m, mc, m1, a, dir, d, {}, true);
    NotAbove(b, dir, n);
    RenamedOver(m1, b, d, m[a]);
  }

  lemma RenamedOver(m: Fs, b: Path, d: Path, x: Node)
    requires WellFormed(m) && b in m && m[b].File? && d in m && m[d].File? && !Under(b, d)
    requires m[b] != x && forall p :: p in m && m[p] == x ==> p == d
    ensures MayRename(m, b, d) && forall p :: p in Renamed(m, b, d) ==> Renamed(m, b, d)[p] != x
  {
    NothingBelowLeaf(m, d);
    forall k
      ensures k !in Entries(m, d)
    {
      EntryIsChild(m, d, k);
      UnderChild(d, k);
    }
    hide Entries;
    forall p | p in Renamed(m, b, d)
      ensures Renamed(m, b, d)[p] != x
    {
      RenamedGet(m, b, d, p);
      assert d[|d|..] == "";
    }
  }

  lemma NothingBelowLeaf(m: Fs, a: Path)
    requires WellFormed(m) && a in m && !m[a].Dir?
    ensures forall p :: p in m && Under(a, p) ==> p == a
  {
    forall p | p in m && Under(a, p)
      ensures p == a
    {
      NothingBelow(m, a, p);
    }
  }

  // ---------- a list that is tangled ----------

  /** `t`, where `s` is going, is a directory with one entry `n`, an empty directory; `s` has an entry of that name,
      with files in it. */
  ghost predicate Tangled(m: Fs, dir: Path, s: Path, n: string) {
    var t := Target(s, dir);
    var x := Child(t, n);
    && WellFormed(m) && Slashless(n) && !Under(s, dir) && Apart(s, t)
    && x in m && m[x].Dir? && Entries(m, x) == {} && Entries(m, t) == {n} && Child(dir, n) !in m
    && s in m && m[s].Dir? && Child(s, n) in m && m[Child(s, n)].Dir? && Leaves(m, Child(s, n)) != {}
  }

  lemma TangledPaths(m: Fs, dir: Path, s: Path, n: string)
    requires Tangled(m, dir, s, n)
    ensures var t := Target(s, dir); var x := Child(t, n); var y := Child(dir, n);
      && Target(x, dir) == y && t in m && m[t].Dir? && dir in m && m[dir].Dir? && x != y && t != y
      && !Under(x, t) && !Under(y, t) && !Under(x, y) && Apart(s, x) && Apart(s, y) && Apart(t, y)
  {
    var t := Target(s, dir);
    var x, y := Child(t, n), Child(dir, n);
    assert x[|t| + 1..] == n;
    DirLenUnique(x, |t| + 1);
    UnderChild(t, n);
    NothingBelow(m, t, x);
    UnderChild(dir, s[DirLen(s)..]);
    NothingBelow(m, dir, t);
    assert t[|t|..] == "" && y[|y|..] == "";
    Siblings(dir, s[DirLen(s)..], n, t);
    Siblings(dir, n, s[DirLen(s)..], y);
    if Under(s, x) {
      if |s| <= |t| { UnderComparable(s, t, x); } else { UnderComparable(t, s, x); }
    }
    if Under(x, s) { UnderTransitive(t, x, s); }
    SourceApart(m, s, dir, n);
  }

  /** After the first move `t` is empty, and `s` as it was. */
  lemma FirstMove(m: Fs, x: Path, y: Path, s: Path, t: Path, n: string)
    requires WellFormed(m) && MayRename(m, x, y) && x == Child(t, n) && Entries(m, t) == {n} && t in m && m[t].Dir?
    requires m[x].Dir? && Entries(m, x) == {} && s in m && m[s].Dir?
    requires Apart(s, x) && Apart(s, y) && Apart(t, y) && Apart(s, t) && !Under(x, t)
    ensures var m1 := Renamed(m, x, y);
      && WellFormed(m1) && SameSubtree(m, m1, s) && MayRename(m1, s, t)
      && y in m1 && m1[y].Dir? && Entries(m1, y) == {} && Leaves(m, x) == {}
  {
    var m1 := Renamed(m, x, y);
    assert x + "" == x && y + "" == y;
    RenamedSubtree(m, x, y, "");
    assert Get(m1, y) == Get(m, x);
    hide Renamed, Entries, SameSubtree, WellFormed, Leaves, Apart;
    NothingInMoved(m, t, x, y, n);
    EmptyMoved(m, x, y);
    NoLeavesInEmpty(m, x);
    RenamedWellFormed(m, x, y);
    StaysThere(m, x, y, s, t);
  }

  lemma StaysThere(m: Fs, x: Path, y: Path, s: Path, t: Path)
    requires Apart(s, x) && Apart(s, y) && !Under(x, t) && Apart(t, y)
    ensures var m1 := Renamed(m, x, y); SameSubtree(m, m1, s) && Get(m1, s) == Get(m, s) && Get(m1, t) == Get(m, t)
    ensures WellFormed(Renamed(m, x, y)) && t in m ==> Ancestors(Renamed(m, x, y), t)
  {
    RenamedArrives(m, x, y);
    ElsewhereSame(m, Renamed(m, x, y), x, y, s);
    assert s[|s|..] == "";
    RenamedElsewhere(m, x, y, s);
    RenamedElsewhere(m, x, y, t);
  }

  lemma NothingInMoved(m: Fs, t: Path, x: Path, y: Path, n: string)
    requires x == Child(t, n) && Entries(m, t) == {n} && Apart(t, y)
    ensures Entries(Renamed(m, x, y), t) == {}
  {
    var m1 := Renamed(m, x, y);
    forall k
      ensures k !in Entries(m1, t)
    {
      var p := Child(t, k);
      EntryIsChild(m1, t, k);
      EntryIsChild(m, t, k);
      RenamedGet(m, x, y, p);
      if Slashless(k) {
        ApartChildren(t, y, k);
        assert x[|x|..] == "";
      }
    }
  }

  lemma EmptyMoved(m: Fs, x: Path, y: Path)
    requires Entries(m, x) == {}
    ensures Entries(Renamed(m, x, y), y) == {}
  {
    hide Renamed, Entries;
    forall k
      ensures k !in Entries(Renamed(m, x, y), y)
    {
      EntryIsChild(Renamed(m, x, y), y, k);
      EntryIsChild(m, x, k);
      RenamedSubtree(m, x, y, "/" + k);
      assert Child(y, k) == y + ("/" + k) && Child(x, k) == x + ("/" + k);
      assert At(Renamed(m, x, y), y, "/" + k) == At(m, x, "/" + k);
      assert k !in Entries(m, x);
    }
  }

  lemma NoLeavesInEmpty(m: Fs, x: Path)
    requires WellFormed(m) && x in m && m[x].Dir? && Entries(m, x) == {}
    ensures Leaves(m, x) == {}
  {
    forall p | p in Leaves(m, x)
      ensures false
    {
      EmptyHasNothingBelow(m, x, p);
    }
  }

  /** After the second move there is a directory at `x` again, with files in it, and the place for it is empty. */
  lemma SecondMove(m: Fs, m1: Fs, x: Path, y: Path, s: Path, t: Path, n: string)
    requires WellFormed(m1) && SameSubtree(m, m1, s) && MayRename(m1, s, t) && x == Child(t, n) && Slashless(n)
    requires Child(s, n) in m && m[Child(s, n)].Dir? && Leaves(m, Child(s, n)) != {}
    requires y in m1 && m1[y].Dir? && Entries(m1, y) == {} && Apart(s, y) && Apart(t, y) && !Under(x, y)
    ensures var m2 := Renamed(m1, s, t);
      MayRename(m2, x, y) && Leaves(m2, x) != {} && |Leaves(m2, t)| == |Leaves(m, s)|
  {
    var m2 := Renamed(m1, s, t);
    hide Renamed, Entries, SameSubtree, WellFormed, Leaves, Apart, Under;
    EntryRenamed(m, m1, s, t, n);
    RenamedWellFormed(m1, s, t);
    RenamedLeaves(m1, s, t);
    SameSubtreeFacts(m, m1, s);
    StaysEmpty(m1, s, t, y);
    PlaceIsReady(m2, y);
  }

  lemma EntryRenamed(m: Fs, m1: Fs, s: Path, t: Path, n: string)
    requires SameSubtree(m, m1, s) && Slashless(n) && Leaves(m, Child(s, n)) != {}
    ensures Get(Renamed(m1, s, t), Child(t, n)) == Get(m, Child(s, n)) && Leaves(Renamed(m1, s, t), Child(t, n)) != {}
  {
    hide Renamed;
    assert Child(s, n) == s + ("/" + n) && Child(t, n) == t + ("/" + n);
    assert At(m1, s, "/" + n) == At(m, s, "/" + n);
    RenamedSubtree(m1, s, t, "/" + n);
    var l :| l in Leaves(m, Child(s, n));
    UnderSplit(Child(s, n), l);
    LeafArrives(m, m1, s, t, n, l[|Child(s, n)|..]);
  }

  lemma StaysEmpty(m: Fs, s: Path, t: Path, y: Path)
    requires Apart(s, y) && Apart(t, y) && Entries(m, y) == {}
    ensures Entries(Renamed(m, s, t), y) == {} && Get(Renamed(m, s, t), y) == Get(m, y)
  {
    RenamedArrives(m, s, t);
    ElsewhereSame(m, Renamed(m, s, t), s, t, y);
    SameEntries(m, Renamed(m, s, t), y);
    RenamedElsewhere(m, s, t, y);
  }

  lemma PlaceIsReady(m: Fs, y: Path)
    requires WellFormed(m) && y in m
    ensures Ancestors(m, y)
  {
  }

  lemma LeafArrives(m: Fs, m1: Fs, s: Path, t: Path, n: string, u: string)
    requires SameSubtree(m, m1, s) && Suffix(u) && Child(s, n) + u in m && !m[Child(s, n) + u].Dir?
    ensures Child(t, n) + u in Leaves(Renamed(m1, s, t), Child(t, n))
  {
    var v := "/" + n + u;
    assert Child(s, n) + u == s + v && Child(t, n) + u == t + v && Suffix(v);
    assert At(m1, s, v) == At(m, s, v);
    RenamedSubtree(m1, s, t, v);
    assert At(Renamed(m1, s, t), t, v) == At(m, s, v);
    UnderSuffix(Child(t, n), u);
  }

  /** Why the counter is bounded only for items out of each other's way: moving the empty directory, then `s` over
      the place it left, then what is at the first path again, counts files twice. */
  lemma TangledCountsTwice(m: Fs, dir: Path, s: Path, n: string)
    requires Tangled(m, dir, s, n)
    ensures var x := Child(Target(s, dir), n); var srcs := [x, s, x];
      var m1 := MovedItem(m, x, dir); var m2 := MovedItem(m1, s, dir); var m3 := MovedItem(m2, x, dir);
      && AllFound(m, srcs, dir) && NoneInTheWay(srcs, dir)
      && |Leaves(m1, Target(x, dir))| + |Leaves(m2, Target(s, dir))| + |Leaves(m3, Target(x, dir))| > LeafTotal(m, srcs)
  {
    var x, m1 := Child(Target(s, dir), n), MovedItem(m, Child(Target(s, dir), n), dir);
    hide Leaves, Entries, WellFormed, MayRename, Renamed, MovedItem, Apart, SameSubtree, Tangled, AllFound, NoneInTheWay, LeafTotal, Target, Under;
    TangledConditions(m, dir, s, n);
    TangledMoves(m, dir, s, n);
    ItemLeaves(m, x, dir);
    ItemLeaves(m1, s, dir);
    ItemLeaves(MovedItem(m1, s, dir), x, dir);
    TangledTotal(m, dir, s, n);
    assert Leaves(MovedItem(m1, s, dir), x) != {};
  }

  lemma TangledMoves(m: Fs, dir: Path, s: Path, n: string)
    requires Tangled(m, dir, s, n)
    ensures var x := Child(Target(s, dir), n); var m1 := MovedItem(m, x, dir); var m2 := MovedItem(m1, s, dir);
      && MayRename(m, x, Target(x, dir)) && MayRename(m1, s, Target(s, dir)) && MayRename(m2, x, Target(x, dir))
      && |Leaves(m1, s)| == |Leaves(m, s)| && Leaves(m2, x) != {}
  {
    var t := Target(s, dir);
    var x, y := Child(t, n), Child(dir, n);
    TangledPaths(m, dir, s, n);
    EntryAncestors(m, dir, n);
    assert MayRename(m, x, y);
    TangledNotInTheWay(m, dir, s, n);
    FirstMove(m, x, y, s, t, n);
    hide Leaves, Entries, WellFormed, MayRename, Renamed, Apart, SameSubtree, Under;
    SameSubtreeFacts(m, Renamed(m, x, y), s);
    SecondMove(m, Renamed(m, x, y), x, y, s, t, n);
  }

  lemma TangledConditions(m: Fs, dir: Path, s: Path, n: string)
    requires Tangled(m, dir, s, n)
    ensures var x := Child(Target(s, dir), n); AllFound(m, [x, s, x], dir) && NoneInTheWay([x, s, x], dir)
  {
    var x := Child(Target(s, dir), n);
    TangledNotInTheWay(m, dir, s, n);
    assert SourceFor(m, x, dir) && SourceFor(m, s, dir);
    ThreeItems(m, x, s, dir);
  }

  lemma ThreeItems(m: Fs, x: Path, s: Path, dir: Path)
    requires SourceFor(m, x, dir) && SourceFor(m, s, dir)
    requires x != Target(x, dir) && s != Target(x, dir) && x != Target(s, dir)
    ensures AllFound(m, [x, s, x], dir) && NoneInTheWay([x, s, x], dir)
  {
    hide Target, SourceFor;
  }

  lemma TangledNotInTheWay(m: Fs, dir: Path, s: Path, n: string)
    requires Tangled(m, dir, s, n)
    ensures var t := Target(s, dir); var x := Child(t, n); var y := Target(x, dir);
      x != y && s != y && x != t && s != t && !Under(x, dir)
  {
    var t := Target(s, dir);
    var x := Child(t, n);
    TangledPaths(m, dir, s, n);
    assert x[|x|..] == "" && t[|t|..] == "" && s[|s|..] == "";
  }

  lemma ItemLeaves(m: Fs, x: Path, dir: Path)
    requires MayRename(m, x, Target(x, dir))
    ensures |Leaves(MovedItem(m, x, dir), Target(x, dir))| == |Leaves(m, x)|
  {
    RenamedLeaves(m, x, Target(x, dir));
    assert x[|x|..] == "";
  }

  lemma TangledTotal(m: Fs, dir: Path, s: Path, n: string)
    requires Tangled(m, dir, s, n)
    ensures var x := Child(Target(s, dir), n); LeafTotal(m, [x, s, x]) == |Leaves(m, s)|
  {
    var x := Child(Target(s, dir), n);
    NoLeavesInEmpty(m, x);
    var srcs := [x, s, x];
    assert srcs[..3] == srcs && srcs[..0] == [];
    LeafTotalNext(m, srcs, 0);
    LeafTotalNext(m, srcs, 1);
    LeafTotalNext(m, srcs, 2);
  }
}
