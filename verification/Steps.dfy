/** What single steps, and runs of them, do to a file system: facts about values for the loops of FileOps. */
module Steps {
  import opened Paths
  import opened CopyTheory

  /** A file counter that only a job keeps grew by at most `n`, and by `n` when nothing went wrong. */
  predicate Counted(d0: int, d1: int, n: int, job: bool, smooth: bool) {
    && d0 <= d1 && (if job then d1 <= d0 + n else d1 == d0)
    && (job && smooth ==> d1 == d0 + n)
  }

  /** The values a counter took went up from `d0` to `d1`. */
  ghost predicate Rising(s0: seq<int>, s1: seq<int>, d0: int, d1: int) {
    && s0 <= s1 && d0 <= d1
    && (forall i :: |s0| <= i < |s1| ==> d0 <= s1[i] <= d1)
    && (forall i, j :: |s0| <= i <= j < |s1| ==> s1[i] <= s1[j])
  }

  lemma RisingOn(s0: seq<int>, s1: seq<int>, s2: seq<int>, d0: int, d1: int, d2: int)
    requires Rising(s0, s1, d0, d1) && Rising(s1, s2, d1, d2)
    ensures Rising(s0, s2, d0, d2)
  {
    forall i, j | |s0| <= i <= j < |s2|
      ensures d0 <= s2[i] <= s2[j] <= d2
    {
      assert i < |s1| ==> s2[i] == s1[i];
      assert j < |s1| ==> s2[j] == s1[j];
    }
  }

  lemma NothingRisen(s: seq<int>, d: int)
    ensures Rising(s, s, d, d)
  {
  }

  lemma RisenOnce(s: seq<int>, d: int, n: nat)
    ensures Rising(s, s + [d + n], d, d + n)
  {
  }

  /** Every recorded state differs from `m0` at most under `d`. */
  ghost predicate Within(log0: seq<Fs>, log1: seq<Fs>, m0: Fs, d: Path) {
    && log0 <= log1
    && forall i :: |log0| <= i < |log1| ==> OnlyUnder(m0, log1[i], d)
  }

  /** Nothing that was there is changed or gone. */
  ghost predicate Keeps(m0: Fs, m1: Fs) {
    forall p :: p in m0 ==> p in m1 && m1[p] == m0[p]
  }

  /** Nothing appears and nothing that stays is changed. */
  ghost predicate Shrinks(m0: Fs, m1: Fs) {
    forall p :: p in m1 ==> p in m0 && m1[p] == m0[p]
  }

  lemma FreshIsApart(m: Fs, a: Path, b: Path)
    requires WellFormed(m) && a in m && b !in m && !Under(a, b)
    ensures Apart(a, b)
  {
    if Under(b, a) {
      NothingBelow(m, b, a);
    }
  }

  lemma FreshKeeps(m0: Fs, m1: Fs, d: Path)
    requires WellFormed(m0) && d !in m0 && OnlyUnder(m0, m1, d)
    ensures Keeps(m0, m1)
  {
    forall p | p in m0
      ensures p in m1 && m1[p] == m0[p]
    {
      if Under(d, p) {
        NothingBelow(m0, d, p);
      }
      assert Get(m1, p) == Get(m0, p);
    }
  }

  lemma EntryBound(m: Fs, p: Path, n: string, bound: nat)
    requires Bounded(m, p, bound) && n in Entries(m, p)
    ensures Bounded(m, Child(p, n), bound) && Room(bound, Child(p, n)) < Room(bound, p)
  {
    EntryIsChild(m, p, n);
    UnderChild(p, n);
    forall q | q in m && Under(Child(p, n), q)
      ensures |q| <= bound
    {
      UnderTransitive(p, Child(p, n), q);
    }
  }

  /** The subtrees of the entries still to come are as they were. */
  ghost predicate Untouched(m0: Fs, m: Fs, p: Path, ns: seq<string>, i: nat) {
    forall j, s :: i <= j < |ns| && Suffix(s) ==> At(m, Child(p, ns[j]), s) == At(m0, Child(p, ns[j]), s)
  }

  lemma UntouchedYet(m: Fs, p: Path, ns: seq<string>)
    ensures Untouched(m, m, p, ns, 0) && OnlyUnder(m, m, p) && Shrinks(m, m)
  {
  }

  lemma UntouchedEntry(m0: Fs, m: Fs, p: Path, ns: seq<string>, i: nat, bound: nat)
    requires Untouched(m0, m, p, ns, i) && i < |ns| && Bounded(m0, p, bound) && ns[i] in Entries(m0, p)
    ensures Bounded(m, Child(p, ns[i]), bound) && Room(bound, Child(p, ns[i])) < Room(bound, p)
    ensures Leaves(m, Child(p, ns[i])) == Leaves(m0, Child(p, ns[i])) && Child(p, ns[i]) in m
  {
    var c := Child(p, ns[i]);
    EntryBound(m0, p, ns[i], bound);
    EntryIsChild(m0, p, ns[i]);
    assert c + "" == c && Suffix("");
    assert At(m, Child(p, ns[i]), "") == At(m0, Child(p, ns[i]), "");
    forall s | Suffix(s)
      ensures At(m, c, s) == At(m0, c, s)
    {
    }
    SubtreeLeaves(m0, m, c);
    forall q | q in m && Under(c, q)
      ensures |q| <= bound
    {
      UnderSplit(c, q);
      assert At(m, c, q[|c|..]) == At(m0, c, q[|c|..]);
    }
  }

  lemma AboveEntry(m0: Fs, m1: Fs, p: Path, n: string)
    requires OnlyUnder(m0, m1, Child(p, n))
    ensures Get(m1, p) == Get(m0, p)
  {
    UnderChild(p, n);
  }

  lemma UntouchedNext(m0: Fs, m1: Fs, m2: Fs, p: Path, ns: seq<string>, i: nat)
    requires DistinctNames(ns) && i < |ns|
    requires Untouched(m0, m1, p, ns, i) && OnlyUnder(m1, m2, Child(p, ns[i]))
    ensures Untouched(m0, m2, p, ns, i + 1)
  {
    forall j, s | i + 1 <= j < |ns| && Suffix(s)
      ensures At(m2, Child(p, ns[j]), s) == At(m0, Child(p, ns[j]), s)
    {
      UnderSuffix(Child(p, ns[j]), s);
      Siblings(p, ns[j], ns[i], Child(p, ns[j]) + s);
      assert At(m1, Child(p, ns[j]), s) == At(m0, Child(p, ns[j]), s);
    }
  }

  /** A directory whose listed entries are gone, when all of them were listed. */
  lemma Emptied(m0: Fs, m: Fs, p: Path, ns: seq<string>)
    requires Shrinks(m0, m) && Lists(m0, p, ns) && forall j :: 0 <= j < |ns| ==> Child(p, ns[j]) !in m
    ensures Entries(m, p) == {}
  {
    forall n
      ensures n !in Entries(m, p)
    {
      EntryIsChild(m, p, n);
      EntryIsChild(m0, p, n);
    }
  }

  lemma NotYetThere(m0: Fs, m: Fs, src: Path, dst: Path, ns: seq<string>, i: nat, lost: set<Path>, ok: bool, clean: bool)
    requires DistinctNames(ns) && i < |ns| && AtEntry(m0, m, src, dst, ns, i, lost, ok, clean)
    ensures Child(dst, ns[i]) !in m && dst in m && m[dst].Dir?
  {
    assert ns[i] !in ns[..i];
  }

  /** Before the first entry. */
  lemma NothingYet(m: Fs, l: seq<Fs>, a: Path, d: Path, ns: seq<string>, e: seq<set<Path>>, lost: set<Path>)
    ensures Within(l, l, m, d) && LeafSum(m, a, ns[..0]) == 0 && ns[..0] == [] && lost + Skips(e, e) == lost
  {
    NoSkips(e);
    assert ns[..0] == [];
  }

  /** States that stay close to a state that is close to `m0`. */
  lemma WithinRebased(l0: seq<Fs>, l1: seq<Fs>, m0: Fs, m1: Fs, d: Path, e: Path)
    requires Within(l0, l1, m1, e) && OnlyUnder(m0, m1, d) && Under(d, e)
    ensures Within(l0, l1, m0, d)
  {
    forall i | |l0| <= i < |l1|
      ensures OnlyUnder(m0, l1[i], d)
    {
      OnlyUnderTransitive(m0, m1, l1[i], d, e);
    }
  }

  lemma WithinAgain(l0: seq<Fs>, l1: seq<Fs>, l2: seq<Fs>, m0: Fs, d: Path)
    requires Within(l0, l1, m0, d) && Within(l1, l2, m0, d)
    ensures Within(l0, l2, m0, d)
  {
    forall i | |l0| <= i < |l2|
      ensures OnlyUnder(m0, l2[i], d)
    {
      assert i < |l1| ==> l2[i] == l1[i];
    }
  }

  /** What copying one leaf leaves behind. */
  lemma LeafOutcome(m0: Fs, m1: Fs, src: Path, dst: Path, ok: bool, clean: bool)
    requires WellFormed(m0) && WellFormed(m1) && dst !in m0 && Apart(src, dst) && src in m0 && !m0[src].Dir?
    requires OnlyUnder(m0, m1, dst)
    requires ok ==> m1 == m0[dst := m0[src]]
    requires !ok && clean ==> dst !in m1
    ensures CopyResult(m0, m1, src, dst, ok, {}, clean)
  {
    assert Get(m1, src) == Get(m0, src);
    if ok {
      LeafMirrors(m1, src, dst);
    } else if clean {
      NothingIsNotPartial(m1, src, dst);
    }
  }

  lemma SameEntries(m0: Fs, m1: Fs, a: Path)
    requires forall s :: Suffix(s) ==> At(m1, a, s) == At(m0, a, s)
    ensures Entries(m1, a) == Entries(m0, a)
  {
    forall n
      ensures n in Entries(m1, a) <==> n in Entries(m0, a)
    {
      EntryIsChild(m0, a, n);
      EntryIsChild(m1, a, n);
      assert Child(a, n) == a + ("/" + n);
      assert At(m1, a, "/" + n) == At(m0, a, "/" + n);
    }
  }

  /** A directory created where nothing else was copied yet. */
  lemma OnlyDirMade(m0: Fs, src: Path, dst: Path)
    requires WellFormed(m0) && WellFormed(m0[dst := Dir]) && dst !in m0 && Apart(src, dst)
    requires src in m0 && m0[src].Dir? && OnlyUnder(m0, m0[dst := Dir], dst)
    ensures CopyResult(m0, m0[dst := Dir], src, dst, false, {}, true)
  {
    var all := Entries(m0, src);
    FirstEntry(m0, src, dst, [], all);
    DirectoryNoPartial(m0[dst := Dir], src, dst, [], 0, Unreported(src, all));
  }

  lemma FileUpdate(m: Fs, p: Path, x: Node)
    requires WellFormed(m) && p in m && m[p].File? && x.File?
    ensures WellFormed(m[p := x]) && OnlyUnder(m, m[p := x], p)
  {
    AddKeepsWellFormed(m, p, x);
  }

  /** More changes at the same path. */
  lemma WithinThere(l0: seq<Fs>, l1: seq<Fs>, l2: seq<Fs>, m0: Fs, m1: Fs, m2: Fs, p: Path)
    requires OnlyUnder(m0, m1, p) && Within(l0, l1, m0, p) && Within(l1, l2, m1, p)
    requires m2 == m1 || m2 == m1 - {p} || exists x: string :: m2 == m1[p := File(x)]
    ensures OnlyUnder(m0, m2, p) && Within(l0, l2, m0, p)
  {
    assert p[|p|..] == "";
    WithinRebased(l1, l2, m0, m1, p, p);
    WithinAgain(l0, l1, l2, m0, p);
  }

  /** Changes at a path that already differs. */
  lemma WithinSame(l0: seq<Fs>, l1: seq<Fs>, l2: seq<Fs>, m0: Fs, m1: Fs, p: Path, x: Node)
    requires m1 == m0[p := x] && Within(l0, l1, m0, p) && Within(l1, l2, m1, p)
    ensures Within(l0, l2, m0, p)
  {
    assert p[|p|..] == "";
    WithinRebased(l1, l2, m0, m1, p, p);
    WithinAgain(l0, l1, l2, m0, p);
  }

  lemma NothingLogged(l: seq<Fs>, m: Fs, p: Path)
    ensures Within(l, l, m, p)
  {
  }

  /** At most the file at `p` is written or taken away. */
  ghost predicate FileOnly(m0: Fs, m1: Fs, p: Path) {
    m1 == m0 || m1 == m0 - {p} || exists x: string :: m1 == m0[p := File(x)]
  }

  lemma FileUntouched(m: Fs, p: Path)
    ensures FileOnly(m, m, p)
  {
  }

  lemma FileWritten(m0: Fs, m1: Fs, m2: Fs, p: Path)
    requires m1 == m0[p := File("")] && exists x: string :: m2 == m1[p := File(x)]
    ensures FileOnly(m0, m2, p) && exists x: string :: m2 == m0[p := File(x)]
  {
    var x: string :| m2 == m1[p := File(x)];
    assert m2 == m0[p := File(x)];
  }

  lemma FileRemoved(m0: Fs, m1: Fs, m2: Fs, p: Path)
    requires (exists x: string :: m1 == m0[p := File(x)]) && (m2 == m1 || m2 == m1 - {p})
    ensures FileOnly(m0, m2, p)
  {
    if m2 != m1 {
      var x: string :| m1 == m0[p := File(x)];
      assert m1 - {p} == m0 - {p};
    }
  }
}
