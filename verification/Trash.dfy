/** Trash and restore: a rename into the trash directory with an info file beside it, and back. */
module Trash {
  import opened Paths
  import opened CopyTheory
  import opened Conflict
  import opened Rename
  import opened Steps
  import opened MoveTheory
  import opened FileOps
  import opened TrashInfo

  const FILES: string := "files"
  const INFO: string := "info"

  function Files(root: Path): Path { Child(root, FILES) }

  function InfoDir(root: Path): Path { Child(root, INFO) }

  function InfoPath(root: Path, name: string): Path { Child(InfoDir(root), name + ".trashinfo") }

  function Base(p: Path): string { p[DirLen(p)..] }

  lemma TrashPlaces(root: Path, name: string)
    ensures Child(Files(root), name) == root + "/files/" + name && InfoPath(root, name) == root + "/info/" + name + ".trashinfo"
  {
    assert "/" + FILES + "/" == "/files/" && "/" + INFO + "/" == "/info/";
  }

  // ---------- a name in the trash ----------

  function TrashCandidate(base: string, i: nat): string {
    var e := ExtStart(base);
    base[..e] + "." + Dec(i) + base[e..]
  }

  function FirstFreeName(m: Fs, root: Path, base: string, i: nat): string
    requires 2 <= i <= 10000
    decreases 10000 - i
  {
    if i == 10000 then base
    else if Child(Files(root), TrashCandidate(base, i)) !in m then TrashCandidate(base, i)
    else FirstFreeName(m, root, base, i + 1)
  }

  function TrashName(m: Fs, root: Path, base: string): string {
    if Child(Files(root), base) !in m then base else FirstFreeName(m, root, base, 2)
  }

  lemma TrashCandidateShape(base: string, i: nat)
    requires Slashless(base)
    ensures var c, e := TrashCandidate(base, i), ExtStart(base);
      && |c| == |base| + 1 + |Dec(i)| && Slashless(c)
      && c[e + 1..e + 1 + |Dec(i)|] == Dec(i)
  {
    DecRoundTrip(i);
  }

  /** In the trash the number goes after a dot, before the first dot of the name or at its end. */
  lemma TrashCandidateText(stem: string, ext: string, i: nat)
    requires '.' !in stem && (ext == "" || ext[0] == '.')
    ensures TrashCandidate(stem + ext, i) == stem + "." + Dec(i) + ext
  {
    FirstDot(stem, ext);
    assert (stem + ext)[..|stem|] == stem && (stem + ext)[|stem|..] == ext;
  }

  /** The name itself if it is free, else the first free number, and the name again if all 9998 are taken. */
  lemma TrashNameIsFirst(m: Fs, root: Path, base: string, i: nat)
    requires 2 <= i <= 10000 && forall j :: 2 <= j < i ==> Child(Files(root), TrashCandidate(base, j)) in m
    ensures Child(Files(root), base) !in m ==> TrashName(m, root, base) == base
    ensures Child(Files(root), base) in m && i < 10000 && Child(Files(root), TrashCandidate(base, i)) !in m ==>
      TrashName(m, root, base) == TrashCandidate(base, i)
    ensures Child(Files(root), base) in m && i == 10000 ==> TrashName(m, root, base) == base
  {
    FirstFreeNameFrom(m, root, base, 2, i);
  }

  lemma {:induction false} FirstFreeNameFrom(m: Fs, root: Path, base: string, k: nat, i: nat)
    requires 2 <= k <= i <= 10000 && forall j :: k <= j < i ==> Child(Files(root), TrashCandidate(base, j)) in m
    ensures FirstFreeName(m, root, base, k) == FirstFreeName(m, root, base, i)
    decreases i - k
  {
    if k < i {
      FirstFreeNameFrom(m, root, base, k + 1, i);
    }
  }

  lemma TrashCandidatesDiffer(base: string, i: nat, j: nat)
    requires Slashless(base) && TrashCandidate(base, i) == TrashCandidate(base, j)
    ensures i == j
  {
    TrashCandidateShape(base, i);
    TrashCandidateShape(base, j);
    DecRoundTrip(i);
    DecRoundTrip(j);
  }

  function TriedNames(base: string, k: nat): set<string> { set i | 2 <= i < k :: TrashCandidate(base, i) }

  lemma {:induction false} TriedNamesSize(base: string, k: nat)
    requires 2 <= k && Slashless(base)
    ensures |TriedNames(base, k)| == k - 2 && base !in TriedNames(base, k)
  {
    hide TrashCandidate, ExtStart, Slashless, Dec;
    if k == 2 {
      assert TriedNames(base, 2) == {};
    } else {
      TriedNamesSize(base, k - 1);
      var c := TrashCandidate(base, k - 1);
      TrashCandidateShape(base, k - 1);
      forall i | 2 <= i < k - 1
        ensures TrashCandidate(base, i) != c
      {
        if TrashCandidate(base, i) == c {
          TrashCandidatesDiffer(base, i, k - 1);
        }
      }
      assert TriedNames(base, k) == TriedNames(base, k - 1) + {c};
    }
  }

  lemma {:induction false} FirstFreeNameScan(m: Fs, root: Path, base: string, i: nat)
    requires 2 <= i <= 10000 && Slashless(base)
    requires forall j :: 2 <= j < i ==> Child(Files(root), TrashCandidate(base, j)) in m
    ensures var n := FirstFreeName(m, root, base, i);
      && Slashless(n) && |n| >= |base|
      && (Child(Files(root), n) !in m || (n == base && forall j :: 2 <= j < 10000 ==> Child(Files(root), TrashCandidate(base, j)) in m))
    decreases 10000 - i
  {
    if i < 10000 {
      TrashCandidateShape(base, i);
      if Child(Files(root), TrashCandidate(base, i)) in m {
        FirstFreeNameScan(m, root, base, i + 1);
      }
    }
  }

  /** Pigeonhole again: a trash of fewer than 9999 entries has a free name. */
  lemma TrashNameIsFree(m: Fs, root: Path, base: string)
    requires Slashless(base) && |Entries(m, Files(root))| < 9999
    ensures var n := TrashName(m, root, base); Child(Files(root), n) !in m && Slashless(n) && |n| >= |base|
  {
    FirstFreeNameScan(m, root, base, 2);
    if Child(Files(root), base) in m && forall j :: 2 <= j < 10000 ==> Child(Files(root), TrashCandidate(base, j)) in m {
      AllNamesTaken(m, root, base);
    }
  }

  lemma TrashNameShape(m: Fs, root: Path, base: string)
    requires Slashless(base)
    ensures var n := TrashName(m, root, base); Slashless(n) && |n| >= |base|
  {
    FirstFreeNameScan(m, root, base, 2);
  }

  lemma AllNamesTaken(m: Fs, root: Path, base: string)
    requires Slashless(base) && Child(Files(root), base) in m
    requires forall j :: 2 <= j < 10000 ==> Child(Files(root), TrashCandidate(base, j)) in m
    ensures |Entries(m, Files(root))| >= 9999
  {
    var names := TriedNames(base, 10000) + {base};
    TriedNamesSize(base, 10000);
    forall n | n in names
      ensures n in Entries(m, Files(root))
    {
      EntryIsChild(m, Files(root), n);
      if n != base {
        var j :| 2 <= j < 10000 && n == TrashCandidate(base, j);
        TrashCandidateShape(base, j);
      }
    }
    SubsetSize(names, Entries(m, Files(root)));
  }

  // ---------- what the two operations do when nothing fails ----------

  function WithDir(m: Fs, d: Path): Fs {
    if d in m || !Ancestors(m, d) then m else m[d := Dir]
  }

  function WithTrashDirs(m: Fs, root: Path): Fs {
    WithDir(WithDir(WithDir(m, root), Files(root)), InfoDir(root))
  }

  function Trashed(m: Fs, root: Path, p: Path, date: string): Fs
    requires Bytes(p)
  {
    var n := TrashName(m, root, Base(p));
    Renamed(m, p, Child(Files(root), n))[InfoPath(root, n) := File(Text(p, date))]
  }

  /** Every directory named on the way to `q`, from the `k`th character on. */
  function WithParents(m: Fs, q: Path, k: nat): Fs
    decreases |q| - k
  {
    if k >= |q| then m
    else WithParents(if q[k] == '/' then WithDir(m, q[..k]) else m, q, k + 1)
  }

  function Recorded(m: Fs, root: Path, name: string): Option<Path> {
    var info := InfoPath(root, name);
    if info in m && m[info].File? then ReadFrom(m[info].data, 0) else None
  }

  function Restored(m: Fs, root: Path, name: string): Fs {
    match Recorded(m, root, name)
    case None => m
    case Some(q) =>
      var m1 := WithParents(m, q, 1);
      Renamed(m1, Child(Files(root), name), Resolved(m1, q)) - {InfoPath(root, name)}
  }

  // ---------- trash, then restore ----------

  /** `p` is neither the trash nor above it. */
  ghost predicate OutsideTrash(root: Path, p: Path) { !Under(p, Files(root)) && !Under(p, InfoDir(root)) }

  lemma BaseSlashless(p: Path)
    ensures Slashless(Base(p)) && p == p[..DirLen(p)] + Base(p)
  {
  }

  lemma NameUnder(d: Path, n: string, p: Path)
    requires Slashless(n) && Under(p, Child(d, n)) && !Under(p, d)
    ensures p == Child(d, n)
  {
    var c := Child(d, n);
    if |p| <= |d| {
      UnderChild(d, n);
      UnderComparable(p, d, c);
    } else if |p| < |c| {
      assert c[|p|..][0] == '/' && c[|p|] == n[|p| - |d| - 1];
    }
  }

  lemma Places(m: Fs, root: Path, p: Path, n: string)
    requires WellFormed(m) && p in m && OutsideTrash(root, p) && Slashless(n) && |n| >= |Base(p)|
    requires Child(Files(root), n) !in m
    ensures Apart(p, Child(Files(root), n))
    ensures !Under(p, InfoPath(root, n)) && !Under(Child(Files(root), n), InfoPath(root, n))
  {
    var dst, info := Child(Files(root), n), InfoPath(root, n);
    if Under(p, dst) {
      NameUnder(Files(root), n, p);
    }
    if Under(dst, p) {
      NothingBelow(m, dst, p);
    }
    if Under(p, info) {
      assert Slashless(n + ".trashinfo");
      NameUnder(InfoDir(root), n + ".trashinfo", p);
      InfoIsLonger(root, n, p);
    }
    UnderChild(InfoDir(root), n + ".trashinfo");
    Siblings(root, INFO, FILES, info);
    if Under(dst, info) {
      UnderChild(Files(root), n);
      UnderTransitive(Files(root), dst, info);
    }
  }

  lemma InfoIsLonger(root: Path, n: string, p: Path)
    requires Slashless(n) && |n| >= |Base(p)|
    ensures p != InfoPath(root, n)
  {
    var k, q := |InfoDir(root)| + 1, InfoPath(root, n);
    assert q[k..] == n + ".trashinfo" && q[k - 1] == '/';
    DirLenUnique(q, k);
    assert |Base(q)| > |Base(p)|;
  }

  lemma {:induction false} ParentsThere(m: Fs, q: Path, k: nat)
    requires Ancestors(m, q)
    ensures WithParents(m, q, k) == m
    decreases |q| - k
  {
    if k < |q| {
      ParentsThere(m, q, k + 1);
    }
  }

  lemma GetUpdated(m: Fs, i: Path, x: Node, p: Path)
    ensures Get(m[i := x], p) == if p == i then Some(x) else Get(m, p)
    ensures Get(m - {i}, p) == if p == i then None else Get(m, p)
  {
  }

  /** The info file neither moves with the entry nor hides it. */
  lemma RenameAroundInfo(m: Fs, a: Path, b: Path, info: Path, x: Node)
    requires !Under(a, info) && !Under(b, info)
    ensures Renamed(m[info := x], a, b) - {info} == Renamed(m, a, b) - {info}
  {
    var m1, m2 := Renamed(m[info := x], a, b), Renamed(m, a, b);
    forall p
      ensures Get(m1 - {info}, p) == Get(m2 - {info}, p)
    {
      GetUpdated(m1, info, x, p);
      GetUpdated(m2, info, x, p);
      RenamedGet(m[info := x], a, b, p);
      RenamedGet(m, a, b, p);
      if Under(b, p) {
        UnderSplit(b, p);
        UnderSuffix(a, p[|b|..]);
        GetUpdated(m, info, x, a + p[|b|..]);
      } else {
        GetUpdated(m, info, x, p);
      }
    }
    SameGets(m1 - {info}, m2 - {info});
  }

  lemma AncestorsStay(m: Fs, p: Path, dst: Path, info: Path, x: Node)
    requires WellFormed(m) && p in m && dst !in m && Apart(p, dst) && !Under(p, info)
    requires info in m ==> !m[info].Dir?
    ensures Ancestors(Renamed(m, p, dst)[info := x], p)
  {
    var m1 := Renamed(m, p, dst)[info := x];
    assert Ancestors(m, p);
    forall k | 0 <= k < |p| && p[k] == '/'
      ensures p[..k] in m1 && m1[p[..k]] == Dir
    {
      var q := p[..k];
      assert p[|q|..][0] == '/' && Under(q, p);
      if Under(dst, q) {
        UnderTransitive(dst, q, p);
      }
      assert !Under(p, q);
      RenamedGet(m, p, dst, q);
      assert q != info;
    }
  }

  /** Trashing and restoring is the identity, apart from a stale info file of the same name, when
      the encoded path fits the reader's line. */
  lemma TrashThenRestore(m: Fs, root: Path, p: Path, date: string)
    requires WellFormed(m) && p in m && Bytes(p) && OutsideTrash(root, p)
    requires Child(Files(root), TrashName(m, root, Base(p))) !in m
    requires var info := InfoPath(root, TrashName(m, root, Base(p))); info in m ==> m[info].File?
    requires |Encode(p)| <= 4090 || CutUnnoticed(p, 4090)
    ensures var n := TrashName(m, root, Base(p)); var back := Restored(Trashed(m, root, p, date), root, n);
      back == m - {InfoPath(root, n)} && (back == m <==> InfoPath(root, n) !in m)
  {
    hide WellFormed, Entries, Encode, CutUnnoticed, ReadFrom, Renamed, FirstFreeName;
    ReadsBack(p, date);
    BaseSlashless(p);
    TrashNameShape(m, root, Base(p));
    var n := TrashName(m, root, Base(p));
    var dst, info, x := Child(Files(root), n), InfoPath(root, n), File(Text(p, date));
    Places(m, root, p, n);
    AncestorsStay(m, p, dst, info, x);
    var m1 := Renamed(m, p, dst);
    ParentsThere(m1[info := x], p, 1);
    UnderSuffix(p, "");
    assert p + "" == p;
    RenamedSubtree(m, p, dst, "");
    assert p !in m1[info := x];
    RenameAroundInfo(m1, dst, p, info, x);
    RenameBack(m, p, dst);
  }

  // ---------- the operations on a file system whose calls may fail ----------

  /** A file written apart from both places, or into the place of nothing, loses nothing. */
  lemma SurvivesElsewhere(m0: Fs, m1: Fs, m2: Fs, src: Path, dst: Path, lost: set<Path>, i: Path)
    requires Survives(m0, m1, src, dst, lost) && !Under(src, i) && !Under(dst, i)
    requires forall p :: p != i ==> Get(m2, p) == Get(m1, p)
    ensures Survives(m0, m2, src, dst, lost)
  {
    forall s | Suffix(s)
      ensures At(m2, src, s) == At(m1, src, s) && At(m2, dst, s) == At(m1, dst, s)
    {
      UnderSuffix(src, s);
      UnderSuffix(dst, s);
    }
  }

  lemma NothingMoved(m: Fs, src: Path, dst: Path)
    ensures Survives(m, m, src, dst, {}) && SameSubtree(m, m, src)
  {
  }

  /** From `m0` to `m1` the item at `src` went to `dst`, or stayed whole, and only what directory reads skipped
      is missing from any state in between. */
  ghost predicate Relocated(m0: Fs, l0: seq<Fs>, e0: seq<set<Path>>, m1: Fs, l1: seq<Fs>, e1: seq<set<Path>>,
                            src: Path, dst: Path, lost: set<Path>, ok: bool) {
    && AllSurvive(l0, l1, m0, src, dst, lost) && Survives(m0, m1, src, dst, lost)
    && AllElsewhere(l0, l1, m0, src, dst) && Elsewhere(m0, m1, src, dst) && Explained(m0, src, lost, e0, e1)
    && (if ok then src in m0 && Arrived(m0, m1, src, dst, lost) else SameSubtree(m0, m1, src))
  }

  class TrashCan {
    const w: World
    const root: Path

    constructor (w: World, root: Path)
      ensures this.w == w && this.root == root
    {
      this.w, this.root := w, root;
    }

    /** unique_trash_name */
    method UniqueTrashName(base: string) returns (name: string)
      ensures name == TrashName(w.fs, root, base)
    {
      if Child(Files(root), base) !in w.fs {
        return base;
      }
      var i := 2;
      while i < 10000
        invariant 2 <= i <= 10000 && FirstFreeName(w.fs, root, base, 2) == FirstFreeName(w.fs, root, base, i)
      {
        if Child(Files(root), TrashCandidate(base, i)) !in w.fs {
          return TrashCandidate(base, i);
        }
        i := i + 1;
      }
      name := base;
    }

    /** rename, or copy and then delete when the two places are on different file systems. */
    method Relocate(src: Path, dst: Path) returns (ok: bool, ghost lost: set<Path>)
      requires w.Valid() && dst !in w.fs && (src in w.fs ==> !Under(src, dst))
      modifies w
      ensures w.Valid() && w.OnlyRaised()
      ensures Relocated(old(w.fs), old(w.log), old(w.ends), w.fs, w.log, w.ends, src, dst, lost, ok)
      ensures ok && w.faults == old(w.faults) ==> w.fs == Renamed(old(w.fs), src, dst)
      ensures !ok ==> w.faults > old(w.faults)
      ensures w.Undisturbed(false) && src in old(w.fs) && Ancestors(old(w.fs), dst) ==> ok && w.faults == old(w.faults)
    {
      hide Survives, SameSubtree, Explained;
      ok, lost := true, {};
      NothingToExplain(w.fs, src, w.ends, w.ends);
      NothingMoved(w.fs, src, dst);
      var across: bool := *;
      var r := w.DoRename(src, dst, across);
      match r {
        case Moved =>
          RenamedArrives(old(w.fs), src, dst);
        case CrossDevice =>
          ok, lost := CopyAndDelete(src, dst);
        case Failed =>
          ok := false;
      }
    }

    method CopyAndDelete(src: Path, dst: Path) returns (ok: bool, ghost lost: set<Path>)
      requires w.Valid() && dst !in w.fs && src in w.fs && !Under(src, dst)
      modifies w
      ensures w.Valid() && w.OnlyRaised()
      ensures Relocated(old(w.fs), old(w.log), old(w.ends), w.fs, w.log, w.ends, src, dst, lost, ok)
      ensures ok && w.faults == old(w.faults) ==> w.fs == Renamed(old(w.fs), src, dst)
      ensures !ok ==> w.faults > old(w.faults)
      ensures w.Undisturbed(false) && src in old(w.fs) && Ancestors(old(w.fs), dst) ==> ok && w.faults == old(w.faults)
    {
      hide Mirror, MirrorExcept, Skips, Elsewhere, Survives, Arrived, AllElsewhere, AllSurvive, SameSubtree, Renamed, Ancestors, Under, Leaves, NoPartial, Within;
      FreshIsApart(w.fs, src, dst);
      ok := w.CopyRecursive(src, dst, false, Longest(w.fs));
      lost := Skips(old(w.ends), w.ends);
      ghost var copied, logged, ended := w.fs, w.log, w.ends;
      CopyLogged(old(w.fs), copied, old(w.log), logged, src, dst, lost);
      if ok {
        SameSubtreeFacts(old(w.fs), copied, src);
        var gone := w.DeleteRecursive(src, false, Longest(w.fs));
        DeleteLogged(old(w.fs), copied, w.fs, old(w.log), logged, w.log, src, dst, lost);
        SkipsSplit(old(w.ends), ended, w.ends);
        if w.faults == old(w.faults) {
          CopiedAndDeleted(old(w.fs), copied, w.fs, src, dst);
        }
      }
    }

    /** mkdir whose failure is overlooked: because the directory is there, or for any other reason. */
    method MakeDir(d: Path) returns (ok: bool)
      requires w.Valid()
      modifies w`fs, w`log, w`faults, w`chosen
      ensures w.Valid() && w.OnlyRaised()
      ensures if w.fs == old(w.fs) then w.log == old(w.log) else
        d !in old(w.fs) && w.fs == old(w.fs)[d := Dir] && w.log == old(w.log) + [w.fs]
      ensures w.faults == old(w.faults) ==> w.fs == WithDir(old(w.fs), d)
      ensures (ok <==> d in w.fs) && (!ok ==> w.faults > old(w.faults))
      ensures w.Undisturbed(false) && (d in old(w.fs) || Ancestors(old(w.fs), d)) ==> ok && w.faults == old(w.faults)
    {
      if d in w.fs {
        return true;
      }
      ok := w.Mkdir(d);
    }

    /** One of the trash's directories, `m0` being the file system before the first of them. */
    method MakeTrashDir(d: Path, ghost m0: Fs) returns (ok: bool)
      requires w.Valid() && MadeDirs(m0, w.fs, root) && (d == root || d == Files(root) || d == InfoDir(root))
      modifies w`fs, w`log, w`faults, w`chosen
      ensures w.Valid() && w.OnlyRaised() && MadeDirs(m0, w.fs, root) && forall p :: p in old(w.fs) ==> p in w.fs
      ensures old(w.log) <= w.log && forall i :: |old(w.log)| <= i < |w.log| ==> MadeDirs(m0, w.log[i], root)
      ensures w.faults == old(w.faults) ==> w.fs == WithDir(old(w.fs), d)
      ensures (ok <==> d in w.fs) && (!ok ==> w.faults > old(w.faults))
      ensures w.Undisturbed(false) && (d in old(w.fs) || Ancestors(old(w.fs), d)) ==> ok && w.faults == old(w.faults)
    {
      hide WellFormed, MadeDirs, Files, InfoDir, WithDir, Ancestors;
      ok := MakeDir(d);
      MadeOneDir(m0, old(w.fs), w.fs, root, d);
    }

    /** ensure_trash_dirs */
    method EnsureTrashDirs() returns (ok: bool)
      requires w.Valid()
      modifies w`fs, w`log, w`faults, w`chosen
      ensures w.Valid() && w.OnlyRaised() && MadeDirs(old(w.fs), w.fs, root)
      ensures forall i :: |old(w.log)| <= i < |w.log| ==> MadeDirs(old(w.fs), w.log[i], root)
      ensures old(w.log) <= w.log
      ensures w.faults == old(w.faults) ==> w.fs == WithTrashDirs(old(w.fs), root)
      ensures ok ==> root in w.fs && Files(root) in w.fs && InfoDir(root) in w.fs
      ensures !ok ==> w.faults > old(w.faults)
      ensures w.Undisturbed(false) && TrashUsable(old(w.fs), root) ==> ok && w.faults == old(w.faults)
    {
      hide WellFormed, MadeDirs, Files, InfoDir, WithDir, TrashUsable, Ancestors;
      ghost var m0 := w.fs;
      UsableRoot(m0, root);
      NoDirsMade(m0, root);
      ok := MakeTrashDir(root, m0);
      if ok {
        RootLeads(m0, w.fs, root);
        ok := MakeTrashDir(Files(root), m0);
        if ok {
          RootLeads(m0, w.fs, root);
          ok := MakeTrashDir(InfoDir(root), m0);
        }
      }
    }

    /** fopen for writing, and one fprintf, of which nobody checks the result. */
    method WriteInfo(info: Path, text: string)
      requires w.Valid()
      modifies w`fs, w`log, w`faults, w`chosen
      ensures w.Valid() && w.OnlyRaised() && OnlyAt(old(w.fs), w.fs, info)
      ensures old(w.log) <= w.log && forall i :: |old(w.log)| <= i < |w.log| ==> OnlyAt(old(w.fs), w.log[i], info)
      ensures w.faults == old(w.faults) ==> w.fs == old(w.fs)[info := File(text)]
      ensures w.Undisturbed(false) && Ancestors(old(w.fs), info) && (info in old(w.fs) ==> old(w.fs)[info].File?) ==> w.faults == old(w.faults)
    {
      if !Ancestors(w.fs, info) || (info in w.fs && !w.fs[info].File?) {
        w.faults := w.faults + 1;
        return;
      }
      var refused := w.Refused();
      if refused {
        return;
      }
      var cut := w.Refused();
      var n: nat := |text|;
      if cut {
        n :| 0 <= n <= |text|;
      }
      AddKeepsWellFormed(w.fs, info, File(""));
      AddKeepsWellFormed(w.fs, info, File(text[..n]));
      w.log := w.log + [w.fs[info := File("")], w.fs[info := File(text[..n])]];
      w.fs := w.fs[info := File(text[..n])];
      assert text[..|text|] == text;
    }

    /** fileops_trash */
    method Trash(path: Path, date: string) returns (ok: bool, name: string, ghost lost: set<Path>)
      requires w.Valid() && Bytes(path) && OutsideTrash(root, path)
      requires Child(Files(root), TrashName(w.fs, root, Base(path))) !in w.fs
      modifies w
      ensures w.Valid() && w.OnlyRaised() && Child(Files(root), name) !in old(w.fs)
      ensures AllSurvive(old(w.log), w.log, old(w.fs), path, Child(Files(root), name), lost)
      ensures Explained(old(w.fs), path, lost, old(w.ends), w.ends)
      ensures w.ends == old(w.ends) ==> AllSurvive(old(w.log), w.log, old(w.fs), path, Child(Files(root), name), {})
      ensures ok ==> path in old(w.fs) && Arrived(old(w.fs), w.fs, path, Child(Files(root), name), lost)
      ensures ok && w.faults == old(w.faults) ==>
        var m := WithTrashDirs(old(w.fs), root);
        name == TrashName(m, root, Base(path)) && w.fs == Trashed(m, root, path, date)
      ensures !ok ==> w.faults > old(w.faults) && SameSubtree(old(w.fs), w.fs, path)
      ensures AllOthersStay(old(w.log), w.log, old(w.fs), path, InfoPath(root, name))
      ensures OthersStay(old(w.fs), w.fs, path, InfoPath(root, name))
      ensures w.Undisturbed(false) && path in old(w.fs) && TrashUsable(old(w.fs), root) ==> ok
      ensures w.Undisturbed(false) && path in old(w.fs) && TrashUsable(old(w.fs), root) ==>
        var info := InfoPath(root, name); (info in old(w.fs) ==> old(w.fs)[info].File?) ==> w.faults == old(w.faults)
    {
      hide AllOthersStay, TrashName, Survives, AllSurvive, Arrived, Explained, Elsewhere, AllElsewhere, SameSubtree, OthersStay, MadeDirs, Renamed, Entries, WellFormed,
        OutsideTrash, TrashUsable, Ancestors, Files, InfoDir, WithTrashDirs, Under;
      ghost var m0, l0 := w.fs, w.log;
      ok := EnsureTrashDirs();
      ghost var m1, l1, e1 := w.fs, w.log, w.ends;
      DirsOutside(m0, m1, root, path);
      BaseSlashless(path);
      TrashNameShape(m1, root, Base(path));
      DirsSameName(m0, m1, root, Base(path));
      name := UniqueTrashName(Base(path));
      ghost var dst, info := Child(Files(root), name), InfoPath(root, name);
      DirsKeep(m0, m1, root, dst);
      DirsLogged(m0, l0, l1, root, path, dst, {});
      if !ok {
        lost := {};
        NothingToExplain(m0, path, old(w.ends), w.ends);
        DirsOthersLogged(m0, m1, l0, l1, root, path, info);
        return;
      }
      if path in w.fs {
        Places(w.fs, root, path, name);
      }
      if TrashUsable(m0, root) {
        DirsLead(m0, m1, root, name);
      }
      ok, lost := Relocate(path, Child(Files(root), name));
      ghost var m2, l2 := w.fs, w.log;
      if ok {
        if TrashUsable(m0, root) {
          InfoStays(m0, m1, m2, root, path, name);
        }
        var encoded := UrlEncode(path);
        WriteInfo(InfoPath(root, name), HEADER + ("Path=" + encoded + "\n" + ("DeletionDate=" + date + "\n")));
      }
      TrashOutcome(m0, m1, m2, w.fs, l0, l1, l2, w.log, old(w.ends), e1, w.ends, root, path, name, lost, ok);
    }

    /** The directory above the slash at `k`, `m0` being the file system before the first one was made. */
    method MakeParent(q: Path, k: nat, ghost m0: Fs)
      requires w.Valid() && 0 < k < |q| && q[k] == '/' && MadeAbove(m0, w.fs, q)
      modifies w`fs, w`log, w`faults, w`chosen
      ensures w.Valid() && w.OnlyRaised() && MadeAbove(m0, w.fs, q)
      ensures old(w.log) <= w.log && forall i :: |old(w.log)| <= i < |w.log| ==> MadeAbove(m0, w.log[i], q)
      ensures w.faults == old(w.faults) ==> w.fs == WithDir(old(w.fs), q[..k])
      ensures w.Undisturbed(false) && OpenWay(old(w.fs), q) && WayMade(old(w.fs), q, k) ==>
        w.faults == old(w.faults) && OpenWay(w.fs, q) && WayMade(w.fs, q, k + 1)
    {
      hide MadeAbove, OpenWay, WayMade, Ancestors, WithDir;
      ghost var before := w.fs;
      if OpenWay(w.fs, q) && WayMade(w.fs, q, k) {
        WayTo(w.fs, q, k);
        MadeDirHere(w.fs, q, k);
      }
      var _ := MakeDir(q[..k]);
      MadeOneMore(m0, before, w.fs, q, k);
    }

    /** Makes every directory on the way to `q`, overlooking failures. */
    method MakeParents(q: Path)
      requires w.Valid()
      modifies w`fs, w`log, w`faults, w`chosen
      ensures w.Valid() && w.OnlyRaised() && MadeAbove(old(w.fs), w.fs, q)
      ensures old(w.log) <= w.log && forall i :: |old(w.log)| <= i < |w.log| ==> MadeAbove(old(w.fs), w.log[i], q)
      ensures w.faults == old(w.faults) ==> w.fs == WithParents(old(w.fs), q, 1)
      ensures w.Undisturbed(false) && OpenWay(old(w.fs), q) ==> w.faults == old(w.faults) && Ancestors(w.fs, q)
    {
      hide MadeAbove, OpenWay, WayMade, Ancestors, WithDir;
      WayStarts(w.fs, q);
      var k := 1;
      while k < |q|
        invariant w.Valid() && w.OnlyRaised() && MadeAbove(old(w.fs), w.fs, q)
        invariant old(w.log) <= w.log && forall i :: |old(w.log)| <= i < |w.log| ==> MadeAbove(old(w.fs), w.log[i], q)
        invariant w.faults == old(w.faults) ==> WithParents(w.fs, q, k) == WithParents(old(w.fs), q, 1)
        invariant w.Undisturbed(false) && OpenWay(old(w.fs), q) ==> w.faults == old(w.faults) && OpenWay(w.fs, q) && WayMade(w.fs, q, k)
      {
        if q[k] == '/' {
          MakeParent(q, k, old(w.fs));
        } else {
          WayGoesOn(w.fs, q, k);
        }
        k := k + 1;
      }
      if WayMade(w.fs, q, k) {
        assert q[..|q|] == q;
        WayGoesOn(w.fs, q, k);
        WayTo(w.fs, q, |q|);
      }
    }

    /** fileops_restore */
    method Restore(name: string) returns (ok: bool, ghost dst: Path, ghost lost: set<Path>)
      requires w.Valid() && Slashless(name)
      requires var q := Recorded(w.fs, root, name); q.Some? ==>
        Resolved(w.fs, q.value) !in w.fs && !Under(Child(Files(root), name), q.value)
      modifies w
      ensures w.Valid() && w.OnlyRaised()
      ensures AllSurvive(old(w.log), w.log, old(w.fs), Child(Files(root), name), dst, lost)
      ensures Explained(old(w.fs), Child(Files(root), name), lost, old(w.ends), w.ends)
      ensures w.ends == old(w.ends) ==> AllSurvive(old(w.log), w.log, old(w.fs), Child(Files(root), name), dst, {})
      ensures ok ==> Recorded(old(w.fs), root, name).Some? && dst !in old(w.fs)
      ensures ok ==> Arrived(old(w.fs), w.fs, Child(Files(root), name), dst, lost)
      ensures ok && w.faults == old(w.faults) ==> w.fs == Restored(old(w.fs), root, name)
      ensures !ok ==> w.faults > old(w.faults) && SameSubtree(old(w.fs), w.fs, Child(Files(root), name))
      ensures AllOthersStay(old(w.log), w.log, old(w.fs), Child(Files(root), name), InfoPath(root, name))
      ensures OthersStay(old(w.fs), w.fs, Child(Files(root), name), InfoPath(root, name))
      ensures w.Undisturbed(false) && Child(Files(root), name) in old(w.fs) ==>
        var q := Recorded(old(w.fs), root, name); q.Some? && OpenWay(old(w.fs), q.value) ==> ok && w.faults == old(w.faults)
    {
      var src, info := Child(Files(root), name), InfoPath(root, name);
      ok, dst, lost := false, src, {};
      hide SameSubtree, Arrived, Survives, AllSurvive, Explained, MadeAbove, OthersStay, AllOthersStay, WellFormed, ReadFrom, Renamed, Resolved;
      NothingDone(w.fs, w.log, src, info);
      NothingToExplain(w.fs, src, w.ends, w.ends);
      ghost var m0, l0 := w.fs, w.log;
      var q := ReadInfo(info);
      if q.None? {
        return;
      }
      SourceAndInfo(root, name);
      MakeParents(q.value);
      ghost var m1, l1, e1 := w.fs, w.log, w.ends;
      AboveKeeps(m0, m1, q.value, info);
      if src in m0 {
        AboveKeeps(m0, m1, q.value, src);
      }
      AboveSame(m0, m1, q.value, src);
      AboveSameName(m0, m1, q.value);
      ok, dst, lost := MoveBack(src, q.value, info);
      AboveLogged(m0, l0, l1, q.value, src, dst, lost);
      AboveIsNew(m0, m1, q.value, dst);
      RestoreOutcome(m0, m1, w.fs, l0, l1, w.log, old(w.ends), e1, w.ends, src, dst, lost, ok);
      AboveThenOthers(m0, m1, w.fs, l0, l1, w.log, q.value, src, info);
    }

    /** From the choice of a free name on: the entry goes there, then the info file goes. */
    method MoveBack(src: Path, q: Path, info: Path) returns (ok: bool, ghost dst: Path, ghost lost: set<Path>)
      requires w.Valid() && Resolved(w.fs, q) !in w.fs
      requires !Under(src, q) && !Under(src, info) && info in w.fs
      modifies w
      ensures w.Valid() && w.OnlyRaised() && dst == Resolved(old(w.fs), q) && dst !in old(w.fs)
      ensures AllSurvive(old(w.log), w.log, old(w.fs), src, dst, lost)
      ensures Explained(old(w.fs), src, lost, old(w.ends), w.ends)
      ensures ok ==> Arrived(old(w.fs), w.fs, src, dst, lost)
      ensures ok && w.faults == old(w.faults) ==> w.fs == Renamed(old(w.fs), src, dst) - {info}
      ensures !ok ==> w.faults > old(w.faults) && SameSubtree(old(w.fs), w.fs, src)
      ensures AllOthersStay(old(w.log), w.log, old(w.fs), src, info) && OthersStay(old(w.fs), w.fs, src, info)
      ensures w.Undisturbed(false) && src in old(w.fs) && Ancestors(old(w.fs), q) && old(w.fs)[info].File? ==> ok && w.faults == old(w.faults)
    {
      hide AllOthersStay, AllElsewhere, Survives, AllSurvive, Arrived, SameSubtree, Explained, Elsewhere, OthersStay, Resolved, Renamed, Under, WellFormed;
      ResolvedOutside(w.fs, src, q);
      SameWay(w.fs, q);
      var free := w.ResolveConflict(q);
      dst := free;
      ok, lost := Relocate(src, free);
      ghost var moved, logged := w.fs, w.log;
      if ok {
        NotAboveInfo(old(w.fs), dst, info);
        StaysBeside(old(w.fs), moved, src, dst, info);
        var _ := w.Unlink(info);
        InfoLogged(old(w.fs), moved, old(w.log), logged, w.log, src, dst, lost, info);
        ArrivedBesides(old(w.fs), moved, w.fs, src, dst, lost, info);
      }
      OthersKeptThere(old(w.fs), moved, w.fs, old(w.log), logged, w.log, src, dst, info);
    }

    method ReadInfo(info: Path) returns (q: Option<Path>)
      requires w.Valid()
      modifies w`faults, w`chosen
      ensures w.Valid() && w.OnlyRaised()
      ensures q.Some? ==> info in w.fs && w.fs[info].File? && q == ReadFrom(w.fs[info].data, 0)
      ensures q.None? ==> w.faults > old(w.faults)
      ensures w.Undisturbed(false) && info in w.fs && w.fs[info].File? && ReadFrom(w.fs[info].data, 0).Some? ==> q.Some? && w.faults == old(w.faults)
    {
      q := None;
      if info in w.fs && w.fs[info].File? {
        var refused := w.Refused();
        if refused {
          return;
        }
        q := ReadTrashInfoPath(w.fs[info].data);
      }
      if q.None? {
        w.faults := w.faults + 1;
      }
    }
  }

  /** Everything but the subtree at `src` and the info file is still there, unchanged. */
  ghost predicate OthersStay(m0: Fs, m1: Fs, src: Path, info: Path) {
    forall p :: p in m0 && !Under(src, p) && p != info ==> Get(m1, p) == Get(m0, p)
  }

  ghost predicate AllOthersStay(l0: seq<Fs>, l1: seq<Fs>, m0: Fs, src: Path, info: Path) {
    l0 <= l1 && forall i :: |l0| <= i < |l1| ==> OthersStay(m0, l1[i], src, info)
  }

  lemma OthersKeptStep(m0: Fs, m1: Fs, m2: Fs, src: Path, dst: Path, info: Path)
    requires WellFormed(m0) && dst !in m0 && Elsewhere(m0, m1, src, dst) && OnlyAt(m1, m2, info)
    ensures OthersStay(m0, m2, src, info)
  {
    forall p | p in m0 && !Under(src, p) && p != info
      ensures Get(m2, p) == Get(m0, p)
    {
      NotAboveInfo(m0, dst, p);
    }
  }

  lemma OthersKeptThere(m0: Fs, m1: Fs, m2: Fs, l0: seq<Fs>, l1: seq<Fs>, l2: seq<Fs>, src: Path, dst: Path, info: Path)
    requires WellFormed(m0) && dst !in m0 && AllElsewhere(l0, l1, m0, src, dst) && Elsewhere(m0, m1, src, dst)
    requires l1 <= l2 && (forall i :: |l1| <= i < |l2| ==> OnlyAt(m1, l2[i], info)) && OnlyAt(m1, m2, info)
    ensures AllOthersStay(l0, l2, m0, src, info) && OthersStay(m0, m2, src, info)
  {
    hide Elsewhere, OthersStay, WellFormed;
    OthersKeptStep(m0, m1, m2, src, dst, info);
    forall i | |l0| <= i < |l2|
      ensures OthersStay(m0, l2[i], src, info)
    {
      if i < |l1| {
        assert l2[i] == l1[i];
        OthersKeptStep(m0, l2[i], l2[i], src, dst, info);
      } else {
        OthersKeptStep(m0, m1, l2[i], src, dst, info);
      }
    }
  }

  lemma NotAboveInfo(m: Fs, dst: Path, info: Path)
    requires WellFormed(m) && dst !in m && info in m
    ensures !Under(dst, info)
  {
    if Under(dst, info) {
      NothingBelow(m, dst, info);
    }
  }

  lemma SourceAndInfo(root: Path, name: string)
    requires Slashless(name)
    ensures !Under(Child(Files(root), name), InfoPath(root, name))
  {
    var src, info := Child(Files(root), name), InfoPath(root, name);
    UnderChild(InfoDir(root), name + ".trashinfo");
    Siblings(root, INFO, FILES, info);
    UnderChild(Files(root), name);
    if Under(src, info) {
      UnderTransitive(Files(root), src, info);
    }
  }

  lemma NothingDone(m: Fs, l: seq<Fs>, src: Path, info: Path)
    ensures AllSurvive(l, l, m, src, src, {}) && SameSubtree(m, m, src)
    ensures OthersStay(m, m, src, info) && AllOthersStay(l, l, m, src, info)
  {
  }

  lemma AboveKeeps(m0: Fs, m1: Fs, q: Path, p: Path)
    requires MadeAbove(m0, m1, q) && p in m0
    ensures p in m1 && m1[p] == m0[p]
  {
    assert Get(m1, p) == Get(m0, p);
  }

  lemma AboveThenOthers(m0: Fs, m1: Fs, m2: Fs, l0: seq<Fs>, l1: seq<Fs>, l2: seq<Fs>, q: Path, src: Path, info: Path)
    requires MadeAbove(m0, m1, q) && l0 <= l1 && forall i :: |l0| <= i < |l1| ==> MadeAbove(m0, l1[i], q)
    requires AllOthersStay(l1, l2, m1, src, info) && OthersStay(m1, m2, src, info)
    ensures AllOthersStay(l0, l2, m0, src, info) && OthersStay(m0, m2, src, info)
  {
    hide MadeAbove, OthersStay;
    AboveStays(m0, m1, m2, q, src, info);
    forall i | |l0| <= i < |l2|
      ensures OthersStay(m0, l2[i], src, info)
    {
      if i < |l1| {
        assert l2[i] == l1[i];
        StaysItself(l2[i], src, info);
        AboveStays(m0, l2[i], l2[i], q, src, info);
      } else {
        AboveStays(m0, m1, l2[i], q, src, info);
      }
    }
  }

  lemma StaysItself(m: Fs, src: Path, info: Path)
    ensures OthersStay(m, m, src, info)
  {
  }

  lemma AboveStays(m0: Fs, m1: Fs, m2: Fs, q: Path, src: Path, info: Path)
    requires MadeAbove(m0, m1, q) && OthersStay(m1, m2, src, info)
    ensures OthersStay(m0, m2, src, info)
  {
    forall p | p in m0 && !Under(src, p) && p != info
      ensures Get(m2, p) == Get(m0, p)
    {
      AboveKeeps(m0, m1, q, p);
    }
  }

  lemma AboveLogged(m0: Fs, l0: seq<Fs>, l1: seq<Fs>, q: Path, src: Path, dst: Path, lost: set<Path>)
    requires !Under(src, q) && l0 <= l1 && forall i :: |l0| <= i < |l1| ==> MadeAbove(m0, l1[i], q)
    ensures AllSurvive(l0, l1, m0, src, dst, lost)
  {
    forall i | |l0| <= i < |l1|
      ensures Survives(m0, l1[i], src, dst, lost)
    {
      AboveSame(m0, l1[i], q, src);
    }
  }

  /** Only directories above `q` are new. */
  ghost predicate MadeAbove(m0: Fs, m1: Fs, q: Path) {
    forall p :: Get(m1, p) == Get(m0, p) || (p !in m0 && |p| < |q| && p == q[..|p|] && q[|p|] == '/' && Get(m1, p) == Some(Dir))
  }

  lemma MadeOneMore(m0: Fs, m1: Fs, m2: Fs, q: Path, k: nat)
    requires k < |q| && q[k] == '/' && MadeAbove(m0, m1, q)
    requires m2 == m1 || (q[..k] !in m1 && m2 == m1[q[..k] := Dir])
    ensures MadeAbove(m0, m2, q)
  {
  }

  /** New directories above `q` take none of the names tried for it. */
  lemma AboveSameName(m0: Fs, m1: Fs, q: Path)
    requires MadeAbove(m0, m1, q)
    ensures Resolved(m1, q) == Resolved(m0, q) && (Resolved(m1, q) in m1 <==> Resolved(m0, q) in m0)
  {
    AboveSameScan(m0, m1, q, 2);
    ResolvedFreeIff(m0, q);
    AboveVariant(m0, m1, q, q);
    AboveVariant(m0, m1, q, Resolved(m0, q));
  }

  lemma AboveVariant(m0: Fs, m1: Fs, q: Path, c: Path)
    requires MadeAbove(m0, m1, q) && Variant(c, q)
    ensures c in m1 <==> c in m0
  {
    if c != q {
      var i :| 2 <= i < 1000 && c == Candidate(q, i);
      CandidateShape(q, i);
    }
    assert Get(m1, c) == Get(m0, c);
  }

  lemma {:induction false} AboveSameScan(m0: Fs, m1: Fs, q: Path, i: nat)
    requires MadeAbove(m0, m1, q) && 2 <= i <= 1000
    ensures FirstFree(m1, q, i) == FirstFree(m0, q, i)
    decreases 1000 - i
  {
    if i < 1000 {
      AboveVariant(m0, m1, q, Candidate(q, i));
      AboveSameScan(m0, m1, q, i + 1);
    }
  }

  lemma AboveIsNew(m0: Fs, m1: Fs, q: Path, d: Path)
    requires MadeAbove(m0, m1, q) && d !in m1
    ensures d !in m0
  {
    assert d in m0 ==> Get(m1, d) == Get(m0, d);
  }

  lemma RestoreOutcome(m0: Fs, m1: Fs, m2: Fs, l0: seq<Fs>, l1: seq<Fs>, l2: seq<Fs>,
                       e0: seq<set<Path>>, e1: seq<set<Path>>, e2: seq<set<Path>>, src: Path, dst: Path, lost: set<Path>, ok: bool)
    requires SameSubtree(m0, m1, src) && e0 <= e1 <= e2
    requires AllSurvive(l0, l1, m0, src, dst, lost) && AllSurvive(l1, l2, m1, src, dst, lost)
    requires Explained(m1, src, lost, e1, e2) && (if ok then Arrived(m1, m2, src, dst, lost) else SameSubtree(m1, m2, src))
    ensures AllSurvive(l0, l2, m0, src, dst, lost) && Explained(m0, src, lost, e0, e2)
    ensures e0 == e2 ==> AllSurvive(l0, l2, m0, src, dst, {})
    ensures if ok then Arrived(m0, m2, src, dst, lost) else SameSubtree(m0, m2, src)
  {
    hide AllSurvive, Arrived, SameSubtree;
    SurviveRebased(m0, m1, l0, l1, l2, src, dst, lost);
    NoSkips(e0);
    ExplainedSince(m0, m1, src, lost, e0, e1, e2);
    if e0 == e2 {
      assert lost == {};
    }
    if ok {
      ArrivedSince(m0, m1, m2, src, dst, lost);
    } else {
      SameTwice(m0, m1, m2, src);
    }
  }

  /** A change at a path not below `dst` does not disturb what arrived there. */
  lemma ArrivedBesides(m0: Fs, m1: Fs, m2: Fs, src: Path, dst: Path, lost: set<Path>, i: Path)
    requires Arrived(m0, m1, src, dst, lost) && OnlyAt(m1, m2, i) && !Under(dst, i)
    ensures Arrived(m0, m2, src, dst, lost)
  {
    forall s | Suffix(s)
      ensures At(m2, dst, s) == At(m1, dst, s)
    {
      UnderSuffix(dst, s);
    }
  }

  lemma AboveSame(m0: Fs, m1: Fs, q: Path, src: Path)
    requires MadeAbove(m0, m1, q) && !Under(src, q)
    ensures SameSubtree(m0, m1, src)
  {
    forall s | Suffix(s)
      ensures At(m1, src, s) == At(m0, src, s)
    {
      var p := src + s;
      UnderSuffix(src, s);
      if |p| < |q| && p == q[..|p|] && q[|p|] == '/' {
        assert q[|p|..][0] == '/';
        UnderTransitive(src, p, q);
      }
    }
  }

  /** The name chosen for `q` is not inside `src` either. */
  lemma ResolvedOutside(m: Fs, src: Path, q: Path)
    requires !Under(src, q)
    ensures src in m && Resolved(m, q) !in m ==> !Under(src, Resolved(m, q))
  {
    var r, k := Resolved(m, q), DirLen(q);
    ResolvedStaysInDirectory(m, q);
    if src in m && r !in m && Under(src, r) {
      if |src| < k {
        assert r[|src|..][0] == '/' && r[|src|] == r[..k][|src|] == q[|src|];
        assert src == r[..k][..|src|] == q[..|src|] && q[|src|..][0] == '/';
      } else if |src| < |r| {
        assert r[k..][|src| - k] == r[|src|..][0];
      } else {
        assert src == r;
      }
    }
  }

  ghost predicate OnlyAt(m0: Fs, m1: Fs, i: Path) {
    forall p :: p != i ==> Get(m1, p) == Get(m0, p)
  }

  lemma MadeOneDir(m0: Fs, m1: Fs, m2: Fs, root: Path, d: Path)
    requires MadeDirs(m0, m1, root) && (m2 == m1 || (d !in m1 && m2 == m1[d := Dir]))
    requires d == root || d == Files(root) || d == InfoDir(root)
    ensures MadeDirs(m0, m2, root) && forall p :: p in m1 ==> p in m2
  {
  }

  lemma MadeDirsSame(m0: Fs, m1: Fs, root: Path, path: Path)
    requires MadeDirs(m0, m1, root) && OutsideTrash(root, path)
    ensures SameSubtree(m0, m1, path)
  {
    UnderChild(root, FILES);
    forall s | Suffix(s)
      ensures At(m1, path, s) == At(m0, path, s)
    {
      UnderSuffix(path, s);
      if path + s == root {
        UnderTransitive(path, root, Files(root));
      }
    }
  }

  lemma DirsOutside(m0: Fs, m1: Fs, root: Path, path: Path)
    requires MadeDirs(m0, m1, root) && OutsideTrash(root, path)
    ensures SameSubtree(m0, m1, path) && (path in m1 <==> path in m0)
  {
    MadeDirsSame(m0, m1, root, path);
    SameSubtreeFacts(m0, m1, path);
  }

  /** The trash directories take none of the names in them. */
  lemma DirsSameName(m0: Fs, m1: Fs, root: Path, base: string)
    requires MadeDirs(m0, m1, root)
    ensures TrashName(m1, root, base) == TrashName(m0, root, base)
    ensures Child(Files(root), TrashName(m1, root, base)) in m1 <==> Child(Files(root), TrashName(m0, root, base)) in m0
  {
    DirsSameScan(m0, m1, root, base, 2);
    DirsSameEntry(m0, m1, root, base);
    DirsSameEntry(m0, m1, root, TrashName(m0, root, base));
  }

  lemma DirsSameEntry(m0: Fs, m1: Fs, root: Path, n: string)
    requires MadeDirs(m0, m1, root)
    ensures Child(Files(root), n) in m1 <==> Child(Files(root), n) in m0
  {
    var c := Child(Files(root), n);
    assert |c| > |Files(root)| > |InfoDir(root)| > |root|;
    assert Get(m1, c) == Get(m0, c);
  }

  lemma {:induction false} DirsSameScan(m0: Fs, m1: Fs, root: Path, base: string, i: nat)
    requires MadeDirs(m0, m1, root) && 2 <= i <= 10000
    ensures FirstFreeName(m1, root, base, i) == FirstFreeName(m0, root, base, i)
    decreases 10000 - i
  {
    if i < 10000 {
      DirsSameEntry(m0, m1, root, TrashCandidate(base, i));
      DirsSameScan(m0, m1, root, base, i + 1);
    }
  }

  lemma DirsKeep(m0: Fs, m1: Fs, root: Path, d: Path)
    requires MadeDirs(m0, m1, root) && d !in m1
    ensures d !in m0
  {
    assert d in m0 ==> Get(m1, d) == Get(m0, d);
  }

  lemma DirsOthersLogged(m0: Fs, m1: Fs, l0: seq<Fs>, l1: seq<Fs>, root: Path, path: Path, info: Path)
    requires MadeDirs(m0, m1, root) && l0 <= l1 && forall i :: |l0| <= i < |l1| ==> MadeDirs(m0, l1[i], root)
    ensures AllOthersStay(l0, l1, m0, path, info) && OthersStay(m0, m1, path, info)
  {
  }

  /** The trash directories are there in `m1`, the item is moved in `m2`, the info file written in `m3`. */
  lemma TrashOutcome(m0: Fs, m1: Fs, m2: Fs, m3: Fs, l0: seq<Fs>, l1: seq<Fs>, l2: seq<Fs>, l3: seq<Fs>,
                     e0: seq<set<Path>>, e1: seq<set<Path>>, e2: seq<set<Path>>,
                     root: Path, path: Path, name: string, lost: set<Path>, ok: bool)
    requires var dst, info := Child(Files(root), name), InfoPath(root, name);
      && WellFormed(m1) && dst !in m1 && SameSubtree(m0, m1, path) && MadeDirs(m0, m1, root) && OutsideTrash(root, path)
      && l0 <= l1 && (forall i :: |l0| <= i < |l1| ==> MadeDirs(m0, l1[i], root))
      && Relocated(m1, l1, e1, m2, l2, e2, path, dst, lost, ok) && e0 <= e1 <= e2
      && (if ok then OnlyAt(m2, m3, info) && !Under(path, info) && !Under(dst, info) else m3 == m2 && l3 == l2)
      && l2 <= l3 && (forall i :: |l2| <= i < |l3| ==> OnlyAt(m2, l3[i], info))
    ensures var dst, info := Child(Files(root), name), InfoPath(root, name);
      && AllSurvive(l0, l3, m0, path, dst, lost) && Explained(m0, path, lost, e0, e2)
      && (e0 == e2 ==> AllSurvive(l0, l3, m0, path, dst, {}))
      && (if ok then Arrived(m0, m3, path, dst, lost) else SameSubtree(m0, m3, path))
      && AllOthersStay(l0, l3, m0, path, info) && OthersStay(m0, m3, path, info)
  {
    hide AllSurvive, Survives, Arrived, SameSubtree, WellFormed, MadeDirs, OutsideTrash, Explained, OnlyAt, Elsewhere, AllElsewhere,
      AllOthersStay, OthersStay;
    var dst, info := Child(Files(root), name), InfoPath(root, name);
    DirsLogged(m0, l0, l1, root, path, dst, lost);
    if ok {
      InfoLogged(m1, m2, l1, l2, l3, path, dst, lost, info);
      ArrivedBesides(m1, m2, m3, path, dst, lost, info);
    }
    RestoreOutcome(m0, m1, m3, l0, l1, l3, e0, e1, e2, path, dst, lost, ok);
    OnlyAtNothing(m2, info);
    OthersKeptThere(m1, m2, m3, l1, l2, l3, path, dst, info);
    DirsThenOthers(m0, m1, m3, l0, l1, l3, root, path, info);
  }

  lemma NoDirsMade(m: Fs, root: Path)
    ensures MadeDirs(m, m, root)
  {
  }

  lemma UsableRoot(m: Fs, root: Path)
    ensures TrashUsable(m, root) ==> Ancestors(m, root)
  {
  }

  /** Once the trash directory is there, the two below it can be made. */
  lemma RootLeads(m0: Fs, m: Fs, root: Path)
    requires WellFormed(m) && MadeDirs(m0, m, root) && root in m
    ensures TrashUsable(m0, root) ==> Ancestors(m, Files(root)) && Ancestors(m, InfoDir(root))
  {
    if TrashUsable(m0, root) {
      assert Get(m, root) == Some(Dir);
      EntryAncestors(m, root, FILES);
      EntryAncestors(m, root, INFO);
    }
  }

  lemma DirsLead(m0: Fs, m: Fs, root: Path, name: string)
    requires TrashUsable(m0, root) && WellFormed(m) && MadeDirs(m0, m, root) && Files(root) in m && Slashless(name)
    ensures Ancestors(m, Child(Files(root), name))
  {
    assert Get(m, Files(root)) == Some(Dir);
    EntryAncestors(m, Files(root), name);
  }

  /** Moving the item does not touch the place of the info file. */
  lemma InfoStays(m0: Fs, m1: Fs, m2: Fs, root: Path, path: Path, name: string)
    requires TrashUsable(m0, root) && WellFormed(m1) && WellFormed(m2) && MadeDirs(m0, m1, root) && InfoDir(root) in m1 && Slashless(name)
    requires OutsideTrash(root, path) && Elsewhere(m1, m2, path, Child(Files(root), name))
    requires !Under(path, InfoPath(root, name)) && !Under(Child(Files(root), name), InfoPath(root, name))
    ensures Ancestors(m2, InfoPath(root, name)) && Get(m2, InfoPath(root, name)) == Get(m0, InfoPath(root, name))
  {
    var d, info := InfoDir(root), InfoPath(root, name);
    var dst := Child(Files(root), name);
    assert Get(m1, d) == Some(Dir);
    UnderChild(d, name + ".trashinfo");
    if Under(dst, d) {
      UnderTransitive(dst, d, info);
    }
    assert Get(m2, d) == Get(m1, d);
    EntryAncestors(m2, d, name + ".trashinfo");
    assert |info| > |d| && |info| > |root| && |info| > |Files(root)|;
    assert Get(m1, info) == Get(m0, info);
  }

  lemma StaysBeside(m0: Fs, m1: Fs, src: Path, dst: Path, p: Path)
    requires Elsewhere(m0, m1, src, dst) && !Under(src, p) && !Under(dst, p)
    ensures Get(m1, p) == Get(m0, p)
  {
  }

  lemma OnlyAtNothing(m: Fs, i: Path)
    ensures OnlyAt(m, m, i)
  {
  }

  lemma DirsThenOthers(m0: Fs, m1: Fs, m2: Fs, l0: seq<Fs>, l1: seq<Fs>, l2: seq<Fs>, root: Path, path: Path, info: Path)
    requires MadeDirs(m0, m1, root) && l0 <= l1 && forall i :: |l0| <= i < |l1| ==> MadeDirs(m0, l1[i], root)
    requires AllOthersStay(l1, l2, m1, path, info) && OthersStay(m1, m2, path, info)
    ensures AllOthersStay(l0, l2, m0, path, info) && OthersStay(m0, m2, path, info)
  {
    hide MadeDirs, OthersStay;
    DirsStay(m0, m1, m2, root, path, info);
    forall i | |l0| <= i < |l2|
      ensures OthersStay(m0, l2[i], path, info)
    {
      if i < |l1| {
        assert l2[i] == l1[i];
        StaysItself(l2[i], path, info);
        DirsStay(m0, l2[i], l2[i], root, path, info);
      } else {
        DirsStay(m0, m1, l2[i], root, path, info);
      }
    }
  }

  lemma DirsStay(m0: Fs, m1: Fs, m2: Fs, root: Path, path: Path, info: Path)
    requires MadeDirs(m0, m1, root) && OthersStay(m1, m2, path, info)
    ensures OthersStay(m0, m2, path, info)
  {
    forall p | p in m0 && !Under(path, p) && p != info
      ensures Get(m2, p) == Get(m0, p)
    {
      assert Get(m1, p) == Get(m0, p);
    }
  }

  lemma DirsLogged(m0: Fs, l0: seq<Fs>, l1: seq<Fs>, root: Path, path: Path, dst: Path, lost: set<Path>)
    requires OutsideTrash(root, path) && l0 <= l1
    requires forall i :: |l0| <= i < |l1| ==> MadeDirs(m0, l1[i], root)
    ensures AllSurvive(l0, l1, m0, path, dst, lost)
  {
    forall i | |l0| <= i < |l1|
      ensures Survives(m0, l1[i], path, dst, lost)
    {
      MadeDirsSame(m0, l1[i], root, path);
    }
  }

  lemma SurviveRebased(m0: Fs, m1: Fs, l0: seq<Fs>, l1: seq<Fs>, l2: seq<Fs>, path: Path, dst: Path, lost: set<Path>)
    requires SameSubtree(m0, m1, path)
    requires AllSurvive(l0, l1, m0, path, dst, lost) && AllSurvive(l1, l2, m1, path, dst, lost)
    ensures AllSurvive(l0, l2, m0, path, dst, lost)
  {
    forall i | |l0| <= i < |l2|
      ensures Survives(m0, l2[i], path, dst, lost)
    {
      if i < |l1| {
        assert l2[i] == l1[i];
      } else {
        SurvivesSame(m0, m1, l2[i], path, dst, lost);
      }
    }
  }

  lemma InfoLogged(m0: Fs, m1: Fs, l0: seq<Fs>, l1: seq<Fs>, l2: seq<Fs>, src: Path, dst: Path, lost: set<Path>, info: Path)
    requires AllSurvive(l0, l1, m0, src, dst, lost) && Survives(m0, m1, src, dst, lost)
    requires l1 <= l2 && forall i :: |l1| <= i < |l2| ==> OnlyAt(m1, l2[i], info)
    requires !Under(src, info) && !Under(dst, info)
    ensures AllSurvive(l0, l2, m0, src, dst, lost)
  {
    forall i | |l0| <= i < |l2|
      ensures Survives(m0, l2[i], src, dst, lost)
    {
      if i < |l1| {
        assert l2[i] == l1[i];
      } else {
        SurvivesElsewhere(m0, m1, l2[i], src, dst, lost, info);
      }
    }
  }

  /** Only the trash's own directories are new. */
  ghost predicate MadeDirs(m0: Fs, m1: Fs, root: Path) {
    forall p :: Get(m1, p) == Get(m0, p) || (p !in m0 && (p == root || p == Files(root) || p == InfoDir(root)) && Get(m1, p) == Some(Dir))
  }

  /** The trash's directories are there or can be made. */
  ghost predicate TrashUsable(m: Fs, root: Path) {
    Ancestors(m, root) && forall d :: d in m && (d == root || d == Files(root) || d == InfoDir(root)) ==> m[d] == Dir
  }

  /** Nothing but directories lies on the way to `q`; missing ones can be made. */
  predicate OpenWay(m: Fs, q: Path) {
    forall k :: 0 <= k < |q| && q[k] == '/' ==> if q[..k] in m then m[q[..k]] == Dir else k > 0
  }

  /** The first directories on the way are there. */
  predicate WayMade(m: Fs, q: Path, k: nat) {
    forall j :: 0 <= j < k && j < |q| && q[j] == '/' ==> q[..j] in m && m[q[..j]] == Dir
  }

  lemma WayStarts(m: Fs, q: Path)
    ensures MadeAbove(m, m, q) && (OpenWay(m, q) ==> WayMade(m, q, 1))
  {
  }

  lemma WayGoesOn(m: Fs, q: Path, k: nat)
    requires k >= |q| || q[k] != '/'
    ensures WayMade(m, q, k) ==> WayMade(m, q, k + 1) && (k >= |q| ==> WayMade(m, q, |q|))
  {
  }

  lemma WayTo(m: Fs, q: Path, k: nat)
    requires k <= |q| && WayMade(m, q, k)
    ensures Ancestors(m, q[..k])
  {
    forall j | 0 <= j < k && q[..k][j] == '/'
      ensures q[..k][..j] in m && m[q[..k][..j]] == Dir
    {
      assert q[..k][..j] == q[..j] && q[..k][j] == q[j];
    }
  }

  lemma MadeDirHere(m: Fs, q: Path, k: nat)
    requires k < |q| && q[k] == '/' && WayMade(m, q, k) && OpenWay(m, q) && (k == 0 ==> "" in m)
    ensures var m1 := WithDir(m, q[..k]); WayMade(m1, q, k + 1) && OpenWay(m1, q) && Keeps(m, m1)
  {
    var m1 := WithDir(m, q[..k]);
    WayTo(m, q, k);
    forall j | 0 <= j < |q| && q[j] == '/'
      ensures j <= k ==> q[..j] in m1 && m1[q[..j]] == Dir
      ensures if q[..j] in m1 then m1[q[..j]] == Dir else j > 0
    {
      assert |q[..j]| == j;
    }
  }

  lemma {:induction false} ParentsKept(m: Fs, q: Path, k: nat)
    ensures Keeps(m, WithParents(m, q, k))
    decreases |q| - k
  {
    if k < |q| {
      ParentsKept(if q[k] == '/' then WithDir(m, q[..k]) else m, q, k + 1);
    }
  }

  lemma {:induction false} ParentsMade(m: Fs, q: Path, k: nat)
    requires OpenWay(m, q) && WayMade(m, q, k) && k > 0
    ensures Ancestors(WithParents(m, q, k), q)
    decreases |q| - k
  {
    if k >= |q| {
      assert q[..|q|] == q;
      WayTo(m, q, |q|);
    } else if q[k] == '/' {
      MadeDirHere(m, q, k);
      ParentsMade(WithDir(m, q[..k]), q, k + 1);
    } else {
      ParentsMade(m, q, k + 1);
    }
  }

  /** Making the parents opens the way exactly where nothing but directories lay on it. */
  lemma ParentsLead(m: Fs, q: Path)
    ensures Ancestors(WithParents(m, q, 1), q) <==> OpenWay(m, q)
  {
    ParentsKept(m, q, 1);
    if OpenWay(m, q) {
      assert WayMade(m, q, 1);
      ParentsMade(m, q, 1);
    }
    if Ancestors(WithParents(m, q, 1), q) {
      RootStays(m, q, 1);
    }
  }

  lemma {:induction false} RootStays(m: Fs, q: Path, k: nat)
    requires k > 0
    ensures "" in WithParents(m, q, k) ==> "" in m
    decreases |q| - k
  {
    if k < |q| {
      RootStays(if q[k] == '/' then WithDir(m, q[..k]) else m, q, k + 1);
      assert |q[..k]| == k;
    }
  }

  lemma {:induction false} ParentsAbove(m0: Fs, m: Fs, q: Path, k: nat)
    requires MadeAbove(m0, m, q) && WellFormed(m)
    ensures MadeAbove(m0, WithParents(m, q, k), q) && WellFormed(WithParents(m, q, k))
    decreases |q| - k
  {
    if k < |q| {
      if q[k] == '/' && WithDir(m, q[..k]) != m {
        AddKeepsWellFormed(m, q[..k], Dir);
        MadeOneMore(m0, m, WithDir(m, q[..k]), q, k);
      }
      ParentsAbove(m0, if q[k] == '/' then WithDir(m, q[..k]) else m, q, k + 1);
    }
  }

  /** Restoring brings back the whole entry, to a free name, also when directories on the way are gone: they are made. */
  lemma RestoredArrives(m: Fs, root: Path, name: string, q: Path)
    requires WellFormed(m) && Slashless(name) && Child(Files(root), name) in m && Recorded(m, root, name) == Some(q)
    requires OpenWay(m, q) && Resolved(m, q) !in m && !Under(Child(Files(root), name), q)
    ensures var m2, src, info, dst := Restored(m, root, name), Child(Files(root), name), InfoPath(root, name), Resolved(m, q);
      && WellFormed(m2) && Arrived(m, m2, src, dst, {}) && src !in m2 && info !in m2 && OthersStay(m, m2, src, info)
      && forall p :: p in m2 && p !in m && !Under(dst, p) ==> m2[p] == Dir && Under(p, q)
  {
    var m1, src, info, dst := WithParents(m, q, 1), Child(Files(root), name), InfoPath(root, name), Resolved(m, q);
    var moved := Renamed(m1, src, dst);
    ParentsLead(m, q);
    ParentsAbove(m, m, q, 1);
    hide WellFormed, Renamed, ReadFrom, Resolved, MadeAbove, OthersStay, Arrived, Ancestors;
    ReadyToRestore(m, m1, src, q);
    RenamedWellFormed(m1, src, dst);
    SourceAndInfo(root, name);
    AboveKeeps(m, m1, q, info);
    InfoGoes(m1, src, dst, info);
    RestoredThere(m, m1, src, q, info);
  }

  lemma ReadyToRestore(m: Fs, m1: Fs, src: Path, q: Path)
    requires WellFormed(m1) && MadeAbove(m, m1, q) && src in m && Ancestors(m1, q) && Resolved(m, q) !in m && !Under(src, q)
    ensures var dst := Resolved(m, q); dst == Resolved(m1, q) && dst !in m1 && MayRename(m1, src, dst)
  {
    AboveSameName(m, m1, q);
    AboveKeeps(m, m1, q, src);
    ResolvedOutside(m1, src, q);
    SameWay(m1, q);
  }

  lemma InfoGoes(m: Fs, src: Path, dst: Path, info: Path)
    requires WellFormed(m) && MayRename(m, src, dst) && dst !in m && WellFormed(Renamed(m, src, dst))
    requires info in m && m[info].File? && !Under(src, info)
    ensures WellFormed(Renamed(m, src, dst) - {info}) && !Under(dst, info)
  {
    var moved := Renamed(m, src, dst);
    NotAboveInfo(m, dst, info);
    RenamedElsewhere(m, src, dst, info);
    assert Get(moved, info) == Get(m, info);
    forall p | p in moved && Under(info, p)
      ensures p == info
    {
      NothingBelow(moved, info, p);
    }
    RemoveKeepsWellFormed(moved, info);
  }

  lemma RestoredThere(m: Fs, m1: Fs, src: Path, q: Path, info: Path)
    requires WellFormed(m) && MadeAbove(m, m1, q) && !Under(src, q) && Resolved(m, q) !in m && MayRename(m1, src, Resolved(m, q))
    requires WellFormed(m1) && Resolved(m, q) !in m1 && !Under(src, info) && !Under(Resolved(m, q), info)
    ensures var dst := Resolved(m, q); var m2 := Renamed(m1, src, dst) - {info};
      && Arrived(m, m2, src, dst, {}) && src !in m2 && OthersStay(m, m2, src, info)
      && forall p :: p in m2 && p !in m && !Under(dst, p) ==> m2[p] == Dir && Under(p, q)
  {
    var dst := Resolved(m, q);
    var moved := Renamed(m1, src, dst);
    hide Resolved, WellFormed, Renamed, MayRename, Arrived, SameSubtree, MadeAbove, OthersStay, Apart, Under, Survives, Whole, Elsewhere;
    MayRenameApart(m1, src, dst);
    RenamedArrives(m1, src, dst);
    AboveSame(m, m1, q, src);
    ArrivedSince(m, m1, moved, src, dst, {});
    ArrivedBesides(m, moved, moved - {info}, src, dst, {}, info);
    RenamedSubtree(m1, src, dst, "");
    assert src + "" == src;
    OthersRestored(m, m1, src, q, dst, info);
    OnlyParentsNew(m, m1, src, q, dst, info);
  }

  lemma OthersRestored(m: Fs, m1: Fs, src: Path, q: Path, dst: Path, info: Path)
    requires WellFormed(m) && MadeAbove(m, m1, q) && dst !in m
    ensures OthersStay(m, Renamed(m1, src, dst) - {info}, src, info)
  {
    hide WellFormed, Renamed, MadeAbove;
    forall p | p in m && !Under(src, p) && p != info
      ensures Get(Renamed(m1, src, dst) - {info}, p) == Get(m, p)
    {
      AboveKeeps(m, m1, q, p);
      NotAboveInfo(m, dst, p);
      RenamedElsewhere(m1, src, dst, p);
    }
  }

  lemma OnlyParentsNew(m: Fs, m1: Fs, src: Path, q: Path, dst: Path, info: Path)
    requires MadeAbove(m, m1, q)
    ensures var m2 := Renamed(m1, src, dst) - {info}; forall p :: p in m2 && p !in m && !Under(dst, p) ==> m2[p] == Dir && Under(p, q)
  {
    var m2 := Renamed(m1, src, dst) - {info};
    hide Renamed;
    forall p | p in m2 && p !in m && !Under(dst, p)
      ensures m2[p] == Dir && Under(p, q)
    {
      RenamedGet(m1, src, dst, p);
      assert Get(m1, p) == Some(Dir);
    }
  }

  // ---------- trash, then anything, then restore ----------

  /** Trashing moves the whole item into the trash, writes where it was beside it, and touches nothing else. */
  lemma TrashedArrives(m: Fs, root: Path, p: Path, date: string)
    requires WellFormed(m) && p in m && Bytes(p) && OutsideTrash(root, p)
    requires var n := TrashName(m, root, Base(p)); var dst, info := Child(Files(root), n), InfoPath(root, n);
      dst !in m && Ancestors(m, dst) && Ancestors(m, info) && (info in m ==> m[info].File?)
    ensures var n := TrashName(m, root, Base(p)); var dst, info := Child(Files(root), n), InfoPath(root, n); var m1 := Trashed(m, root, p, date);
      && WellFormed(m1) && Arrived(m, m1, p, dst, {}) && p !in m1 && Get(m1, info) == Some(File(Text(p, date)))
      && OthersStay(m, m1, p, info) && forall q :: q in m1 && q !in m ==> Under(dst, q) || q == info
  {
    hide TrashName, Text, Renamed, WellFormed, Arrived;
    var n := TrashName(m, root, Base(p));
    var dst, info := Child(Files(root), n), InfoPath(root, n);
    BaseSlashless(p);
    TrashNameShape(m, root, Base(p));
    Places(m, root, p, n);
    TrashedThere(m, p, dst, info, File(Text(p, date)));
  }

  lemma TrashedThere(m: Fs, p: Path, dst: Path, info: Path, x: Node)
    requires WellFormed(m) && p in m && Apart(p, dst) && dst !in m && Ancestors(m, dst) && Ancestors(m, info) && x.File?
    requires !Under(p, info) && !Under(dst, info) && (info in m ==> m[info].File?)
    ensures var m1 := Renamed(m, p, dst)[info := x];
      && WellFormed(m1) && Arrived(m, m1, p, dst, {}) && p !in m1
      && OthersStay(m, m1, p, info) && forall q :: q in m1 && q !in m ==> Under(dst, q) || q == info
  {
    var moved := Renamed(m, p, dst);
    var m1 := moved[info := x];
    RenamedWellFormed(m, p, dst);
    RenamedArrives(m, p, dst);
    RenamedElsewhere(m, p, dst, info);
    WayBeside(m, moved, p, dst, info);
    AddKeepsWellFormed(moved, info, x);
    hide WellFormed, Arrived, Renamed, Survives, Elsewhere, Whole, Ancestors;
    ArrivedBesides(m, moved, m1, p, dst, {}, info);
    RenamedSubtree(m, p, dst, "");
    assert p + "" == p && p[|p|..] == "";
    forall q | !Under(p, q) && q != info && !Under(dst, q)
      ensures Get(m1, q) == Get(m, q)
    {
      RenamedElsewhere(m, p, dst, q);
    }
    forall q | q in m
      ensures !Under(dst, q)
    {
      NotAboveInfo(m, dst, q);
    }
    forall q | q in m1 && q !in m && q != info
      ensures Under(dst, q)
    {
      RenamedGet(m, p, dst, q);
    }
  }

  /** The directories that lead to a path stay when something apart from it moves to a free place. */
  lemma WayBeside(m: Fs, m1: Fs, p: Path, dst: Path, q: Path)
    requires WellFormed(m) && dst !in m && Elsewhere(m, m1, p, dst) && Ancestors(m, q) && !Under(p, q)
    ensures Ancestors(m1, q)
  {
    forall k | 0 <= k < |q| && q[k] == '/'
      ensures q[..k] in m1 && m1[q[..k]] == Dir
    {
      assert q[|q[..k]|..][0] == '/' && Under(q[..k], q);
      if Under(p, q[..k]) { UnderTransitive(p, q[..k], q); }
      NotAboveInfo(m, dst, q[..k]);
      assert Get(m1, q[..k]) == Get(m, q[..k]);
    }
  }

  /** Whatever happened to the rest of the file system since the item `p` of `m0` was trashed as `n`, restoring brings all
      of it back, to where it was or a numbered name beside it, as long as only directories are on the way. */
  lemma TrashedComesBack(m0: Fs, p: Path, date: string, m: Fs, root: Path, n: string)
    requires Bytes(p) && p in m0 && (|Encode(p)| <= 4090 || CutUnnoticed(p, 4090))
    requires WellFormed(m) && Slashless(n) && Get(m, InfoPath(root, n)) == Some(File(Text(p, date)))
    requires Arrived(m0, m, p, Child(Files(root), n), {})
    requires OpenWay(m, p) && Resolved(m, p) !in m && !Under(Child(Files(root), n), p)
    ensures var m1 := Restored(m, root, n); WellFormed(m1) && Arrived(m0, m1, p, Resolved(m, p), {})
  {
    var src, m1 := Child(Files(root), n), Restored(m, root, n);
    hide WellFormed, Encode, CutUnnoticed, ReadFrom, Resolved, Renamed, Text, OpenWay, OthersStay;
    ReadsBack(p, date);
    assert src + "" == src && p + "" == p;
    assert At(m, src, "") == At(m0, p, "");
    RestoredArrives(m, root, n, p);
    forall s | Suffix(s)
      ensures At(m1, Resolved(m, p), s) == At(m0, p, s)
    {
      assert At(m1, Resolved(m, p), s) == At(m, src, s);
    }
  }
}
