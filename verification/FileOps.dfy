/** File operations over a file system whose calls may fail, while another thread may cancel. */
module FileOps {
  import opened Paths
  import opened CopyTheory
  import opened Conflict
  import opened Rename
  import opened Steps
  import opened MoveTheory
  import opened RenameList
  import opened JobTheory

  const BUF_SIZE: nat := 65536

  /** The file system as one job sees it. */
  class World {
    var fs: Fs
    var cancelled: bool
    var filesDone: int
    var filesTotal: int
    ghost var log: seq<Fs>     // every state the file system went through
    ghost var faults: nat      // failed calls, and directory reads that ended early
    ghost var chosen: nat      // those of them that could have succeeded: only Refused and ListDir count them
    ghost var rwFaults: nat    // failed reads and writes, and partial files that could not be unlinked
    ghost var ends: seq<set<Path>>   // what each directory read that ended early left out
    ghost var shown: seq<int>  // the values filesDone took
    ghost var counted: nat     // faults, when the counting pass of the job was over

    ghost predicate Valid()
      reads `fs, `ends
    {
      WellFormed(fs) && forall e :: e in ends ==> e != {}
    }

    /** Flags are only ever raised, records only ever grow, and nothing goes wrong without being counted. */
    twostate predicate OnlyRaised()
      reads this
    {
      && (old(cancelled) ==> cancelled)
      && old(faults) <= faults && old(chosen) <= chosen && old(rwFaults) <= rwFaults && old(ends) <= ends
      && (old(rwFaults) < rwFaults || old(ends) != ends ==> old(chosen) < chosen)
      && (old(chosen) < chosen ==> old(faults) < faults)
    }

    /** The file counter only went up. */
    twostate predicate Counting()
      reads this
    {
      Rising(old(shown), shown, old(filesDone), filesDone)
    }

    /** Nothing went wrong, and nobody cancelled. */
    twostate predicate Smooth()
      reads this
    {
      faults == old(faults) && !cancelled
    }

    /** Every call that could succeed did, no directory read ended early, and a job was not cancelled: whatever fails
        now fails for a reason in the file system. */
    twostate predicate Undisturbed(job: bool)
      reads this
    {
      chosen == old(chosen) && (job ==> !cancelled)
    }

    // ---------- system calls ----------

    /** The environment decides whether a call that could succeed does. */
    method Refused() returns (r: bool)
      modifies `faults, `chosen
      ensures if r then faults == old(faults) + 1 && chosen == old(chosen) + 1 else faults == old(faults) && chosen == old(chosen)
    {
      r := *;
      if r {
        faults, chosen := faults + 1, chosen + 1;
      }
    }

    /** Reads the cancel flag, which the main thread may just have raised. */
    method Poll() returns (c: bool)
      modifies `cancelled
      ensures c == cancelled && (old(cancelled) ==> cancelled)
    {
      if * {
        cancelled := true;
      }
      c := cancelled;
    }

    method Lstat(p: Path) returns (st: Option<Node>)
      modifies `faults, `chosen
      ensures st.Some? ==> p in fs && st.value == fs[p] && faults == old(faults)
      ensures st.None? ==> faults > old(faults)
      ensures OnlyRaised() && (Undisturbed(false) && p in fs ==> st.Some?)
    {
      st := Get(fs, p);
      if st.None? {
        faults := faults + 1;
      } else {
        var refused := Refused();
        if refused {
          st := None;
        }
      }
    }

    method Mkdir(p: Path) returns (ok: bool)
      requires Valid() && p !in fs
      modifies `fs, `log, `faults, `chosen
      ensures Valid() && Within(old(log), log, old(fs), p) && OnlyUnder(old(fs), fs, p)
      ensures ok ==> fs == old(fs)[p := Dir] && log == old(log) + [fs] && faults == old(faults)
      ensures !ok ==> fs == old(fs) && log == old(log) && faults > old(faults)
      ensures OnlyRaised() && (Undisturbed(false) && Ancestors(old(fs), p) ==> ok)
    {
      ok := false;
      if !Ancestors(fs, p) {
        faults := faults + 1;
        return;
      }
      var refused := Refused();
      if !refused {
        AddKeepsWellFormed(fs, p, Dir);
        fs := fs[p := Dir];
        log := log + [fs];
        ok := true;
      }
    }

    method Symlink(target: string, p: Path) returns (ok: bool)
      requires Valid() && p !in fs && |target| < PATH_MAX
      modifies `fs, `log, `faults, `chosen
      ensures Valid() && Within(old(log), log, old(fs), p) && OnlyUnder(old(fs), fs, p)
      ensures ok ==> fs == old(fs)[p := Link(target)] && faults == old(faults)
      ensures !ok ==> fs == old(fs) && faults > old(faults)
      ensures OnlyRaised() && (Undisturbed(false) && Ancestors(old(fs), p) ==> ok)
    {
      ok := false;
      if !Ancestors(fs, p) {
        faults := faults + 1;
        return;
      }
      var refused := Refused();
      if !refused {
        AddKeepsWellFormed(fs, p, Link(target));
        fs := fs[p := Link(target)];
        log := log + [fs];
        ok := true;
      }
    }

    /** opendir and the readdir loop: the entries in some order; readdir may stop early,
        which the callers cannot tell from the end. */
    method ListDir(p: Path) returns (isOpen: bool, names: seq<string>, ghost missed: set<string>)
      requires Valid()
      modifies `faults, `chosen, `ends
      ensures Valid() && OnlyRaised()
      ensures !isOpen ==> faults > old(faults) && names == [] && missed == {} && ends == old(ends)
      ensures DistinctNames(names) && (forall n :: n in names ==> n in Entries(fs, p))
      ensures isOpen ==> missed == Entries(fs, p) - (set n | n in names)
      ensures isOpen ==> ends == if missed == {} then old(ends) else old(ends) + [Unreported(p, missed)]
      ensures isOpen ==> (faults == old(faults) <==> missed == {})
      ensures Undisturbed(false) ==> isOpen && missed == {}
    {
      names, missed := [], {};
      var refused := Refused();
      isOpen := !refused;
      if refused {
        return;
      }
      forall n | n in Entries(fs, p) ensures Slashless(n) { EntryIsChild(fs, p, n); }
      names, missed := ReadDir(Entries(fs, p));
      if missed != {} {
        faults, chosen := faults + 1, chosen + 1;
        ends := ends + [Unreported(p, missed)];
        ghost var n :| n in missed;
        assert Child(p, n) in Unreported(p, missed);
      }
    }

    method ReadDir(all: set<string>) returns (names: seq<string>, missed: set<string>)
      requires forall n :: n in all ==> Slashless(n)
      ensures DistinctNames(names) && (forall n :: n in names ==> n in all)
      ensures missed == all - (set n | n in names)
    {
      names, missed := [], all;
      while missed != {}
        invariant DistinctNames(names) && missed == all - (set n | n in names)
        invariant forall n :: n in names ==> n in all
        decreases |missed|
      {
        if * {
          break;
        }
        var n :| n in missed;
        assert n !in names;
        names := names + [n];
        missed := missed - {n};
      }
    }

    method Unlink(p: Path) returns (ok: bool)
      requires Valid()
      modifies `fs, `log, `faults, `chosen
      ensures Valid() && Within(old(log), log, old(fs), p) && OnlyUnder(old(fs), fs, p)
      ensures ok ==> p in old(fs) && !old(fs)[p].Dir? && fs == old(fs) - {p} && faults == old(faults)
      ensures !ok ==> fs == old(fs) && faults > old(faults)
      ensures log == if ok then old(log) + [fs] else old(log)
      ensures OnlyRaised() && (Undisturbed(false) && p in old(fs) && !old(fs)[p].Dir? ==> ok)
    {
      ok := false;
      if p !in fs || fs[p].Dir? {
        faults := faults + 1;
        return;
      }
      var refused := Refused();
      if !refused {
        forall q | q in fs && Under(p, q) ensures q == p { NothingBelow(fs, p, q); }
        RemoveKeepsWellFormed(fs, p);
        fs := fs - {p};
        log := log + [fs];
        ok := true;
      }
    }

    method Rmdir(p: Path) returns (ok: bool)
      requires Valid()
      modifies `fs, `log, `faults, `chosen
      ensures Valid() && Within(old(log), log, old(fs), p) && OnlyUnder(old(fs), fs, p)
      ensures ok ==> p in old(fs) && Entries(old(fs), p) == {} && fs == old(fs) - {p} && faults == old(faults)
      ensures !ok ==> fs == old(fs) && faults > old(faults)
      ensures OnlyRaised() && (Undisturbed(false) && p in old(fs) && old(fs)[p].Dir? && Entries(old(fs), p) == {} ==> ok)
    {
      ok := false;
      if p !in fs || !fs[p].Dir? || Entries(fs, p) != {} {
        faults := faults + 1;
        return;
      }
      var refused := Refused();
      if !refused {
        forall q | q in fs && Under(p, q) ensures q == p { EmptyHasNothingBelow(fs, p, q); }
        RemoveKeepsWellFormed(fs, p);
        fs := fs - {p};
        log := log + [fs];
        ok := true;
      }
    }

    // ---------- names ----------

    method ResolveConflict(dst: Path) returns (r: Path)
      ensures r == Resolved(fs, dst)
    {
      if dst !in fs {
        return dst;
      }
      var i := 2;
      while i < 1000
        invariant 2 <= i <= 1000 && FirstFree(fs, dst, 2) == FirstFree(fs, dst, i)
      {
        if Candidate(dst, i) !in fs {
          return Candidate(dst, i);
        }
        i := i + 1;
      }
      r := dst;
    }

    // ---------- one file ----------

    /** Writes a block in as many calls as it takes. */
    method WriteBlock(dst: Path, block: string) returns (ok: bool)
      requires Valid() && dst in fs && fs[dst].File?
      modifies `fs, `log, `faults, `chosen, `rwFaults
      ensures Valid() && Within(old(log), log, old(fs), dst) && OnlyUnder(old(fs), fs, dst)
      ensures exists k :: 0 <= k <= |block| && fs == old(fs)[dst := File(old(fs)[dst].data + block[..k])]
      ensures ok ==> fs == old(fs)[dst := File(old(fs)[dst].data + block)] && faults == old(faults) && rwFaults == old(rwFaults)
      ensures !ok ==> faults > old(faults) && rwFaults > old(rwFaults)
      ensures OnlyRaised() && (Undisturbed(false) ==> ok)
    {
      var written, was := 0, fs[dst].data;
      assert block[..0] == "" && was + "" == was && fs == fs[dst := File(was)];
      while written < |block|
        invariant 0 <= written <= |block| && Valid() && faults == old(faults) && chosen == old(chosen) && rwFaults == old(rwFaults)
        invariant fs == old(fs)[dst := File(was + block[..written])]
        invariant Within(old(log), log, old(fs), dst)
      {
        var refused := Refused();
        if refused {
          rwFaults := rwFaults + 1;
          FileUpdate(old(fs), dst, File(was + block[..written]));
          return false;
        }
        var w :| 1 <= w <= |block| - written;
        written := written + w;
        FileUpdate(old(fs), dst, File(was + block[..written]));
        fs := fs[dst := File(was + block[..written])];
        log := log + [fs];
      }
      assert block[..written] == block;
      FileUpdate(old(fs), dst, File(was + block));
      ok := true;
    }

    /** copy_file_cancellable; `job` tells whether there is a cancel flag to look at. */
    method CopyFile(src: Path, dst: Path, job: bool) returns (ok: bool)
      requires Valid() && src != dst && (dst in fs ==> !fs[dst].Link?)
      modifies `fs, `cancelled, `log, `faults, `chosen, `rwFaults
      ensures Valid() && OnlyRaised() && Within(old(log), log, old(fs), dst) && OnlyUnder(old(fs), fs, dst)
      ensures FileOnly(old(fs), fs, dst)
      ensures ok ==> src in old(fs) && fs == old(fs)[dst := old(fs)[src]]
      ensures !ok ==> faults > old(faults) || (job && cancelled)
      ensures !ok && dst in fs && fs != old(fs) ==> rwFaults > old(rwFaults)
      ensures Undisturbed(job) && src in old(fs) && old(fs)[src].File? && Ancestors(old(fs), dst) && (dst in old(fs) ==> old(fs)[dst].File?) ==>
        ok && faults == old(faults)
      ensures job && old(cancelled) && src in old(fs) && old(fs)[src] != File("") ==> !ok
    {
      assert OnlyUnder(fs, fs, dst) && Within(log, log, fs, dst);
      hide OnlyUnder, Within, WellFormed, Ancestors, FileOnly;
      FileUntouched(fs, dst);
      ok := false;
      if src !in fs || !fs[src].File? || !Ancestors(fs, dst) || (dst in fs && fs[dst].Dir?) {
        faults := faults + 1;
        return;
      }
      var refused := Refused();
      if refused {
        return;
      }
      ghost var m0 := fs;
      var data := fs[src].data;
      Create(dst);
      ghost var m1, logged := fs, log;
      ok := CopyBytes(dst, data, job);
      ghost var m2, relogged := fs, log;
      WithinThere(old(log), logged, relogged, m0, m1, m2, dst);
      FileWritten(m0, m1, m2, dst);
      if !ok && job {
        CleanUp(dst);
        FileRemoved(m0, m2, fs, dst);
        WithinThere(old(log), relogged, log, m0, m2, fs, dst);
      }
    }

    /** A cancelled copy removes what it wrote so far. */
    method CleanUp(dst: Path)
      requires Valid() && dst in fs && fs[dst].File?
      modifies `fs, `cancelled, `log, `faults, `chosen, `rwFaults
      ensures Valid() && OnlyRaised() && Within(old(log), log, old(fs), dst)
      ensures fs == old(fs) || fs == old(fs) - {dst}
      ensures old(cancelled) && dst in fs ==> rwFaults > old(rwFaults)
    {
      var c := Poll();
      if c {
        var gone := Unlink(dst);
        if !gone {
          rwFaults := rwFaults + 1;   // unlink counted the fault
        }
      }
    }

    /** open for writing: creates the file, or cuts it to nothing. */
    method Create(dst: Path)
      requires Valid() && Ancestors(fs, dst) && (dst in fs ==> fs[dst].File?)
      modifies `fs, `log
      ensures Valid() && OnlyUnder(old(fs), fs, dst) && fs == old(fs)[dst := File("")] && Within(old(log), log, old(fs), dst)
    {
      AddKeepsWellFormed(fs, dst, File(""));
      fs := fs[dst := File("")];
      log := log + [fs];
    }

    /** The read loop. */
    method CopyBytes(dst: Path, data: string, job: bool) returns (ok: bool)
      requires Valid() && dst in fs && fs[dst] == File("")
      modifies `fs, `log, `faults, `chosen, `rwFaults, `cancelled
      ensures Valid() && OnlyRaised() && Within(old(log), log, old(fs), dst)
      ensures exists x: string :: fs == old(fs)[dst := File(x)]
      ensures ok ==> fs == old(fs)[dst := File(data)]
      ensures !ok ==> rwFaults > old(rwFaults) || (job && cancelled)
      ensures Undisturbed(job) ==> ok && faults == old(faults)
      ensures job && old(cancelled) && data != "" ==> !ok && fs == old(fs)
    {
      hide WellFormed, Ancestors, Under, OnlyUnder, Within;
      NothingLogged(log, fs, dst);
      var off := 0;
      ok := true;
      var going := true;
      ghost var x := "";
      assert fs == fs[dst := File("")];
      while going
        invariant Valid() && OnlyRaised() && fs == old(fs)[dst := File(x)] && Within(old(log), log, old(fs), dst)
        invariant 0 <= off <= |data| && (ok ==> x == data[..off])
        invariant !ok ==> !going && (rwFaults > old(rwFaults) || (job && cancelled))
        invariant ok && !going ==> off == |data|
        invariant chosen == old(chosen) ==> faults == old(faults)
        invariant job && old(cancelled) && data != "" ==> off == 0 && fs == old(fs)
        decreases |data| - off, going
      {
        var refused := Refused();
        if refused {
          rwFaults, ok, going := rwFaults + 1, false, false;
        } else if off == |data| {
          going := false;
        } else {
          var nread :| 1 <= nread <= |data| - off && nread <= BUF_SIZE;
          if job {
            var c := Poll();
            if c {
              ok, going := false, false;
            }
          }
          if ok {
            ghost var before, logged := fs, log;
            ok := WriteNext(dst, data, off, nread);
            WithinSame(old(log), logged, log, old(fs), before, dst, File(x));
            going := ok;
            off := if ok then off + nread else off;
            x := fs[dst].data;
          }
        }
      }
      assert data[..|data|] == data;
    }

    method WriteNext(dst: Path, data: string, off: nat, n: nat) returns (ok: bool)
      requires off + n <= |data| && Valid() && dst in fs && fs[dst] == File(data[..off])
      modifies `fs, `log, `faults, `chosen, `rwFaults
      ensures Valid() && Within(old(log), log, old(fs), dst)
      ensures dst in fs && fs[dst].File? && fs == old(fs)[dst := fs[dst]]
      ensures ok ==> fs[dst] == File(data[..off + n]) && faults == old(faults) && rwFaults == old(rwFaults)
      ensures !ok ==> faults > old(faults) && rwFaults > old(rwFaults)
      ensures OnlyRaised() && (Undisturbed(false) ==> ok)
    {
      ok := WriteBlock(dst, data[off..off + n]);
      assert data[..off] + data[off..off + n] == data[..off + n];
    }

    // ---------- trees ----------

    /** copy_recursive_cb, and copy_recursive when `job` is false. */
    method CopyRecursive(src: Path, dst: Path, job: bool, ghost bound: nat) returns (ok: bool)
      requires Valid() && dst !in fs && (src in fs ==> !Under(src, dst)) && Bounded(fs, src, bound)
      modifies `fs, `cancelled, `filesDone, `shown, `log, `faults, `chosen, `rwFaults, `ends
      ensures Counting()
      ensures Valid() && OnlyRaised() && Within(old(log), log, old(fs), dst)
      ensures CopyResult(old(fs), fs, src, dst, ok, Skips(old(ends), ends), rwFaults == old(rwFaults))
      ensures ok ==> (Mirror(fs, src, dst) <==> ends == old(ends))
      ensures !ok ==> faults > old(faults) || (job && cancelled)
      ensures Counted(old(filesDone), filesDone, |Leaves(old(fs), src)|, job, Smooth())
      ensures Undisturbed(job) && src in old(fs) && Ancestors(old(fs), dst) ==> ok && faults == old(faults)
      ensures src !in old(fs) || (job && old(cancelled)) ==> !ok && fs == old(fs)
      decreases Room(bound, src), 1, 0
    {
      NothingRisen(shown, filesDone);
      hide Rising, MirrorExcept, Mirror, Skips;
      ok := false;
      NothingIsNotPartial(fs, src, dst);
      NoSkips(ends);
      if job {
        var c := Poll();
        if c {
          return;
        }
      }
      var st := Lstat(src);
      if st.None? {
        return;
      }
      FreshIsApart(fs, src, dst);
      if st.value.Dir? {
        ok := CopyDirectory(src, dst, job, bound);
      } else {
        LeafCountOfLeaf(fs, src);
        ok := CopyLeaf(src, dst, job);
      }
      if ok {
        ExactIffNoEarlyEnd(old(fs), fs, src, dst, old(ends), ends, rwFaults == old(rwFaults));
      }
    }

    method CopyLeaf(src: Path, dst: Path, job: bool) returns (ok: bool)
      requires Valid() && dst !in fs && Apart(src, dst) && src in fs && !fs[src].Dir?
      modifies `fs, `cancelled, `filesDone, `shown, `log, `faults, `chosen, `rwFaults
      ensures Counting()
      ensures Valid() && OnlyRaised() && Within(old(log), log, old(fs), dst)
      ensures CopyResult(old(fs), fs, src, dst, ok, {}, rwFaults == old(rwFaults))
      ensures !ok ==> faults > old(faults) || (job && cancelled)
      ensures old(filesDone) <= filesDone <= old(filesDone) + if job then 1 else 0
      ensures job && faults == old(faults) ==> filesDone == old(filesDone) + 1
      ensures Undisturbed(job) && Ancestors(old(fs), dst) ==> ok && faults == old(faults)
    {
      hide Rising;
      NothingRisen(shown, filesDone);
      assert src[|src|..] == "";
      if fs[src].Link? {
        var refused := Refused();
        if refused {
          NothingIsNotPartial(fs, src, dst);
          return false;
        }
        var target := fs[src].target;
        var n := if |target| < PATH_MAX then |target| else PATH_MAX - 1;
        var free := ResolveConflict(dst);
        assert target[..n] == target && free == dst;
        ok := Symlink(target[..n], free);
      } else {
        ok := CopyFile(src, dst, job);
      }
      if job {
        RisenOnce(shown, filesDone, 1);
        filesDone := filesDone + 1;
        shown := shown + [filesDone];
      }
      LeafOutcome(old(fs), fs, src, dst, ok, rwFaults == old(rwFaults));
    }

    method CopyDirectory(src: Path, dst: Path, job: bool, ghost bound: nat) returns (ok: bool)
      requires Valid() && dst !in fs && Apart(src, dst) && Bounded(fs, src, bound) && src in fs && fs[src].Dir?
      modifies `fs, `cancelled, `filesDone, `shown, `log, `faults, `chosen, `rwFaults, `ends
      ensures Counting()
      ensures Valid() && OnlyRaised() && Within(old(log), log, old(fs), dst)
      ensures CopyResult(old(fs), fs, src, dst, ok, Skips(old(ends), ends), rwFaults == old(rwFaults))
      ensures !ok ==> faults > old(faults) || (job && cancelled)
      ensures Counted(old(filesDone), filesDone, |Leaves(old(fs), src)|, job, Smooth())
      ensures Undisturbed(job) && Ancestors(old(fs), dst) ==> ok && faults == old(faults)
      decreases Room(bound, src), 0, 2
    {
      NothingRisen(shown, filesDone);
      hide Rising, MirrorExcept, Skips, LeafSum, Leaves, AtEntry, Bounded, NoPartial;
      ok := false;
      NothingIsNotPartial(fs, src, dst);
      NoSkips(ends);
      var made := Mkdir(dst);
      if !made {
        return;
      }
      var isOpen, names;
      ghost var missed;
      isOpen, names, missed := ListDir(src);
      ApartUnchanged(old(fs), fs, src, dst);
      SameEntries(old(fs), fs, src);
      if !isOpen {
        OnlyDirMade(old(fs), src, dst);
        return;
      }
      FirstEntry(old(fs), src, dst, names, missed);
      SkipsOfOneRead(old(ends), ends, src, missed);
      ghost var logged, ended := log, ends;
      ghost var n;
      ok, n := CopyEntries(old(fs), src, dst, names, Skips(old(ends), ended), job, bound);
      SkipsSplit(old(ends), ended, ends);
      LastEntry(old(fs), fs, src, dst, names, n, missed, Skips(old(ends), ends), ok, rwFaults == old(rwFaults));
      PrefixLeaves(old(fs), src, names, n);
      WithinAgain(old(log), logged, log, old(fs), dst);
      if missed == {} {
        NothingMissed(old(fs), src, names, missed);
      }
    }

    /** The readdir loop over the entries; `m0` is the file system before the directory was made. */
    method CopyEntries(ghost m0: Fs, src: Path, dst: Path, names: seq<string>, ghost lost0: set<Path>, job: bool, ghost bound: nat)
      returns (ok: bool, ghost n: nat)
      requires Valid() && WellFormed(m0) && Apart(src, dst) && Bounded(m0, src, bound)
      requires DistinctNames(names) && (forall x :: x in names ==> x in Entries(m0, src))
      requires AtEntry(m0, fs, src, dst, names, 0, lost0, true, true)
      modifies `fs, `cancelled, `filesDone, `shown, `log, `faults, `chosen, `rwFaults, `ends
      ensures Counting()
      ensures Valid() && OnlyRaised() && Within(old(log), log, m0, dst)
      ensures n <= |names| && AtEntry(m0, fs, src, dst, names, n, lost0 + Skips(old(ends), ends), ok, rwFaults == old(rwFaults))
      ensures n < |names| ==> !ok && cancelled
      ensures Counted(old(filesDone), filesDone, LeafSum(m0, src, names[..n]), job, Smooth())
      ensures Undisturbed(job) ==> ok && faults == old(faults)
      decreases Room(bound, src), 0, 1
    {
      hide Rising, AtEntry, WellFormed, Bounded, Apart, Skips, LeafSum, Leaves, Within, OnlyUnder, DistinctNames, Entries;
      NothingYet(m0, log, src, dst, names, ends, lost0);
      ok, n := true, 0;
      var i := 0;
      NothingRisen(shown, filesDone);
      while i < |names|
        invariant Counting()
        invariant n == i <= |names| && Valid() && OnlyRaised() && Within(old(log), log, m0, dst)
        invariant AtEntry(m0, fs, src, dst, names, i, lost0 + Skips(old(ends), ends), ok, rwFaults == old(rwFaults))
        invariant Counted(old(filesDone), filesDone, LeafSum(m0, src, names[..i]), job, Smooth())
        invariant Undisturbed(job) ==> ok && faults == old(faults)
      {
        if job {
          var c := Poll();
          if c {
            AtEntryFails(m0, fs, src, dst, names, i, lost0 + Skips(old(ends), ends), ok, rwFaults == old(rwFaults));
            ok := false;
            return;
          }
        }
        ghost var seen, before := shown, filesDone;
        var ok1 := CopyEntry(m0, src, dst, names, i, old(log), old(ends), lost0, ok, rwFaults == old(rwFaults), job, bound);
        RisingOn(old(shown), seen, shown, old(filesDone), before, filesDone);
        ok := ok && ok1;
        i := i + 1;
        n := i;
      }
    }

    /** One entry of a loop that started with the records `l0` and `e0`. */
    method CopyEntry(ghost m0: Fs, src: Path, dst: Path, names: seq<string>, i: nat, ghost l0: seq<Fs>, ghost e0: seq<set<Path>>,
                     ghost lost0: set<Path>, ghost allOk: bool, ghost clean: bool, job: bool, ghost bound: nat)
      returns (ok: bool)
      requires Valid() && WellFormed(m0) && Apart(src, dst) && Bounded(m0, src, bound)
      requires DistinctNames(names) && i < |names| && names[i] in Entries(m0, src)
      requires Within(l0, log, m0, dst) && e0 <= ends
      requires AtEntry(m0, fs, src, dst, names, i, lost0 + Skips(e0, ends), allOk, clean)
      modifies `fs, `cancelled, `filesDone, `shown, `log, `faults, `chosen, `rwFaults, `ends
      ensures Counting()
      ensures Valid() && OnlyRaised() && Within(l0, log, m0, dst)
      ensures AtEntry(m0, fs, src, dst, names, i + 1, lost0 + Skips(e0, ends), allOk && ok, clean && rwFaults == old(rwFaults))
      ensures Counted(old(filesDone), filesDone, LeafSum(m0, src, names[..i + 1]) - LeafSum(m0, src, names[..i]), job, Smooth())
      ensures Undisturbed(job) ==> ok && faults == old(faults)
      decreases Room(bound, src), 0, 0
    {
      hide Rising, Mirror, MirrorExcept, Skips, LeafSum, Leaves, NoPartial, LostElsewhere, Copied, WellFormed;
      NextLeaves(m0, fs, src, dst, names, i);
      BoundedEntry(m0, fs, src, dst, names[i], bound);
      EntryIsChild(m0, src, names[i]);
      ghost var lost := lost0 + Skips(e0, ends);
      NotYetThere(m0, fs, src, dst, names, i, lost, allOk, clean);
      EntryAncestors(fs, dst, names[i]);
      var free := ResolveConflict(Child(dst, names[i]));
      ok := CopyRecursive(Child(src, names[i]), free, job, bound);
      NextEntry(m0, old(fs), fs, src, dst, names, i, lost, Skips(old(ends), ends), allOk, ok, clean, clean && rwFaults == old(rwFaults));
      SkipsSplit(e0, old(ends), ends);
      assert lost + Skips(old(ends), ends) == lost0 + Skips(e0, ends);
      UnderChild(dst, names[i]);
      WithinRebased(old(log), log, m0, old(fs), dst, Child(dst, names[i]));
      WithinAgain(l0, old(log), log, m0, dst);
    }

    /** fileops_copy_progress, and fileops_copy when `job` is false: nothing that existed is touched. */
    method CopyTo(src: Path, dst: Path, job: bool) returns (ok: bool)
      requires Valid() && Resolved(fs, dst) !in fs
      requires src in fs ==> !Under(src, Resolved(fs, dst))
      modifies `fs, `cancelled, `filesDone, `shown, `log, `faults, `chosen, `rwFaults, `ends
      ensures Counting()
      ensures Valid() && OnlyRaised() && Resolved(old(fs), dst) !in old(fs)
      ensures Within(old(log), log, old(fs), Resolved(old(fs), dst))
      ensures CopyResult(old(fs), fs, src, Resolved(old(fs), dst), ok, Skips(old(ends), ends), rwFaults == old(rwFaults))
      ensures ok ==> (Mirror(fs, src, Resolved(old(fs), dst)) <==> ends == old(ends))
      ensures forall i :: |old(log)| <= i < |log| ==> Keeps(old(fs), log[i])
      ensures Keeps(old(fs), fs)
      ensures !ok ==> faults > old(faults) || (job && cancelled)
      ensures Counted(old(filesDone), filesDone, |Leaves(old(fs), src)|, job, Smooth())
      ensures Undisturbed(job) && src in old(fs) && Ancestors(old(fs), dst) ==> ok && faults == old(faults)
      ensures src !in old(fs) || !Ancestors(old(fs), dst) || (job && old(cancelled)) ==> !ok && fs == old(fs)
    {
      hide Rising;
      var free := ResolveConflict(dst);
      SameWay(fs, dst);
      ok := CopyRecursive(src, free, job, Longest(fs));
      if src in old(fs) {
        FreshIsApart(old(fs), src, free);
        CopyHadWay(old(fs), fs, src, free, ok, Skips(old(ends), ends), rwFaults == old(rwFaults));
      }
      FreshKeeps(old(fs), fs, free);
      forall i | |old(log)| <= i < |log|
        ensures Keeps(old(fs), log[i])
      {
        FreshKeeps(old(fs), log[i], free);
      }
    }

    // ---------- counting ----------

    method CountFiles(p: Path, ghost bound: nat) returns (n: nat)
      requires Valid() && Bounded(fs, p, bound)
      modifies `faults, `chosen, `ends
      ensures Valid() && OnlyRaised()
      ensures n <= |Leaves(fs, p)| && (faults == old(faults) ==> n == |Leaves(fs, p)| && p in fs)
      ensures Undisturbed(false) && p in fs ==> faults == old(faults)
      decreases Room(bound, p), 1
    {
      n := 0;
      var st := Lstat(p);
      if st.None? {
        return;
      }
      if !st.value.Dir? {
        LeafCountOfLeaf(fs, p);
        return 1;
      }
      var isOpen, names;
      ghost var missed;
      isOpen, names, missed := ListDir(p);
      if !isOpen {
        return;
      }
      n := CountEntries(p, names, bound);
      PrefixLeaves(fs, p, names, |names|);
      assert names[..|names|] == names;
      if missed == {} {
        NothingMissed(fs, p, names, missed);
      }
    }

    method CountEntries(p: Path, names: seq<string>, ghost bound: nat) returns (n: nat)
      requires Valid() && Bounded(fs, p, bound) && forall x :: x in names ==> x in Entries(fs, p)
      modifies `faults, `chosen, `ends
      ensures Valid() && OnlyRaised()
      ensures n <= LeafSum(fs, p, names) && (faults == old(faults) ==> n == LeafSum(fs, p, names))
      ensures Undisturbed(false) ==> faults == old(faults)
      decreases Room(bound, p), 0
    {
      hide WellFormed, Leaves, Bounded, Ancestors, Under;
      n := 0;
      var i := 0;
      while i < |names|
        invariant i <= |names| && Valid() && OnlyRaised()
        invariant n <= LeafSum(fs, p, names[..i]) && (faults == old(faults) ==> n == LeafSum(fs, p, names[..i]))
        invariant Undisturbed(false) ==> faults == old(faults)
      {
        EntryBound(fs, p, names[i], bound);
        EntryIsChild(fs, p, names[i]);
        var k := CountFiles(Child(p, names[i]), bound);
        n := n + k;
        assert names[..i + 1][..i] == names[..i];
        i := i + 1;
      }
      assert names[..i] == names;
    }

    // ---------- delete ----------

    /** delete_recursive_cb, and delete_recursive when `job` is false. */
    method DeleteRecursive(p: Path, job: bool, ghost bound: nat) returns (ok: bool)
      requires Valid() && Bounded(fs, p, bound)
      modifies `fs, `cancelled, `filesDone, `shown, `log, `faults, `chosen, `rwFaults, `ends
      ensures Counting()
      ensures Valid() && OnlyRaised() && OnlyUnder(old(fs), fs, p) && Within(old(log), log, old(fs), p)
      ensures Shrinks(old(fs), fs)
      ensures ok ==> p !in fs
      ensures !ok ==> faults > old(faults) || (job && cancelled)
      ensures Counted(old(filesDone), filesDone, |Leaves(old(fs), p)|, job, Smooth())
      ensures Undisturbed(job) && p in old(fs) ==> ok && faults == old(faults)
      ensures job && old(cancelled) ==> !ok && fs == old(fs)
      decreases Room(bound, p), 1
    {
      hide Rising;
      NothingRisen(shown, filesDone);
      ok := false;
      if job {
        var c := Poll();
        if c {
          return;
        }
      }
      var st := Lstat(p);
      if st.None? {
        return;
      }
      if st.value.Dir? {
        ok := DeleteDirectory(p, job, bound);
      } else {
        ok := DeleteLeaf(p, job);
      }
    }

    method DeleteLeaf(p: Path, job: bool) returns (ok: bool)
      requires Valid() && p in fs && !fs[p].Dir?
      modifies `fs, `filesDone, `shown, `log, `faults, `chosen
      ensures Valid() && Counting() && OnlyUnder(old(fs), fs, p) && Within(old(log), log, old(fs), p)
      ensures OnlyRaised() && Shrinks(old(fs), fs)
      ensures if ok then p !in fs else faults > old(faults)
      ensures Undisturbed(false) ==> ok && faults == old(faults)
      ensures Counted(old(filesDone), filesDone, |Leaves(old(fs), p)|, job, faults == old(faults))
    {
      hide Rising;
      NothingRisen(shown, filesDone);
      LeafCountOfLeaf(fs, p);
      ok := Unlink(p);
      if job {
        RisenOnce(shown, filesDone, 1);
        filesDone := filesDone + 1;
        shown := shown + [filesDone];
      }
    }

    method DeleteDirectory(p: Path, job: bool, ghost bound: nat) returns (ok: bool)
      requires Valid() && Bounded(fs, p, bound) && p in fs && fs[p].Dir?
      modifies `fs, `cancelled, `filesDone, `shown, `log, `faults, `chosen, `rwFaults, `ends
      ensures Counting()
      ensures Valid() && OnlyRaised() && OnlyUnder(old(fs), fs, p) && Within(old(log), log, old(fs), p)
      ensures Shrinks(old(fs), fs)
      ensures ok ==> p !in fs
      ensures !ok ==> faults > old(faults) || (job && cancelled)
      ensures Counted(old(filesDone), filesDone, |Leaves(old(fs), p)|, job, Smooth())
      ensures Undisturbed(job) ==> ok && faults == old(faults)
      decreases Room(bound, p), 0, 2
    {
      NothingRisen(shown, filesDone);
      hide Rising, LeafSum, Leaves, Bounded;
      var isOpen, names;
      ghost var missed;
      isOpen, names, missed := ListDir(p);
      if !isOpen {
        return false;
      }
      ghost var n;
      ok, n := DeleteEntries(p, names, job, bound);
      PrefixLeaves(old(fs), p, names, n);
      if missed == {} {
        NothingMissed(old(fs), p, names, missed);
      }
      ghost var before, logged := fs, log;
      if ok && missed == {} {
        Emptied(old(fs), fs, p, names);
      }
      var gone := Rmdir(p);
      assert p[|p|..] == "";
      WithinRebased(logged, log, old(fs), before, p, p);
      WithinAgain(old(log), logged, log, old(fs), p);
      OnlyUnderTransitive(old(fs), before, fs, p, p);
      ok := ok && gone;
    }

    method DeleteEntries(p: Path, names: seq<string>, job: bool, ghost bound: nat) returns (ok: bool, ghost n: nat)
      requires Valid() && Bounded(fs, p, bound) && DistinctNames(names)
      requires forall x :: x in names ==> x in Entries(fs, p)
      modifies `fs, `cancelled, `filesDone, `shown, `log, `faults, `chosen, `rwFaults, `ends
      ensures Counting()
      ensures Valid() && OnlyRaised() && OnlyUnder(old(fs), fs, p) && Within(old(log), log, old(fs), p)
      ensures Shrinks(old(fs), fs) && n <= |names| && Get(fs, p) == Get(old(fs), p)
      ensures n < |names| ==> !ok && job && cancelled
      ensures Counted(old(filesDone), filesDone, LeafSum(old(fs), p, names[..n]), job, Smooth())
      ensures ok ==> forall j :: 0 <= j < |names| ==> Child(p, names[j]) !in fs
      ensures Undisturbed(job) ==> ok && faults == old(faults)
      decreases Room(bound, p), 0, 1
    {
      hide Rising, OnlyUnder, WellFormed, Untouched, Bounded, LeafSum, Leaves, Within, DistinctNames, Entries;
      UntouchedYet(fs, p, names);
      NothingYet(fs, log, p, p, names, ends, {});
      ok, n := true, 0;
      var i := 0;
      NothingRisen(shown, filesDone);
      while i < |names|
        invariant Counting()
        invariant n == i <= |names| && Valid() && OnlyRaised()
        invariant OnlyUnder(old(fs), fs, p) && Within(old(log), log, old(fs), p) && Shrinks(old(fs), fs)
        invariant Untouched(old(fs), fs, p, names, i)
        invariant Counted(old(filesDone), filesDone, LeafSum(old(fs), p, names[..i]), job, Smooth())
        invariant Get(fs, p) == Get(old(fs), p)
        invariant ok ==> forall j :: 0 <= j < i ==> Child(p, names[j]) !in fs
        invariant Undisturbed(job) ==> ok && faults == old(faults)
      {
        if job {
          var c := Poll();
          if c {
            return false, i;
          }
        }
        ghost var logged := log;
        ghost var seen, before := shown, filesDone;
        var ok1 := DeleteEntry(old(fs), p, names, i, job, bound);
        RisingOn(old(shown), seen, shown, old(filesDone), before, filesDone);
        WithinAgain(old(log), logged, log, old(fs), p);
        ok := ok && ok1;
        i := i + 1;
        n := i;
      }
    }

    method DeleteEntry(ghost m0: Fs, p: Path, names: seq<string>, i: nat, job: bool, ghost bound: nat) returns (ok: bool)
      requires Valid() && Bounded(m0, p, bound) && DistinctNames(names) && i < |names|
      requires forall x :: x in names ==> x in Entries(m0, p)
      requires OnlyUnder(m0, fs, p) && Shrinks(m0, fs) && Untouched(m0, fs, p, names, i)
      modifies `fs, `cancelled, `filesDone, `shown, `log, `faults, `chosen, `rwFaults, `ends
      ensures Counting()
      ensures Valid() && OnlyRaised() && Within(old(log), log, m0, p)
      ensures OnlyUnder(m0, fs, p) && Shrinks(m0, fs) && Shrinks(old(fs), fs) && Untouched(m0, fs, p, names, i + 1)
      ensures Get(fs, p) == Get(old(fs), p) && (ok ==> Child(p, names[i]) !in fs)
      ensures Undisturbed(job) ==> ok && faults == old(faults)
      ensures Counted(old(filesDone), filesDone, LeafSum(m0, p, names[..i + 1]) - LeafSum(m0, p, names[..i]),
                      job, Smooth())
      decreases Room(bound, p), 0, 0
    {
      hide Rising, Untouched, WellFormed, Leaves, OnlyUnder, Bounded, Under;
      UntouchedEntry(m0, fs, p, names, i, bound);
      ok := DeleteRecursive(Child(p, names[i]), job, bound);
      UnderChild(p, names[i]);
      AboveEntry(old(fs), fs, p, names[i]);
      UntouchedNext(m0, old(fs), fs, p, names, i);
      WithinRebased(old(log), log, m0, old(fs), p, Child(p, names[i]));
      OnlyUnderTransitive(m0, old(fs), fs, p, Child(p, names[i]));
      assert names[..i + 1][..i] == names[..i];
    }

    // ---------- move ----------

    /** rename(2); `across` tells whether the two places are on different file systems. */
    method DoRename(a: Path, b: Path, across: bool) returns (r: RenameResult)
      requires Valid()
      modifies `fs, `log, `faults, `chosen
      ensures Valid()
      ensures r.Moved? ==> MayRename(old(fs), a, b) && fs == Renamed(old(fs), a, b) && log == old(log) + [fs] && faults == old(faults)
      ensures !r.Moved? ==> fs == old(fs) && log == old(log)
      ensures r.CrossDevice? ==> a in fs && faults == old(faults)
      ensures r.Failed? ==> faults > old(faults)
      ensures (r.Moved? ==> !across) && (r.CrossDevice? ==> across)
      ensures OnlyRaised() && (Undisturbed(false) ==> r == if across && a in old(fs) then CrossDevice else if !across && MayRename(old(fs), a, b) then Moved else Failed)
    {
      if !across && a in fs && !Under(a, b) && Ancestors(fs, b) && (b !in fs || (fs[a].Dir? == fs[b].Dir? && Entries(fs, b) == {})) {
        var refused := Refused();
        if refused {
          return Failed;
        }
        RenamedWellFormed(fs, a, b);
        fs := Renamed(fs, a, b);
        log := log + [fs];
        return Moved;
      }
      if across && a in fs {
        var refused := Refused();
        return if refused then Failed else CrossDevice;
      }
      faults := faults + 1;
      r := Failed;
    }

    /** One item of exec_move. `d` is where the item went, `lost` what the copy's directory reads skipped. */
    method MoveOne(src: Path, dir: Path, across: bool) returns (ok: bool, ghost d: Path, ghost lost: set<Path>)
      requires Valid() && !Under(src, dir) && (across ==> Resolved(fs, Target(src, dir)) !in fs)
      modifies `fs, `cancelled, `filesDone, `shown, `log, `faults, `chosen, `rwFaults, `ends
      ensures Counting()
      ensures Valid() && OnlyRaised()
      ensures AllSurvive(old(log), log, old(fs), src, d, lost) && AllElsewhere(old(log), log, old(fs), src, d)
      ensures Explained(old(fs), src, lost, old(ends), ends)
      ensures ends == old(ends) ==> AllSurvive(old(log), log, old(fs), src, d, {})
      ensures MoveResult(old(fs), fs, src, dir, d, lost, ok)
      ensures !ok ==> faults > old(faults) || cancelled
      ensures faults == old(faults) && ok && src != Target(src, dir) ==> src !in fs
      ensures Undisturbed(across) ==> fs == SentItem(old(fs), src, dir, across) && (ok <==> Goes(old(fs), src, dir, across))
      ensures Undisturbed(across) && ok && src in old(fs) ==> faults == old(faults)
      ensures across || d == src || d == Target(src, dir)
      ensures rwFaults == old(rwFaults) ==> Whole(old(fs), fs, src, d)
      ensures Counted(old(filesDone), filesDone, |Leaves(old(fs), src)|, true, Smooth())
    {
      NothingRisen(shown, filesDone);
      hide Rising, AllSurvive, AllElsewhere, Survives, MoveResult, Explained, Whole, WellFormed, Renamed, Resolved, MayRename, Leaves, Under, Target;
      lost := {};
      var dest := Target(src, dir);
      d := dest;
      if src == dest {
        StaysInPlace(fs, log, src, dir, ends);
        AddCount(src);
        return true, dest, {};
      }
      var r := TryRename(src, dir, across);
      match r {
        case Moved =>
          AddCount(dest);
          NothingToExplain(old(fs), src, old(ends), ends);
          return true, dest, {};
        case CrossDevice =>
          ok, d, lost := MoveAcross(src, dir);
          if ends == old(ends) {
            NothingLeftOut(old(fs), src, lost, ends);
          }
        case Failed =>
          NotMoved(fs, log, src, dir, ends);
          return false, src, {};
      }
    }

    method TryRename(src: Path, dir: Path, across: bool) returns (r: RenameResult)
      requires Valid()
      modifies `fs, `log, `faults, `chosen
      ensures Valid() && OnlyRaised() && (r.CrossDevice? ==> across)
      ensures var d := Target(src, dir); r.Moved? ==>
        && AllSurvive(old(log), log, old(fs), src, d, {}) && AllElsewhere(old(log), log, old(fs), src, d)
        && MoveResult(old(fs), fs, src, dir, d, {}, true)
        && src !in fs && d in fs && Whole(old(fs), fs, src, d) && |Leaves(fs, d)| == |Leaves(old(fs), src)| && fs == MovedItem(old(fs), src, dir)
      ensures !r.Moved? ==> fs == old(fs) && log == old(log)
      ensures r.CrossDevice? ==> src in fs && faults == old(faults)
      ensures r.Failed? ==> faults > old(faults)
      ensures r.Moved? ==> faults == old(faults) && src in old(fs) && MayRename(old(fs), src, Target(src, dir)) && !across
      ensures Undisturbed(false) && r.Failed? ==> if across then src !in old(fs) else !MayRename(old(fs), src, Target(src, dir))
    {
      hide MayRename, Renamed, MoveResult, AllSurvive, AllElsewhere, WellFormed, MovedItem, Leaves, Target;
      r := DoRename(src, Target(src, dir), across);
      if r.Moved? {
        RenamedOutcome(old(fs), old(log), src, dir);
      }
    }

    /** Counts an item that is where it should be as done. */
    method AddCount(p: Path)
      requires Valid()
      modifies `faults, `chosen, `ends, `filesDone, `shown
      ensures Counting()
      ensures Valid() && OnlyRaised()
      ensures Counted(old(filesDone), filesDone, |Leaves(fs, p)|, true, faults == old(faults))
      ensures Undisturbed(false) && p in fs ==> faults == old(faults)
    {
      hide Rising;
      var n := CountFiles(p, Longest(fs));
      RisenOnce(shown, filesDone, n);
      filesDone := filesDone + n;
      shown := shown + [filesDone];
    }

    /** The cross-device branch: copy, then delete the original only if the copy reported success. */
    method MoveAcross(src: Path, dir: Path) returns (ok: bool, ghost d: Path, ghost lost: set<Path>)
      requires Valid() && !Under(src, dir) && src in fs && src != Target(src, dir)
      requires Resolved(fs, Target(src, dir)) !in fs
      modifies `fs, `cancelled, `filesDone, `shown, `log, `faults, `chosen, `rwFaults, `ends
      ensures Counting()
      ensures Valid() && OnlyRaised()
      ensures AllSurvive(old(log), log, old(fs), src, d, lost) && AllElsewhere(old(log), log, old(fs), src, d)
      ensures Explained(old(fs), src, lost, old(ends), ends)
      ensures MoveResult(old(fs), fs, src, dir, d, lost, ok)
      ensures !ok ==> faults > old(faults) || cancelled
      ensures faults == old(faults) && ok ==> src !in fs
      ensures rwFaults == old(rwFaults) ==> Whole(old(fs), fs, src, d)
      ensures Counted(old(filesDone), filesDone, |Leaves(old(fs), src)|, true, Smooth())
      ensures Undisturbed(true) ==> fs == SentItem(old(fs), src, dir, true) && (ok <==> Ancestors(old(fs), Target(src, dir)))
      ensures Undisturbed(true) && ok ==> faults == old(faults)
    {
      hide Rising, MirrorExcept, NoPartial, Mirror, Skips, Survives, Arrived, Whole, AllSurvive, AllElsewhere, Elsewhere, Leaves,
        MoveResult, Keeps, SentItem, Resolved, WellFormed, Ancestors, Under, OnlyUnder, Slashless, DirLen;
      var base := src[DirLen(src)..];
      ghost var n1 := FreeEntry(fs, dir, base);
      d := Child(dir, n1);
      SourceApart(fs, src, dir, n1);
      ok := CopyTo(src, Child(dir, base), true);
      lost := Skips(old(ends), ends);
      ghost var copied, logged, ended := fs, log, ends;
      CopyLogged(old(fs), copied, old(log), logged, src, d, lost);
      ghost var clean := rwFaults == old(rwFaults);
      if clean {
        CopyIsWhole(old(fs), copied, src, d, ok, lost);
      }
      if ok {
        ghost var seen, before := shown, filesDone;
        SameSubtreeFacts(old(fs), copied, src);
        var _ := DeleteRecursive(src, false, Longest(fs));
        RisingOn(old(shown), seen, shown, old(filesDone), before, filesDone);
        DeleteLogged(old(fs), copied, fs, old(log), logged, log, src, d, lost);
        SkipsSplit(old(ends), ended, ends);
        if clean {
          WholeAfterDelete(old(fs), copied, fs, src, d);
        }
      }
      AcrossOutcome(old(fs), copied, fs, src, dir, d, lost, ok);
      if Undisturbed(true) {
        AcrossSent(old(fs), copied, fs, src, dir, d);
      }
    }

    // ---------- jobs ----------

    /** The counting pass every job starts with. */
    method CountAll(srcs: seq<Path>) returns (total: nat)
      requires Valid()
      modifies `faults, `chosen, `ends
      ensures Valid() && OnlyRaised()
      ensures total <= LeafTotal(fs, srcs)
      ensures faults == old(faults) ==> total == LeafTotal(fs, srcs) && Present(fs, srcs, |srcs|)
      ensures Undisturbed(false) && Present(fs, srcs, |srcs|) ==> faults == old(faults)
    {
      assert LeafTotal(fs, srcs[..0]) == 0;
      hide LeafTotal, Leaves, WellFormed, Under, Present;
      PresentNext(fs, srcs, 0);
      total := 0;
      var i := 0;
      while i < |srcs|
        invariant i <= |srcs| && Valid() && OnlyRaised()
        invariant total <= LeafTotal(fs, srcs[..i])
        invariant faults == old(faults) ==> total == LeafTotal(fs, srcs[..i]) && Present(fs, srcs, i)
        invariant Undisturbed(false) && Present(fs, srcs, |srcs|) ==> faults == old(faults)
      {
        var n := CountFiles(srcs[i], Longest(fs));
        total := total + n;
        LeafTotalNext(fs, srcs, i);
        PresentNext(fs, srcs, i);
        i := i + 1;
      }
      assert srcs[..i] == srcs;
    }

    /** exec_copy: nothing that existed is touched, and the progress counter stays in step. `failed` says that some
        copy failed and `oks` which did not, `ds` are the places of the copies, `losts` what their directory reads left out. */
    method ExecCopy(srcs: seq<Path>, dir: Path)
      returns (failed: bool, ghost ds: seq<Path>, ghost losts: seq<set<Path>>, ghost oks: seq<bool>)
      requires Valid() && filesDone == 0 && forall i :: 0 <= i < |srcs| ==> !Under(srcs[i], dir)
      requires RoomFor(fs, srcs, All(|srcs|), dir, 0)
      modifies this
      ensures Counting()
      ensures Valid() && OnlyRaised()
      ensures AllFound(old(fs), srcs, dir) && rwFaults == old(rwFaults) ==> AllWhole(old(fs), fs, srcs, dir)
      ensures AllCopyFrame(old(log), log, old(fs), srcs, dir) && CopyFrame(old(fs), fs, srcs, dir)
      ensures failed ==> faults > old(faults) || cancelled
      ensures (failed <==> false in oks) && (!cancelled ==> |oks| == |srcs|)
      ensures AllFound(old(fs), srcs, dir) ==>
        Copies(old(fs), fs, srcs, dir, ds, losts, oks) && AllExplained(old(fs), srcs, losts, old(ends), ends)
      ensures Smooth() ==> !failed && AllFound(old(fs), srcs, dir) && forall j :: 0 <= j < |losts| ==> losts[j] == {}
      ensures 0 <= filesDone && filesTotal <= LeafTotal(old(fs), srcs)
      ensures AllFound(old(fs), srcs, dir) ==> filesDone <= LeafTotal(old(fs), srcs)
      ensures old(faults) <= counted <= faults
      ensures counted == old(faults) ==> filesTotal == LeafTotal(old(fs), srcs) && AllFound(old(fs), srcs, dir) && filesDone <= filesTotal
      ensures Smooth() ==> filesDone == filesTotal
      ensures Undisturbed(true) && Present(old(fs), srcs, |srcs|) && dir in old(fs) && old(fs)[dir].Dir? ==> !failed && faults == old(faults)
      ensures Undisturbed(true) && dir in old(fs) && old(fs)[dir].Dir? ==> forall j :: 0 <= j < |oks| && srcs[j] in old(fs) ==> oks[j]
      ensures old(cancelled) ==> fs == old(fs)
    {
      hide Rising, CopyTally, Intact, RoomFor, Under, AllCopyFrame, CopyFrame, CopiesSoFar, AllFound, Present, LeafTotal, WellFormed, Copies, AllExplained, AllWhole, All;
      ghost var m0 := fs;
      var total := CountAll(srcs);
      filesTotal, counted := total, faults;
      ghost var c0 := faults;
      CopyStarts(fs, log, srcs, dir, old(ends), ends);
      if faults == old(faults) {
        PresentFound(fs, srcs, dir);
      }
      failed, ds, losts, oks := false, [], [], [];
      var i := 0;
      NothingRisen(shown, filesDone);
      while i < |srcs|
        invariant Counting()
        invariant i <= |srcs| && Valid() && OnlyRaised() && m0 == old(fs) && |ds| == i == |losts| == |oks|
        invariant AllCopyFrame(old(log), log, m0, srcs, dir) && CopyFrame(m0, fs, srcs, dir)
        invariant filesTotal == total && counted == c0 <= faults
        invariant RoomFor(fs, srcs, All(|srcs|), dir, i)
        invariant 0 <= filesDone && (failed ==> faults > old(faults) || cancelled)
        invariant (failed <==> false in oks) && CopiesSoFar(m0, fs, srcs, dir, ds, losts, oks, old(ends), ends)
        invariant Undisturbed(true) && dir in m0 && m0[dir].Dir? ==> forall j :: 0 <= j < i && srcs[j] in m0 ==> oks[j]
        invariant CopyTally(m0, fs, srcs, dir, i, filesDone, Smooth(), rwFaults == old(rwFaults))
        invariant Undisturbed(true) && Present(m0, srcs, |srcs|) && dir in m0 && m0[dir].Dir? ==> !failed && faults == old(faults)
        invariant old(cancelled) ==> fs == m0
      {
        var c := Poll();
        if c {
          CopyTallyAnyway(m0, fs, srcs, dir, i, filesDone, rwFaults == old(rwFaults));
          break;
        }
        var ok;
        ghost var d, lost;
        PresentAt(m0, srcs, i);
        ok, d, lost := CopySource(old(shown), old(filesDone), m0, srcs, i, dir, old(log), old(ends), ds, losts, oks, Smooth(), rwFaults == old(rwFaults));
        failed, ds, losts, oks := failed || !ok, ds + [d], losts + [lost], oks + [ok];
        i := i + 1;
      }
      CopyTallyEnds(m0, fs, srcs, dir, i, filesDone, Smooth(), rwFaults == old(rwFaults));
      CopyEnds(m0, fs, srcs, dir, ds, losts, oks, old(ends), ends);
    }

    /** One source of a copy job that started at `m0`, with the records `l0` and `e0`. */
    method CopySource(ghost s0: seq<int>, ghost d0: int, ghost m0: Fs, srcs: seq<Path>, i: nat, dir: Path, ghost l0: seq<Fs>, ghost e0: seq<set<Path>>,
                      ghost ds: seq<Path>, ghost losts: seq<set<Path>>, ghost oks: seq<bool>, ghost smooth: bool, ghost clean: bool)
      returns (ok: bool, ghost d: Path, ghost lost: set<Path>)
      requires Rising(s0, shown, d0, filesDone)
      requires Valid() && i < |srcs| && !Under(srcs[i], dir) && RoomFor(fs, srcs, All(|srcs|), dir, i)
      requires CopyTally(m0, fs, srcs, dir, i, filesDone, smooth, clean)
      requires AllCopyFrame(l0, log, m0, srcs, dir) && CopyFrame(m0, fs, srcs, dir)
      requires |ds| == i == |losts| && e0 <= ends && CopiesSoFar(m0, fs, srcs, dir, ds, losts, oks, e0, ends)
      modifies `fs, `cancelled, `filesDone, `shown, `log, `faults, `chosen, `rwFaults, `ends
      ensures Rising(s0, shown, d0, filesDone)
      ensures Valid() && OnlyRaised() && filesDone >= old(filesDone) && RoomFor(fs, srcs, All(|srcs|), dir, i + 1)
      ensures CopyTally(m0, fs, srcs, dir, i + 1, filesDone, smooth && Smooth(), clean && rwFaults == old(rwFaults))
      ensures AllCopyFrame(l0, log, m0, srcs, dir) && CopyFrame(m0, fs, srcs, dir)
      ensures CopiesSoFar(m0, fs, srcs, dir, ds + [d], losts + [lost], oks + [ok], e0, ends)
      ensures !ok ==> faults > old(faults) || cancelled
      ensures Undisturbed(true) && srcs[i] in m0 && dir in m0 && m0[dir].Dir? ==> ok && faults == old(faults)
    {
      hide Rising, Mirror, RoomFor, Intact, AllCopyFrame, CopyFrame, CopiesSoFar, AllFound, Under, LeafTotal, Leaves, CopyResult, Taken, Resolved, AllWhole;
      var src := srcs[i];
      RoomNow(fs, srcs, All(|srcs|), dir, i);
      d := Resolved(fs, Target(src, dir));
      PlaceForCopy(m0, fs, srcs, dir, i);
      if src in m0 && dir in m0 && m0[dir].Dir? {
        ReadyToCopy(m0, fs, srcs, dir, i);
      }
      ok := CopyTo(src, Target(src, dir), true);
      RisingOn(s0, old(shown), shown, d0, old(filesDone), filesDone);
      lost := Skips(old(ends), ends);
      CopyTallyNext(m0, old(fs), fs, srcs, dir, i, d, ok, lost, old(filesDone), filesDone, smooth, Smooth(),
                    clean, rwFaults == old(rwFaults));
      CopyDone(m0, old(fs), fs, l0, old(log), log, srcs, dir, i, d, ok, rwFaults == old(rwFaults), old(ends), ends);
      CopySoFarNext(m0, old(fs), fs, srcs, dir, ds, losts, oks, d, ok, rwFaults == old(rwFaults), e0, old(ends), ends);
    }

    /** exec_delete: only the sources are touched, and without failures they are all gone. */
    method ExecDelete(srcs: seq<Path>) returns (failed: bool)
      requires Valid() && filesDone == 0
      modifies this
      ensures Counting()
      ensures Valid() && OnlyRaised() && Shrinks(old(fs), fs)
      ensures AllDeleteFrame(old(log), log, old(fs), srcs) && DeleteFrame(old(fs), fs, srcs)
      ensures failed ==> faults > old(faults) || cancelled
      ensures !failed && !cancelled ==> forall j :: 0 <= j < |srcs| ==> srcs[j] !in fs
      ensures 0 <= filesDone <= LeafTotal(old(fs), srcs) && filesTotal <= LeafTotal(old(fs), srcs)
      ensures old(faults) <= counted <= faults
      ensures counted == old(faults) ==> filesTotal == LeafTotal(old(fs), srcs) && filesDone <= filesTotal
      ensures Smooth() && PairwiseApart(srcs) ==> filesDone == filesTotal
      ensures Undisturbed(true) && Present(old(fs), srcs, |srcs|) && PairwiseApart(srcs) ==> !failed && faults == old(faults)
      ensures Undisturbed(true) ==> forall j :: 0 <= j < |srcs| ==> srcs[j] !in fs
      ensures old(cancelled) ==> fs == old(fs)
    {
      hide Rising, Intact, PairwiseApart, AllDeleteFrame, DeleteFrame, LeafTotal, WellFormed;
      var total := CountAll(srcs);
      filesTotal, counted := total, faults;
      ghost var c0 := faults;
      DeleteStarts(fs, log, srcs);
      failed := false;
      var i := 0;
      NothingRisen(shown, filesDone);
      while i < |srcs|
        invariant Counting()
        invariant i <= |srcs| && Valid() && OnlyRaised() && Shrinks(old(fs), fs)
        invariant AllDeleteFrame(old(log), log, old(fs), srcs) && DeleteFrame(old(fs), fs, srcs)
        invariant failed ==> faults > old(faults) || cancelled
        invariant !failed || Undisturbed(true) ==> forall j :: 0 <= j < i ==> srcs[j] !in fs
        invariant filesTotal == total && counted == c0 <= faults
        invariant PairwiseApart(srcs) ==> Intact(old(fs), fs, srcs, i)
        invariant Counted(0, filesDone, LeafTotal(old(fs), srcs[..i]), true, Smooth() && PairwiseApart(srcs))
        invariant Undisturbed(true) && Present(old(fs), srcs, |srcs|) && PairwiseApart(srcs) ==> !failed && faults == old(faults)
        invariant old(cancelled) ==> fs == old(fs)
      {
        var c := Poll();
        if c {
          break;
        }
        ghost var seen, before := shown, filesDone;
        var ok := DeleteSource(old(fs), srcs, i, old(log));
        RisingOn(old(shown), seen, shown, old(filesDone), before, filesDone);
        failed := failed || !ok;
        i := i + 1;
      }
      LeafTotalPrefix(old(fs), srcs, i);
      assert srcs[..|srcs|] == srcs;
    }

    method DeleteSource(ghost m0: Fs, srcs: seq<Path>, i: nat, ghost l0: seq<Fs>) returns (ok: bool)
      requires Valid() && i < |srcs| && Shrinks(m0, fs)
      requires AllDeleteFrame(l0, log, m0, srcs) && DeleteFrame(m0, fs, srcs)
      requires PairwiseApart(srcs) ==> Intact(m0, fs, srcs, i)
      modifies `fs, `cancelled, `filesDone, `shown, `log, `faults, `chosen, `rwFaults, `ends
      ensures Counting()
      ensures Valid() && OnlyRaised() && Shrinks(m0, fs) && Shrinks(old(fs), fs)
      ensures AllDeleteFrame(l0, log, m0, srcs) && DeleteFrame(m0, fs, srcs)
      ensures if ok then srcs[i] !in fs else faults > old(faults) || cancelled
      ensures Undisturbed(true) ==> srcs[i] !in fs
      ensures PairwiseApart(srcs) ==> Intact(m0, fs, srcs, i + 1)
      ensures Counted(old(filesDone), filesDone, LeafTotal(m0, srcs[..i + 1]) - LeafTotal(m0, srcs[..i]), true,
                      Smooth() && PairwiseApart(srcs))
      ensures Undisturbed(true) && Present(m0, srcs, |srcs|) && PairwiseApart(srcs) ==> ok && faults == old(faults)
    {
      hide Rising, AllDeleteFrame, DeleteFrame, LeafTotal, Intact, PairwiseApart;
      ShrunkLeaves(m0, fs, srcs[i]);
      IntactLeaves(m0, fs, srcs, i);
      LeafTotalNext(m0, srcs, i);
      ok := DeleteRecursive(srcs[i], true, Longest(fs));
      DeleteFrameNext(m0, l0, old(log), log, old(fs), fs, srcs, i);
      if PairwiseApart(srcs) {
        OthersIntact(m0, old(fs), fs, srcs, i);
      }
    }

    /** exec_move. `across` tells which items lie on another file system; `failed` says that some item failed, `ds` are the places the items went to, `losts` what their
        copies' directory reads left out. */
    method ExecMove(srcs: seq<Path>, across: seq<bool>, dir: Path) returns (failed: bool, ghost ds: seq<Path>, ghost losts: seq<set<Path>>)
      requires Valid() && filesDone == 0 && forall i :: 0 <= i < |srcs| ==> !Under(srcs[i], dir)
      requires |across| == |srcs| && RoomFor(fs, srcs, across, dir, 0)
      modifies this
      ensures Counting()
      ensures Valid() && OnlyRaised()
      ensures AllMoveFrame(old(log), log, old(fs), srcs, dir) && MoveFrame(old(fs), fs, srcs, dir)
      ensures failed ==> faults > old(faults) || cancelled
      ensures 0 <= filesDone && filesTotal <= LeafTotal(old(fs), srcs)
      ensures old(faults) <= counted <= faults
      ensures counted == old(faults) ==> filesTotal == LeafTotal(old(fs), srcs) && AllFound(old(fs), srcs, dir)
      ensures Untangled(old(fs), srcs, dir) && rwFaults == old(rwFaults) ==> AllWhole(old(fs), fs, srcs, dir)
      ensures Untangled(old(fs), srcs, dir) || AllOutside(srcs, dir) ==>
        filesDone <= LeafTotal(old(fs), srcs) && (counted == old(faults) ==> filesDone <= filesTotal)
      ensures Smooth() && PairwiseApart(srcs) && NoneInTheWay(srcs, dir) ==> filesDone == filesTotal
      ensures Unthreatened(old(fs), srcs, across, dir) ==> JobSurvives(old(fs), old(log), log, fs, srcs, ds, losts, old(ends), ends)
      ensures Unthreatened(old(fs), srcs, across, dir) && ends == old(ends) ==> forall j :: 0 <= j < |losts| ==> losts[j] == {}
      ensures Unthreatened(old(fs), srcs, across, dir) && !failed && !cancelled ==> JobArrived(old(fs), fs, srcs, dir, ds, losts)
      ensures Unthreatened(old(fs), srcs, across, dir) && Smooth() ==>
        forall j :: 0 <= j < |srcs| ==> srcs[j] == Target(srcs[j], dir) || srcs[j] !in fs
      ensures Undisturbed(true) ==> fs == SentAll(old(fs), srcs, across, dir, |srcs|) && (failed <==> !AllGo(old(fs), srcs, across, dir, |srcs|))
      ensures Undisturbed(true) && (forall j :: 0 <= j < |across| ==> !across[j]) ==> fs == MovedAll(old(fs), srcs, dir)
      ensures Undisturbed(true) && !failed && Present(old(fs), srcs, |srcs|) && Untangled(old(fs), srcs, dir) ==> faults == old(faults)
      ensures old(cancelled) ==> fs == old(fs)
    {
      hide Rising, MoveProgress, JobSurvives, JobArrived, Unthreatened, Untangled, AllOutside, RoomFor, Under, LeafTotal,
        SentAll, AllGo, MovedAll, AllFound, PairwiseApart, NoneInTheWay, Present, WellFormed, AllMoveFrame, MoveFrame, AllWhole;
      ghost var m0 := fs;
      var total := CountAll(srcs);
      filesTotal, counted := total, faults;
      ghost var c0 := faults;
      JobStarts(fs, log, srcs, across, dir, faults == old(faults), old(ends), ends);
      if faults == old(faults) {
        PresentFound(fs, srcs, dir);
      }
      failed, ds, losts := false, [], [];
      var i := 0;
      NothingRisen(shown, filesDone);
      while i < |srcs|
        invariant Counting()
        invariant i <= |srcs| && Valid() && OnlyRaised() && m0 == old(fs) && |ds| == i == |losts|
        invariant failed ==> faults > old(faults) || cancelled
        invariant filesTotal == total && counted == c0 <= faults
        invariant 0 <= filesDone
        invariant MoveProgress(m0, old(log), log, fs, srcs, across, dir, i, filesDone, ds, losts, failed, faults == old(faults),
                               Smooth(), rwFaults == old(rwFaults), Undisturbed(true), old(ends), ends)
        invariant old(cancelled) ==> fs == m0
      {
        var c := Poll();
        if c {
          ProgressAnyway(m0, old(log), log, fs, srcs, across, dir, i, filesDone, ds, losts, failed, faults == old(faults),
                         rwFaults == old(rwFaults), old(ends), ends);
          break;
        }
        var ok;
        ghost var d, lost;
        ok, d, lost := MoveSource(old(shown), old(filesDone), m0, srcs, across, i, dir, old(log), old(ends), ds, losts, failed,
                                  faults == old(faults), Smooth(), rwFaults == old(rwFaults), Undisturbed(true));
        failed, ds, losts := failed || !ok, ds + [d], losts + [lost];
        i := i + 1;
      }
      MoveEnds(m0, old(log), log, fs, srcs, across, dir, i, filesDone, ds, losts, failed, faults == old(faults),
               Smooth(), rwFaults == old(rwFaults), Undisturbed(true), old(ends), ends);
      ds, losts := ds + srcs[i..], losts + seq(|srcs| - i, _ => {});
    }

    /** One source of a job that started at `m0`, with the records `s0`, `l0` and `e0`. */
    method MoveSource(ghost s0: seq<int>, ghost d0: int, ghost m0: Fs, srcs: seq<Path>, across: seq<bool>, i: nat, dir: Path,
                      ghost l0: seq<Fs>, ghost e0: seq<set<Path>>, ghost ds: seq<Path>, ghost losts: seq<set<Path>>,
                      ghost failed: bool, ghost faultless: bool, ghost smooth: bool, ghost clean: bool, ghost calm: bool)
      returns (ok: bool, ghost d: Path, ghost lost: set<Path>)
      requires Rising(s0, shown, d0, filesDone)
      requires Valid() && WellFormed(m0) && i < |srcs| == |across| && !Under(srcs[i], dir)
      requires MoveProgress(m0, l0, log, fs, srcs, across, dir, i, filesDone, ds, losts, failed, faultless, smooth, clean, calm, e0, ends)
      modifies `fs, `cancelled, `filesDone, `shown, `log, `faults, `chosen, `rwFaults, `ends
      ensures Rising(s0, shown, d0, filesDone)
      ensures Valid() && OnlyRaised() && filesDone >= old(filesDone)
      ensures !ok ==> faults > old(faults) || cancelled
      ensures MoveProgress(m0, l0, log, fs, srcs, across, dir, i + 1, filesDone, ds + [d], losts + [lost], failed || !ok,
                           faultless && faults == old(faults), smooth && Smooth(), clean && rwFaults == old(rwFaults),
                           calm && Undisturbed(true), e0, ends)
    {
      hide Rising, MoveProgress, Explained, MoveResult, AllSurvive, AllElsewhere, Untangled, Under, Leaves, SentItem, Goes, Present,
        WellFormed, Resolved, Target, Whole;
      BeforeMove(m0, l0, log, fs, srcs, across, dir, i, filesDone, ds, losts, failed, faultless, smooth, clean, calm, e0, ends);
      ok, d, lost := MoveOne(srcs[i], dir, across[i]);
      RisingOn(s0, old(shown), shown, d0, old(filesDone), filesDone);
      ProgressNext(m0, l0, old(log), log, old(fs), fs, srcs, across, dir, i, old(filesDone), filesDone, ds, losts, d, lost, failed, ok,
                   faultless, faults == old(faults), smooth, Smooth(), clean, rwFaults == old(rwFaults), calm, Undisturbed(true),
                   e0, old(ends), ends);
    }
  }
}
