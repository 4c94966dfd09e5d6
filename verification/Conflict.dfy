/** Names chosen when a destination is taken: "file (2).txt", "file (3).txt", ... */
module Conflict {
  import opened Paths

  /** Decimal digits, as printf writes them. */
  function Dec(n: nat): (s: string)
    ensures |s| >= 1
  {
    if n < 10 then [('0' as int + n) as char] else Dec(n / 10) + [('0' as int + n % 10) as char]
  }

  function Value(s: string): int {
    if s == "" then 0 else 10 * Value(s[..|s| - 1]) + (s[|s| - 1] as int - '0' as int)
  }

  lemma {:induction false} DecRoundTrip(n: nat)
    ensures Value(Dec(n)) == n
    ensures Slashless(Dec(n)) && (forall c :: c in Dec(n) ==> '0' <= c <= '9')
    ensures n < 1000 ==> |Dec(n)| <= 3
    ensures if n == 0 then Dec(n) == "0" else Dec(n)[0] != '0'
  {
    if n < 10 {
      assert Dec(n)[..0] == "";
    } else {
      DecRoundTrip(n / 10);
      var s, k := Dec(n), |Dec(n)| - 1;
      assert s[..k] == Dec(n / 10);
      if n < 1000 {
        assert n / 10 < 100 && n / 10 / 10 < 10;
      }
    }
  }

  // ---------- strrchr and strchr ----------

  /** Length of the directory part, its slash included. */
  function DirLen(p: Path): (k: nat)
    ensures k <= |p| && (k > 0 ==> p[k - 1] == '/') && Slashless(p[k..])
  {
    if p == "" then 0
    else if p[|p| - 1] == '/' then |p|
    else
      var k := DirLen(p[..|p| - 1]);
      assert p[k..] == p[..|p| - 1][k..] + [p[|p| - 1]];
      k
  }

  /** Where the extension starts: the first dot, or the end. */
  function ExtStart(b: string): (k: nat)
    ensures k <= |b| && (k < |b| ==> b[k] == '.') && forall i :: 0 <= i < k ==> b[i] != '.'
  {
    if b == "" || b[0] == '.' then 0
    else
      var k := 1 + ExtStart(b[1..]);
      assert forall i :: 0 < i < k ==> b[i] == b[1..][i - 1];
      k
  }

  /** The number goes before the extension. */
  function Numbered(dir: string, base: string, e: nat, i: nat): Path
    requires e <= |base|
  {
    dir + base[..e] + " (" + Dec(i) + ")" + base[e..]
  }

  function Candidate(p: Path, i: nat): Path {
    var k := DirLen(p);
    Numbered(p[..k], p[k..], ExtStart(p[k..]), i)
  }

  function FirstFree(m: Fs, p: Path, i: nat): Path
    requires 2 <= i <= 1000
    decreases 1000 - i
  {
    if i == 1000 then p
    else if Candidate(p, i) !in m then Candidate(p, i)
    else FirstFree(m, p, i + 1)
  }

  /** `q` is the target or one of its numbered variants. */
  predicate Variant(q: Path, target: Path) {
    q == target || exists k :: 2 <= k < 1000 && q == Candidate(target, k)
  }

  /** The path written to when `p` is asked for. */
  function Resolved(m: Fs, p: Path): Path {
    if p !in m then p else FirstFree(m, p, 2)
  }

  // ---------- candidates ----------

  lemma Pieces(a: string, b: string, d: string, x: string)
    ensures var c := a + b + " (" + d + ")" + x;
      && |c| == |a| + |b| + |d| + |x| + 3
      && c[..|a|] == a && c[|a|..] == b + " (" + d + ")" + x
      && c[|a| + |b| + 2..|a| + |b| + 2 + |d|] == d
  {
  }

  lemma SlashlessPieces(b: string, d: string, x: string)
    requires Slashless(b) && Slashless(d) && Slashless(x)
    ensures Slashless(b + " (" + d + ")" + x)
  {
  }

  lemma NumberedShape(dir: string, base: string, e: nat, i: nat)
    requires e <= |base| && Slashless(base)
    ensures var k := |dir|; var c := Numbered(dir, base, e, i);
      && |c| == k + |base| + 3 + |Dec(i)|
      && c[..k] == dir && Slashless(c[k..])
      && c[k + e + 2..k + e + 2 + |Dec(i)|] == Dec(i)
  {
    DecRoundTrip(i);
    Pieces(dir, base[..e], Dec(i), base[e..]);
    SlashlessPieces(base[..e], Dec(i), base[e..]);
  }

  /** What a candidate looks like beside the original. */
  lemma CandidateShape(p: Path, i: nat)
    ensures var k := DirLen(p); var c := Candidate(p, i); var e := ExtStart(p[k..]);
      && |c| == |p| + 3 + |Dec(i)|
      && c[..k] == p[..k] && Slashless(c[k..])
      && c[k + e + 2..k + e + 2 + |Dec(i)|] == Dec(i)
  {
    hide Numbered, Dec, Slashless;
    var k := DirLen(p);
    var dir, base := p[..k], p[k..];
    NumberedShape(dir, base, ExtStart(base), i);
    assert |dir| == k && |p| == k + |base|;
  }

  lemma CandidatesDiffer(p: Path, i: nat, j: nat)
    requires Candidate(p, i) == Candidate(p, j)
    ensures i == j
  {
    hide Candidate, Dec, Value, Slashless;
    CandidateShape(p, i);
    CandidateShape(p, j);
    DecRoundTrip(i);
    DecRoundTrip(j);
  }

  /** The number goes before the first dot of the name, or at its end. */
  lemma CandidateText(dir: string, stem: string, ext: string, i: nat)
    requires dir == "" || dir[|dir| - 1] == '/'
    requires Slashless(stem) && Slashless(ext) && '.' !in stem && (ext == "" || ext[0] == '.')
    ensures Candidate(dir + stem + ext, i) == dir + stem + " (" + Dec(i) + ")" + ext
  {
    var p, base := dir + stem + ext, stem + ext;
    assert p[..|dir|] == dir && p[|dir|..] == base;
    assert Slashless(base);
    DirLenUnique(p, |dir|);
    FirstDot(stem, ext);
    assert base[..|stem|] == stem && base[|stem|..] == ext;
  }

  lemma FirstDot(stem: string, ext: string)
    requires '.' !in stem && (ext == "" || ext[0] == '.')
    ensures ExtStart(stem + ext) == |stem|
  {
    var b, k := stem + ext, ExtStart(stem + ext);
    assert forall i :: 0 <= i < |stem| ==> b[i] == stem[i];
    assert ext != "" ==> b[|stem|] == '.';
  }

  /** The path itself if it is free, else the first free number, and the path again if all 998 are taken. */
  lemma ResolvedIsFirst(m: Fs, p: Path, i: nat)
    requires 2 <= i <= 1000 && forall j :: 2 <= j < i ==> Candidate(p, j) in m
    ensures p !in m ==> Resolved(m, p) == p
    ensures p in m && i < 1000 && Candidate(p, i) !in m ==> Resolved(m, p) == Candidate(p, i)
    ensures p in m && i == 1000 ==> Resolved(m, p) == p
  {
    FirstFreeFrom(m, p, 2, i);
  }

  lemma {:induction false} FirstFreeFrom(m: Fs, p: Path, k: nat, i: nat)
    requires 2 <= k <= i <= 1000 && forall j :: k <= j < i ==> Candidate(p, j) in m
    ensures FirstFree(m, p, k) == FirstFree(m, p, i)
    decreases i - k
  {
    if k < i {
      FirstFreeFrom(m, p, k + 1, i);
    }
  }

  /** The buffer resolve_conflict allocates holds every candidate and its terminator. */
  lemma CandidateFitsBuffer(p: Path, i: nat)
    requires 2 <= i < 1000
    ensures var dirLen := DirLen(p); var nameLen := ExtStart(p[dirLen..]); var extLen := |p| - dirLen - nameLen;
      |Candidate(p, i)| + 1 <= dirLen + nameLen + 8 + extLen + 1
  {
    CandidateShape(p, i);
    DecRoundTrip(i);
  }

  /** The entries of the directory `p` is in, as whole paths. */
  function Neighbours(m: Fs, p: Path): set<Path> {
    set q | q in m && DirLen(p) <= |q| && q[..DirLen(p)] == p[..DirLen(p)] && Slashless(q[DirLen(p)..])
  }

  function Tried(p: Path, k: nat): set<Path> { set i | 2 <= i < k :: Candidate(p, i) }

  lemma {:induction false} TriedSize(p: Path, k: nat)
    requires 2 <= k
    ensures |Tried(p, k)| == k - 2 && p !in Tried(p, k)
  {
    hide Candidate, ExtStart, Slashless, Dec;
    if k == 2 {
      assert Tried(p, 2) == {};
    } else {
      TriedSize(p, k - 1);
      var c := Candidate(p, k - 1);
      CandidateShape(p, k - 1);
      forall i | 2 <= i < k - 1
        ensures Candidate(p, i) != c
      {
        if Candidate(p, i) == c {
          CandidatesDiffer(p, i, k - 1);
        }
      }
      assert Tried(p, k) == Tried(p, k - 1) + {c};
    }
  }

  lemma {:induction false} FirstFreeScan(m: Fs, p: Path, i: nat)
    requires 2 <= i <= 1000 && forall j :: 2 <= j < i ==> Candidate(p, j) in m
    ensures var q := FirstFree(m, p, i);
      (q in m && p in m) ==> q == p && forall j :: 2 <= j < 1000 ==> Candidate(p, j) in m
    ensures FirstFree(m, p, i) == p || exists j :: 2 <= j < 1000 && FirstFree(m, p, i) == Candidate(p, j)
    decreases 1000 - i
  {
    if i < 1000 && Candidate(p, i) in m {
      FirstFreeScan(m, p, i + 1);
    }
  }

  lemma TriedAreNeighbours(m: Fs, p: Path)
    requires p in m && forall j :: 2 <= j < 1000 ==> Candidate(p, j) in m
    ensures Tried(p, 1000) + {p} <= Neighbours(m, p)
  {
    forall q | q in Tried(p, 1000)
      ensures q in Neighbours(m, p)
    {
      var j :| 2 <= j < 1000 && q == Candidate(p, j);
      CandidateShape(p, j);
    }
  }

  /** Pigeonhole: the path itself and the 998 candidates cannot all be taken. */
  lemma ResolvedIsFree(m: Fs, p: Path)
    requires |Neighbours(m, p)| < 999
    ensures Resolved(m, p) !in m
  {
    if p in m && Resolved(m, p) in m {
      FirstFreeScan(m, p, 2);
      TriedSize(p, 1000);
      TriedAreNeighbours(m, p);
      SubsetSize(Tried(p, 1000) + {p}, Neighbours(m, p));
    }
  }

  lemma {:induction false} SubsetSize<T>(a: set<T>, b: set<T>)
    requires a <= b
    ensures |a| <= |b|
  {
    if a != {} {
      var x :| x in a;
      SubsetSize(a - {x}, b - {x});
    }
  }

  /** Whatever is chosen lies in the directory that was asked for. */
  lemma ResolvedStaysInDirectory(m: Fs, p: Path)
    ensures var q, k := Resolved(m, p), DirLen(p); k <= |q| && q[..k] == p[..k] && Slashless(q[k..])
  {
    if p in m {
      FirstFreeScan(m, p, 2);
      if Resolved(m, p) != p {
        var j :| 2 <= j < 1000 && Resolved(m, p) == Candidate(p, j);
        CandidateShape(p, j);
      }
    }
  }

  /** The same directories lead to the name chosen. */
  lemma SameWay(m: Fs, p: Path)
    ensures Ancestors(m, Resolved(m, p)) <==> Ancestors(m, p)
  {
    ResolvedStaysInDirectory(m, p);
    var q, k := Resolved(m, p), DirLen(p);
    hide Resolved;
    assert forall i :: k <= i < |p| ==> p[i] == p[k..][i - k];
    assert forall i :: k <= i < |q| ==> q[i] == q[k..][i - k];
    forall i | 0 <= i < |p| && p[i] == '/'
      ensures i < k && q[i] == '/' && q[..i] == p[..i]
    {
      assert i < k ==> q[i] == q[..k][i] && q[..i] == q[..k][..i] && p[..i] == p[..k][..i];
    }
    forall i | 0 <= i < |q| && q[i] == '/'
      ensures i < k && p[i] == '/' && q[..i] == p[..i]
    {
      assert i < k ==> q[i] == q[..k][i] && q[..i] == q[..k][..i] && p[..i] == p[..k][..i];
    }
  }

  lemma {:induction false} DirLenUnique(p: Path, k: nat)
    requires k <= |p| && (k > 0 ==> p[k - 1] == '/') && Slashless(p[k..])
    ensures DirLen(p) == k
  {
    var j := DirLen(p);
    if j < k {
      assert p[j..][k - 1 - j] == '/';
    } else if k < j {
      assert p[k..][j - 1 - k] == '/';
    }
  }

  /** A name chosen for an entry of `d` is again an entry of `d`, with the same ancestors. */
  lemma ResolvedChild(m: Fs, d: Path, n: string) returns (n1: string)
    requires Slashless(n)
    ensures Slashless(n1) && Resolved(m, Child(d, n)) == Child(d, n1)
  {
    var p, k := Child(d, n), |d| + 1;
    assert p[k..] == n;
    DirLenUnique(p, k);
    ResolvedStaysInDirectory(m, p);
    var q := Resolved(m, p);
    n1 := q[k..];
    assert p[..k] == d + "/";
    assert q == q[..k] + q[k..];
  }

  /** How many of its variants are taken decides whether a free name is found: there are 999. */
  function Taken(m: Fs, p: Path): set<Path> { set q | q in m && Variant(q, p) }

  lemma ResolvedForms(m: Fs, p: Path)
    ensures Variant(Resolved(m, p), p)
    ensures Resolved(m, p) in m ==> p in m && forall j :: 2 <= j < 1000 ==> Candidate(p, j) in m
  {
    FirstFreeScan(m, p, 2);
    hide Candidate;
  }

  lemma ResolvedFreeIff(m: Fs, p: Path)
    ensures Resolved(m, p) !in m <==> |Taken(m, p)| < 999
    ensures Variant(Resolved(m, p), p)
  {
    ResolvedForms(m, p);
    hide Resolved, Candidate;
    var all, r := Tried(p, 1000) + {p}, Resolved(m, p);
    TriedSize(p, 1000);
    assert forall q :: Variant(q, p) <==> q in all;
    if r in m {
      SubsetSize(all, Taken(m, p));
    } else {
      SubsetSize(Taken(m, p), all - {r});
    }
  }

  /** The same for a candidate. */
  lemma CandidateChild(d: Path, n: string, i: nat) returns (n1: string)
    requires Slashless(n)
    ensures Slashless(n1) && Candidate(Child(d, n), i) == Child(d, n1)
  {
    hide Candidate, Dec, ExtStart, DirLen;
    var p, k := Child(d, n), |d| + 1;
    assert p[k..] == n && p[..k] == d + "/";
    DirLenUnique(p, k);
    CandidateShape(p, i);
    var q := Candidate(p, i);
    n1 := q[k..];
    assert q == q[..k] + q[k..];
  }
}
