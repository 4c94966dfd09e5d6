/** The device table both programs keep, and the signals that carry changes from one to the other. */
module DeviceTable {

  const MAX_DEVICES: nat := 64

  /** What a device looks like in either table, as far as signals tell. */
  datatype View = View(path: string, name: string, fsType: string, mounted: bool, mountPoint: string)

  datatype Signal =
    | Added(path: string, name: string, fsType: string)
    | Removed(path: string)
    | Mounted(path: string, mountPoint: string)
    | Unmounted(path: string)

  type Table = seq<View>

  /** What the file manager asks the daemon to do. */
  datatype Request = Mount(path: string) | Unmount(path: string) | Eject(path: string)

  /** What the daemon sends before it answers. */
  function Signals(r: Request, ok: bool, result: string): seq<Signal> {
    if !ok then []
    else match r
      case Mount(p) => [Mounted(p, result)]
      case Unmount(p) => [Unmounted(p)]
      case Eject(p) => [Unmounted(p), Removed(p)]
  }

  /** The first entry for `path`, or the length of the table. */
  function Find(t: Table, path: string): (i: nat)
    ensures i <= |t| && (i < |t| ==> t[i].path == path)
    ensures forall j :: 0 <= j < i ==> t[j].path != path
  {
    if t == [] || t[0].path == path then 0 else 1 + Find(t[1..], path)
  }

  /** The last entry takes the place of the removed one. */
  function RemoveAt(t: Table, i: nat): Table
    requires i < |t|
  {
    var n := |t| - 1;
    if i < n then t[..n][i := t[n]] else t[..n]
  }

  function SetMount(t: Table, i: nat, mounted: bool, mountPoint: string): Table {
    if i < |t| then t[i := t[i].(mounted := mounted, mountPoint := mountPoint)] else t
  }

  function Apply(t: Table, s: Signal): Table {
    match s
    case Added(p, l, f) => if |t| < MAX_DEVICES then t + [View(p, l, f, false, "")] else t
    case Removed(p) => var i := Find(t, p); if i < |t| then RemoveAt(t, i) else t
    case Mounted(p, m) => SetMount(t, Find(t, p), true, m)
    case Unmounted(p) => SetMount(t, Find(t, p), false, "")
  }

  function ApplyAll(t: Table, q: seq<Signal>): Table
    decreases |q|
  {
    if q == [] then t else ApplyAll(Apply(t, q[0]), q[1..])
  }

  predicate Distinct(t: Table) { forall i, j :: 0 <= i < j < |t| ==> t[i].path != t[j].path }

  /** A signal the daemon may send when its table is `t`. */
  predicate Sendable(t: Table, s: Signal) {
    match s
    case Added(p, _, _) => Find(t, p) == |t| && |t| < MAX_DEVICES
    case Removed(p) => Find(t, p) < |t|
    case Mounted(p, _) => Find(t, p) < |t|
    case Unmounted(p) => Find(t, p) < |t|
  }

  predicate AllSendable(t: Table, q: seq<Signal>)
    decreases |q|
  {
    q == [] || (Sendable(t, q[0]) && AllSendable(Apply(t, q[0]), q[1..]))
  }

  lemma {:induction false} ApplyAllConcat(t: Table, q: seq<Signal>, r: seq<Signal>)
    ensures ApplyAll(t, q + r) == ApplyAll(ApplyAll(t, q), r)
    ensures AllSendable(t, q + r) <==> AllSendable(t, q) && AllSendable(ApplyAll(t, q), r)
    decreases |q|
  {
    if q == [] {
      assert q + r == r;
    } else {
      assert (q + r)[1..] == q[1..] + r;
      ApplyAllConcat(Apply(t, q[0]), q[1..], r);
    }
  }

  lemma FindIs(t: Table, path: string, i: nat)
    requires i < |t| && t[i].path == path && Distinct(t)
    ensures Find(t, path) == i
  {
  }

  /** The table keeps one entry per device and stays within its bound. */
  lemma ApplyKeepsDistinct(t: Table, s: Signal)
    requires Distinct(t) && |t| <= MAX_DEVICES && Sendable(t, s)
    ensures Distinct(Apply(t, s)) && |Apply(t, s)| <= MAX_DEVICES
  {
  }

  /** What a signal says, entry by entry. */
  ghost predicate Says(t: Table, s: Signal, u: Table) {
    match s
    case Added(p, l, f) => |u| == |t| + 1 && u[..|t|] == t && u[|t|] == View(p, l, f, false, "")
    case Removed(p) => |u| == |t| - 1 && (forall v :: v in u <==> v in t && v.path != p)
                       && forall j :: 0 <= j < |u| && t[j].path != p ==> u[j] == t[j]
    case Mounted(p, m) => |u| == |t| && forall j :: 0 <= j < |t| ==>
      u[j] == if t[j].path == p then View(p, t[j].name, t[j].fsType, true, m) else t[j]
    case Unmounted(p) => |u| == |t| && forall j :: 0 <= j < |t| ==>
      u[j] == if t[j].path == p then View(p, t[j].name, t[j].fsType, false, "") else t[j]
  }

  /** A signal that may be sent changes the table exactly as it says; one about a device that is not there changes nothing. */
  lemma SignalSays(t: Table, s: Signal)
    requires Distinct(t)
    ensures Sendable(t, s) ==> Says(t, s, Apply(t, s))
    ensures !s.Added? && (forall j :: 0 <= j < |t| ==> t[j].path != s.path) ==> Apply(t, s) == t
  {
    if Sendable(t, s) && s.Removed? {
      RemovalSays(t, Find(t, s.path));
    }
  }

  lemma RemovalSays(t: Table, i: nat)
    requires Distinct(t) && i < |t|
    ensures var u := RemoveAt(t, i);
      && |u| == |t| - 1 && (forall v :: v in u <==> v in t && v.path != t[i].path)
      && forall j :: 0 <= j < |u| && j != i ==> u[j] == t[j]
  {
    var u, n := RemoveAt(t, i), |t| - 1;
    forall v | v in t && v.path != t[i].path
      ensures v in u
    {
      var j :| 0 <= j < |t| && t[j] == v;
      assert u[if j == n then i else j] == v;
    }
    forall v | v in u
      ensures v in t && v.path != t[i].path
    {
      var j :| 0 <= j < |u| && u[j] == v;
      assert v == t[if j == i then n else j];
    }
  }

  // ---------- an update ahead of its signal ----------

  /** Some later signal settles the mount state of `path`. */
  predicate Settled(q: seq<Signal>, path: string) {
    exists k :: 0 <= k < |q| && !q[k].Added? && q[k].path == path
  }

  /** The mount fields of one entry, written early, make no difference exactly when a signal on its
      way settles them or they were right already. */
  lemma {:induction false} EarlyUpdate(t: Table, i: nat, m: bool, mp: string, q: seq<Signal>)
    requires Distinct(t) && |t| <= MAX_DEVICES && AllSendable(t, q) && i < |t|
    ensures ApplyAll(SetMount(t, i, m, mp), q) == ApplyAll(t, q) <==>
      Settled(q, t[i].path) || SetMount(t, i, m, mp) == t
    ensures AllSendable(SetMount(t, i, m, mp), q)
    decreases |q|
  {
    var u, p := SetMount(t, i, m, mp), t[i].path;
    if q != [] {
      var s := q[0];
      SamePaths(t, u, s.path);
      ApplyKeepsDistinct(t, s);
      if !s.Added? && s.path == p {
        FindIs(t, p, i);
        SettledNow(t, i, m, mp, s);
        assert Settled(q, p);
      } else {
        var j := Moved(t, i, s);
        Carried(t, i, m, mp, s);
        EarlyUpdate(Apply(t, s), j, m, mp, q[1..]);
        SettledLater(q, p);
      }
    }
  }

  lemma {:induction false} SamePaths(t: Table, u: Table, path: string)
    requires |t| == |u| && forall i :: 0 <= i < |t| ==> t[i].path == u[i].path
    ensures Find(t, path) == Find(u, path)
  {
    if t != [] {
      SamePaths(t[1..], u[1..], path);
    }
  }

  lemma SettledNow(t: Table, i: nat, m: bool, mp: string, s: Signal)
    requires i < |t| && !s.Added? && Find(t, s.path) == i && Find(SetMount(t, i, m, mp), s.path) == i
    ensures Apply(SetMount(t, i, m, mp), s) == Apply(t, s)
  {
    hide Find;
    SettledByRemoval(t, i, m, mp);
    SettledBySetting(t, i, m, mp);
  }

  lemma SettledByRemoval(t: Table, i: nat, m: bool, mp: string)
    requires i < |t|
    ensures RemoveAt(SetMount(t, i, m, mp), i) == RemoveAt(t, i)
  {
  }

  lemma SettledBySetting(t: Table, i: nat, m: bool, mp: string)
    requires i < |t|
    ensures forall m1: bool, mp1: string :: SetMount(SetMount(t, i, m, mp), i, m1, mp1) == SetMount(t, i, m1, mp1)
  {
  }

  lemma SettledLater(q: seq<Signal>, p: string)
    requires q != [] && (q[0].Added? || q[0].path != p)
    ensures Settled(q, p) <==> Settled(q[1..], p)
  {
    if Settled(q, p) {
      var k :| 0 <= k < |q| && !q[k].Added? && q[k].path == p;
      assert q[1..][k - 1] == q[k];
    }
    if Settled(q[1..], p) {
      var k :| 0 <= k < |q[1..]| && !q[1..][k].Added? && q[1..][k].path == p;
      assert q[k + 1] == q[1..][k];
    }
  }

  /** Where entry `i` is after a signal about another device. */
  function Moved(t: Table, i: nat, s: Signal): (j: nat)
    requires i < |t|
  {
    if s.Removed? && i == |t| - 1 && Find(t, s.path) < |t| then Find(t, s.path) else i
  }

  lemma Carried(t: Table, i: nat, m: bool, mp: string, s: Signal)
    requires Distinct(t) && |t| <= MAX_DEVICES && i < |t| && Sendable(t, s) && (s.Added? || s.path != t[i].path)
    requires Find(SetMount(t, i, m, mp), s.path) == Find(t, s.path)
    ensures Moved(t, i, s) < |Apply(t, s)| && Apply(t, s)[Moved(t, i, s)].path == t[i].path
    ensures SetMount(Apply(t, s), Moved(t, i, s), m, mp) == Apply(t, s) <==> SetMount(t, i, m, mp) == t
    ensures Apply(SetMount(t, i, m, mp), s) == SetMount(Apply(t, s), Moved(t, i, s), m, mp)
    ensures Sendable(SetMount(t, i, m, mp), s)
  {
    hide Distinct;
    var k := Find(t, s.path);
    assert k != i by {
      assert s.Added? ==> k == |t|;
    }
    CarriedOver(t, i, m, mp, k, s);
  }

  lemma CarriedOver(t: Table, i: nat, m: bool, mp: string, k: nat, s: Signal)
    requires i < |t| && k <= |t| && k != i && |t| <= MAX_DEVICES && (s.Added? ==> |t| < MAX_DEVICES) && (s.Added? <==> k == |t|)
    requires Find(SetMount(t, i, m, mp), s.path) == Find(t, s.path) == k
    ensures var a, j := Apply(t, s), Moved(t, i, s);
      && j < |a| && a[j] == t[i]
      && Apply(SetMount(t, i, m, mp), s) == SetMount(a, j, m, mp)
  {
    hide Find;
    if s.Removed? {
      CarriedOverRemoval(t, i, m, mp, k);
    }
  }

  lemma CarriedOverRemoval(t: Table, i: nat, m: bool, mp: string, k: nat)
    requires i < |t| && k < |t| && k != i
    ensures var j := if i == |t| - 1 then k else i;
      RemoveAt(SetMount(t, i, m, mp), k) == SetMount(RemoveAt(t, k), j, m, mp) && RemoveAt(t, k)[j] == t[i]
  {
  }
}
