/** The file manager's copy of the device table, fed by the daemon's signals and, when a call
    returns, by the file manager itself. */
module Replication {
  import opened DeviceTable

  const RESULT_LEN: nat := 256

  /** The first entry called `name`, or the length of the table. */
  function FindByName(t: Table, name: string): (i: nat)
    ensures i <= |t| && (i < |t| ==> t[i].name == name)
    ensures forall j :: 0 <= j < i ==> t[j].name != name
  {
    if t == [] || t[0].name == name then 0 else 1 + FindByName(t[1..], name)
  }

  /** The entry updated when a mount call returns: looked up by label first. */
  function MountTarget(t: Table, path: string): nat {
    if FindByName(t, path) < |t| then FindByName(t, path) else Find(t, path)
  }

  function Cut(s: string): string { if |s| < RESULT_LEN then s else s[..RESULT_LEN - 1] }

  /** What the file manager writes into its copy when a call succeeds. */
  function Optimistic(t: Table, r: Request, result: string): Table {
    match r
    case Mount(p) => SetMount(t, MountTarget(t, p), true, Cut(result))
    case Unmount(p) => SetMount(t, Find(t, p), false, "")
    case Eject(p) => SetMount(t, Find(t, p), false, "")
  }

  /** No other device is labelled with the path of the device the call was about. */
  predicate NoClash(t: Table, r: Request) {
    var i := FindByName(t, r.path);
    r.Mount? && i < |t| ==> t[i].path == r.path
  }

  /** Entry by entry: the device the call was about is mounted at the result, or not mounted; the others are as before. */
  predicate Returned(t: Table, r: Request, result: string, u: Table) {
    |u| == |t| && forall j :: 0 <= j < |t| ==> u[j] == ReturnedEntry(t[j], r, result)
  }

  function ReturnedEntry(v: View, r: Request, result: string): View {
    if v.path != r.path then v
    else if r.Mount? then View(v.path, v.name, v.fsType, true, Cut(result))
    else View(v.path, v.name, v.fsType, false, "")
  }

  /** What is written when a call returns, as long as no label is another device's path. */
  lemma ReturnSays(t: Table, r: Request, result: string)
    requires Distinct(t) && NoClash(t, r)
    ensures Returned(t, r, result, Optimistic(t, r, result))
    ensures |result| < RESULT_LEN ==> Cut(result) == result
  {
    var i := if r.Mount? then MountTarget(t, r.path) else Find(t, r.path);
    if i < |t| {
      FindIs(t, r.path, i);
    }
    FindAny(t, r.path);
  }

  lemma FindAny(t: Table, path: string)
    ensures forall j :: 0 <= j < |t| && t[j].path == path ==> Find(t, path) < |t|
  {
  }

  /** The device list in the file manager's application state. */
  class DeviceList {
    const devices: array<View>
    var ndevices: nat
    ghost var t: Table

    ghost predicate Valid()
      reads this, devices
    {
      devices.Length == MAX_DEVICES && ndevices <= MAX_DEVICES && t == devices[..ndevices]
    }

    /** The ListDevices part of fm_mountd_init. */
    constructor (reply: Table)
      ensures Valid() && fresh(devices)
      ensures t == if |reply| <= MAX_DEVICES then reply else reply[..MAX_DEVICES]
    {
      devices := new View[MAX_DEVICES](_ => View("", "", "", false, ""));
      ndevices, t := 0, [];
      new;
      while ndevices < |reply| && ndevices < MAX_DEVICES
        invariant Valid() && ndevices <= |reply| && t == reply[..ndevices] && fresh(devices)
      {
        devices[ndevices] := reply[ndevices];
        t := t + [reply[ndevices]];
        ndevices := ndevices + 1;
      }
    }

    method IndexOf(path: string) returns (i: nat)
      requires Valid()
      ensures i == Find(t, path)
    {
      i := 0;
      while i < ndevices && devices[i].path != path
        invariant i <= ndevices && forall j :: 0 <= j < i ==> t[j].path != path
      {
        i := i + 1;
      }
    }

    /** fm_mountd_find_by_label */
    method IndexByLabel(name: string) returns (i: nat)
      requires Valid()
      ensures i == FindByName(t, name)
    {
      i := 0;
      while i < ndevices && devices[i].name != name
        invariant i <= ndevices && forall j :: 0 <= j < i ==> t[j].name != name
      {
        i := i + 1;
      }
    }

    method WriteMount(i: nat, mounted: bool, mountPoint: string)
      requires Valid()
      modifies this`t, devices
      ensures Valid() && t == SetMount(old(t), i, mounted, mountPoint)
    {
      if i < ndevices {
        devices[i] := devices[i].(mounted := mounted, mountPoint := mountPoint);
        t := t[i := devices[i]];
      }
    }

    /** signal_filter */
    method SignalFilter(s: Signal)
      requires Valid()
      modifies this`ndevices, this`t, devices
      ensures Valid() && t == Apply(old(t), s)
    {
      match s {
        case Added(p, l, f) =>
          if ndevices < MAX_DEVICES {
            devices[ndevices] := View(p, l, f, false, "");
            t := t + [devices[ndevices]];
            ndevices := ndevices + 1;
          }
        case Removed(p) =>
          RemoveByPath(p);
        case Mounted(p, m) =>
          var i := IndexOf(p);
          WriteMount(i, true, m);
        case Unmounted(p) =>
          var i := IndexOf(p);
          WriteMount(i, false, "");
      }
    }

    method RemoveByPath(p: string)
      requires Valid()
      modifies this`ndevices, this`t, devices
      ensures Valid() && t == Apply(old(t), Removed(p))
    {
      var i := IndexOf(p);
      if i < ndevices {
        ndevices := ndevices - 1;
        if i < ndevices {
          devices[i] := devices[ndevices];
        }
        t := RemoveAt(t, i);
      }
    }

    /** dev_ctx_select_cb, after the call has returned success. */
    method CallReturned(r: Request, result: string)
      requires Valid()
      modifies this`t, devices
      ensures Valid() && t == Optimistic(old(t), r, result)
      ensures Distinct(old(t)) && NoClash(old(t), r) ==> Returned(old(t), r, result, t)
    {
      if Distinct(t) && NoClash(t, r) {
        ReturnSays(t, r, result);
      }
      match r {
        case Mount(p) =>
          var i := IndexByLabel(p);
          if i == ndevices {
            i := IndexOf(p);
          }
          WriteMount(i, true, Cut(result));
        case _ =>
          var i := IndexOf(r.path);
          WriteMount(i, false, "");
      }
    }
  }

  // ---------- daemon, bus and file manager together ----------

  datatype Call = NoCall | Asked(request: Request) | Answered(request: Request, ok: bool, result: string)

  datatype System = System(
    daemon: Table,           // the daemon's table, as far as signals tell
    inflight: seq<Signal>,   // sent, not yet dispatched
    replica: Table,
    call: Call)              // the file manager blocks in at most one

  datatype Step =
    | Event(sent: seq<Signal>)                                // a change the daemon announces
    | Ask(request: Request)
    | Serve(ok: bool, result: string)
    | Timeout
    | Return
    | Deliver

  predicate Enabled(s: System, a: Step) {
    match a
    case Event(sent) => AllSendable(s.daemon, sent)
    case Ask(_) => s.call == NoCall
    case Serve(ok, result) => s.call.Asked? && AllSendable(s.daemon, Signals(s.call.request, ok, result))
    case Timeout => s.call.Asked?
    case Return => s.call.Answered? && (s.call.ok ==> NoClash(s.replica, s.call.request))
    case Deliver => s.call == NoCall && s.inflight != []
  }

  function Next(s: System, a: Step): System
    requires Enabled(s, a)
  {
    match a
    case Event(sent) => s.(daemon := ApplyAll(s.daemon, sent), inflight := s.inflight + sent)
    case Ask(r) => s.(call := Asked(r))
    case Serve(ok, result) =>
      var sent := Signals(s.call.request, ok, result);
      s.(daemon := ApplyAll(s.daemon, sent), inflight := s.inflight + sent, call := Answered(s.call.request, ok, result))
    case Timeout => s.(call := NoCall)
    case Return =>
      s.(call := NoCall, replica := if s.call.ok then Optimistic(s.replica, s.call.request, s.call.result) else s.replica)
    case Deliver => s.(replica := Apply(s.replica, s.inflight[0]), inflight := s.inflight[1..])
  }

  predicate Reaches(s: System, steps: seq<Step>, t: System)
    decreases |steps|
  {
    if steps == [] then s == t else Enabled(s, steps[0]) && Reaches(Next(s, steps[0]), steps[1..], t)
  }

  /** The copy is the daemon's table but for the signals on their way. */
  predicate Agrees(s: System) { s.daemon == ApplyAll(s.replica, s.inflight) }

  predicate Inv(s: System) {
    && Agrees(s) && AllSendable(s.replica, s.inflight)
    && Distinct(s.replica) && |s.replica| <= MAX_DEVICES
    && (s.call.Answered? && s.call.ok ==> Settled(s.inflight, s.call.request.path))
  }

  lemma SettledLonger(q: seq<Signal>, r: seq<Signal>, p: string)
    ensures Settled(q, p) || Settled(r, p) ==> Settled(q + r, p)
  {
    if Settled(q, p) {
      var k :| 0 <= k < |q| && !q[k].Added? && q[k].path == p;
      assert (q + r)[k] == q[k];
    } else if Settled(r, p) {
      var k :| 0 <= k < |r| && !r[k].Added? && r[k].path == p;
      assert (q + r)[|q| + k] == r[k];
    }
  }

  lemma SendKeepsInv(s: System, sent: seq<Signal>, call: Call)
    requires Inv(s) && AllSendable(s.daemon, sent)
    requires call.Answered? && call.ok ==> call == s.call || Settled(sent, call.request.path)
    ensures Inv(System(ApplyAll(s.daemon, sent), s.inflight + sent, s.replica, call))
  {
    ApplyAllConcat(s.replica, s.inflight, sent);
    if call.Answered? && call.ok {
      SettledLonger(s.inflight, sent, call.request.path);
    }
  }

  lemma ReturnKeepsInv(s: System)
    requires Inv(s) && Enabled(s, Return)
    ensures Inv(Next(s, Return))
  {
    if s.call.ok {
      var i, mp := TargetOf(s.replica, s.call.request, s.call.result);
      EarlyUpdateKeepsInv(s, i, s.call.request.Mount?, mp);
    }
  }

  /** The entry written, if any, is the one the call was about. */
  lemma TargetOf(t: Table, r: Request, result: string) returns (i: nat, mp: string)
    requires NoClash(t, r)
    ensures Optimistic(t, r, result) == SetMount(t, i, r.Mount?, mp) && (i < |t| ==> t[i].path == r.path)
  {
    i := if r.Mount? then MountTarget(t, r.path) else Find(t, r.path);
    mp := if r.Mount? then Cut(result) else "";
  }

  lemma EarlyUpdateKeepsInv(s: System, i: nat, mounted: bool, mp: string)
    requires Inv(s) && s.call.Answered? && s.call.ok && (i < |s.replica| ==> s.replica[i].path == s.call.request.path)
    ensures Inv(s.(call := NoCall, replica := SetMount(s.replica, i, mounted, mp)))
  {
    hide Settled, AllSendable, ApplyAll;
    if i < |s.replica| {
      EarlyUpdate(s.replica, i, mounted, mp, s.inflight);
    }
  }

  lemma StepKeepsInv(s: System, a: Step)
    requires Inv(s) && Enabled(s, a)
    ensures Inv(Next(s, a))
  {
    match a
    case Event(sent) => SendKeepsInv(s, sent, s.call);
    case Serve(ok, result) =>
      var r := s.call.request;
      var sent := Signals(r, ok, result);
      assert ok ==> !sent[0].Added? && sent[0].path == r.path;
      SendKeepsInv(s, sent, Answered(r, ok, result));
    case Return => ReturnKeepsInv(s);
    case Deliver => ApplyKeepsDistinct(s.replica, s.inflight[0]);
    case _ =>
  }

  /** In every run the copy agrees with the daemon, array order included. */
  lemma {:induction false} ReplicaAgrees(s: System, steps: seq<Step>, t: System)
    requires Inv(s) && Reaches(s, steps, t)
    ensures Inv(t) && (t.inflight == [] ==> t.replica == t.daemon)
    decreases |steps|
  {
    if steps != [] {
      StepKeepsInv(s, steps[0]);
      ReplicaAgrees(Next(s, steps[0]), steps[1..], t);
    }
  }

  /** After ListDevices, with nothing on its way, and no change before the subscription. */
  function Start(reply: Table): System { System(reply, [], reply, NoCall) }

  lemma AgreesFromStart(reply: Table, steps: seq<Step>, t: System)
    requires Distinct(reply) && |reply| <= MAX_DEVICES && Reaches(Start(reply), steps, t)
    ensures Inv(t) && (t.inflight == [] ==> t.replica == t.daemon)
  {
    ReplicaAgrees(Start(reply), steps, t);
  }

  /** The copy's bound never drops a device: whatever is added is appended. */
  lemma NothingDropped(s: System, steps: seq<Step>, t: System)
    requires Inv(s) && Reaches(s, steps, t) && Enabled(t, Deliver) && t.inflight[0].Added?
    ensures var u := Next(t, Deliver).replica; |u| == |t.replica| + 1 && u[|t.replica|].path == t.inflight[0].path
    ensures Find(t.replica, t.inflight[0].path) == |t.replica|
  {
    ReplicaAgrees(s, steps, t);
  }

  /** When a label is another device's path, the wrong entry is written, and the copy agrees afterwards
      exactly when a signal about that entry is on its way or the entry said so already. */
  lemma ClashMatters(s: System, r: Request, result: string)
    requires Inv(s) && s.call == Answered(r, true, result) && !NoClash(s.replica, r)
    ensures var t := s.replica; var i := FindByName(t, r.path); var u := Optimistic(t, r, result);
      s.daemon == ApplyAll(u, s.inflight) <==>
        Settled(s.inflight, t[i].path) || (t[i].mounted && t[i].mountPoint == Cut(result))
  {
    var t, i := s.replica, FindByName(s.replica, r.path);
    EarlyUpdate(t, i, true, Cut(result), s.inflight);
    assert SetMount(t, i, true, Cut(result)) == t <==> t[i].mounted && t[i].mountPoint == Cut(result) by {
      assert SetMount(t, i, true, Cut(result))[i] == t[i].(mounted := true, mountPoint := Cut(result));
    }
  }

  // ---------- changes between the list and the subscription ----------

  predicate Tracks(t: Table, path: string) { exists i :: 0 <= i < |t| && t[i].path == path }

  /** The devices of a table, with repetitions. */
  function DevicePaths(t: Table): multiset<string> { multiset(seq(|t|, i requires 0 <= i < |t| => t[i].path)) }

  lemma TracksPath(t: Table, p: string)
    ensures Tracks(t, p) <==> p in DevicePaths(t)
    ensures Tracks(t, p) <==> Find(t, p) < |t|
    ensures |DevicePaths(t)| == |t|
  {
    var ps := seq(|t|, i requires 0 <= i < |t| => t[i].path);
    if Tracks(t, p) {
      var i :| 0 <= i < |t| && t[i].path == p;
      assert ps[i] == p;
    }
    if p in DevicePaths(t) {
      assert p in ps;
      var i :| 0 <= i < |ps| && ps[i] == p;
    }
  }

  lemma PathsWithoutEntry(t: Table, i: nat)
    requires i < |t|
    ensures DevicePaths(RemoveAt(t, i)) == DevicePaths(t) - multiset{t[i].path}
  {
    var n := |t| - 1;
    var ps := seq(|t|, j requires 0 <= j < |t| => t[j].path);
    var u := RemoveAt(t, i);
    var qs := seq(|u|, j requires 0 <= j < |u| => u[j].path);
    assert ps == ps[..n] + [ps[n]];
    assert qs == if i < n then ps[..n][i := ps[n]] else ps[..n];
  }

  /** What a signal does to the devices of a table. */
  lemma PathsAfter(t: Table, s: Signal)
    ensures DevicePaths(Apply(t, s)) ==
      match s
      case Added(p, _, _) => if |t| < MAX_DEVICES then DevicePaths(t) + multiset{p} else DevicePaths(t)
      case Removed(p) => DevicePaths(t) - multiset{p}
      case _ => DevicePaths(t)
  {
    var u := Apply(t, s);
    var ps := seq(|t|, j requires 0 <= j < |t| => t[j].path);
    var qs := seq(|u|, j requires 0 <= j < |u| => u[j].path);
    TracksPath(t, s.path);
    match s
    case Added(p, _, _) =>
      if |t| < MAX_DEVICES {
        assert qs == ps + [p];
      }
    case Removed(p) =>
      var i := Find(t, p);
      if i < |t| {
        PathsWithoutEntry(t, i);
      }
    case _ => assert qs == ps;
  }

  /** Each addition finds room. */
  predicate Roomy(t: Table, q: seq<Signal>)
    decreases |q|
  {
    q == [] || ((q[0].Added? ==> |t| < MAX_DEVICES) && Roomy(Apply(t, q[0]), q[1..]))
  }

  /** Two tables with the same devices keep having the same devices. */
  lemma {:induction false} SameDevices(t: Table, u: Table, q: seq<Signal>)
    requires DevicePaths(t) == DevicePaths(u)
    ensures DevicePaths(ApplyAll(t, q)) == DevicePaths(ApplyAll(u, q))
    decreases |q|
  {
    if q != [] {
      TracksPath(t, "");
      TracksPath(u, "");
      PathsAfter(t, q[0]);
      PathsAfter(u, q[0]);
      SameDevices(Apply(t, q[0]), Apply(u, q[0]), q[1..]);
    }
  }

  /** A device added between the list and the subscription is the one device the copy lacks until the daemon
      removes it, and not after that. */
  lemma {:induction false} MissedAdd(daemon: Table, replica: Table, p: string, q: seq<Signal>)
    requires DevicePaths(daemon) == DevicePaths(replica) + multiset{p} && AllSendable(daemon, q) && |daemon| <= MAX_DEVICES && !Tracks(replica, p)
    ensures DevicePaths(ApplyAll(daemon, q)) == DevicePaths(ApplyAll(replica, q)) +
      (if Removed(p) in q then multiset{} else multiset{p})
    ensures Removed(p) !in q ==> !Tracks(ApplyAll(replica, q), p)
    decreases |q|
  {
    hide Apply, DevicePaths, Tracks, Find;
    if q != [] {
      var s := q[0];
      TracksPath(daemon, s.path);
      TracksPath(replica, s.path);
      TracksPath(replica, p);
      PathsAfter(daemon, s);
      PathsAfter(replica, s);
      var d, r := Apply(daemon, s), Apply(replica, s);
      if s == Removed(p) {
        SameDevices(d, r, q[1..]);
      } else {
        TracksPath(r, p);
        TracksPath(d, p);
        MissedAdd(d, r, p, q[1..]);
      }
    }
  }

  /** So the two tell the same about it exactly once it has been removed. */
  lemma MissedAddStaysMissed(t: Table, p: string, name: string, fsType: string, q: seq<Signal>)
    requires |t| <= MAX_DEVICES && Sendable(t, Added(p, name, fsType)) && AllSendable(Apply(t, Added(p, name, fsType)), q)
    ensures var daemon := Apply(t, Added(p, name, fsType));
      (forall x :: Tracks(ApplyAll(t, q), x) <==> Tracks(ApplyAll(daemon, q), x)) <==> Removed(p) in q
  {
    var daemon := Apply(t, Added(p, name, fsType));
    TracksPath(t, p);
    PathsAfter(t, Added(p, name, fsType));
    MissedAdd(daemon, t, p, q);
    var d, r := ApplyAll(daemon, q), ApplyAll(t, q);
    forall x
      ensures Tracks(r, x) <==> x in DevicePaths(r)
      ensures Tracks(d, x) <==> x in DevicePaths(d)
    {
      TracksPath(r, x);
      TracksPath(d, x);
    }
    assert Removed(p) !in q ==> p in DevicePaths(d) && p !in DevicePaths(r);
  }

  /** A device removed in between stays in the copy for good: whatever happens later, also a new addition and
      removal of the same device, the copy has one entry for it too many, as long as it has room. */
  lemma {:induction false} MissedRemovalStays(daemon: Table, replica: Table, p: string, q: seq<Signal>)
    requires DevicePaths(replica) == DevicePaths(daemon) + multiset{p} && AllSendable(daemon, q) && Roomy(replica, q)
    ensures DevicePaths(ApplyAll(replica, q)) == DevicePaths(ApplyAll(daemon, q)) + multiset{p}
    ensures Tracks(ApplyAll(replica, q), p)
    decreases |q|
  {
    hide Apply, DevicePaths, Tracks;
    TracksPath(replica, p);
    if q != [] {
      TracksPath(daemon, q[0].path);
      TracksPath(replica, "");
      PathsAfter(daemon, q[0]);
      PathsAfter(replica, q[0]);
      MissedRemovalStays(Apply(daemon, q[0]), Apply(replica, q[0]), p, q[1..]);
    }
  }

  /** That is how a missed removal starts. */
  lemma MissedRemoval(t: Table, p: string, q: seq<Signal>)
    requires Sendable(t, Removed(p)) && AllSendable(Apply(t, Removed(p)), q) && Roomy(t, q)
    ensures Tracks(ApplyAll(t, q), p)
    ensures DevicePaths(ApplyAll(t, q)) == DevicePaths(ApplyAll(Apply(t, Removed(p)), q)) + multiset{p}
  {
    TracksPath(t, p);
    PathsAfter(t, Removed(p));
    MissedRemovalStays(Apply(t, Removed(p)), t, p, q);
  }

  /** A mount or unmount missed in between is made good exactly by a later signal about that device that is not
      an addition, unless it changed nothing. */
  lemma MissedMountSettles(t: Table, s: Signal, q: seq<Signal>)
    requires Distinct(t) && |t| <= MAX_DEVICES && (s.Mounted? || s.Unmounted?) && Sendable(t, s) && AllSendable(Apply(t, s), q)
    ensures ApplyAll(t, q) == ApplyAll(Apply(t, s), q) <==> Settled(q, s.path) || Apply(t, s) == t
  {
    var i, d := Find(t, s.path), Apply(t, s);
    ApplyKeepsDistinct(t, s);
    assert SetMount(d, i, t[i].mounted, t[i].mountPoint) == t;
    EarlyUpdate(d, i, t[i].mounted, t[i].mountPoint, q);
  }
}
