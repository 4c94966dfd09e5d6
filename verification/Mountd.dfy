/** The mount daemon: its device table, the operations on it, and the signals it sends about them. */
module Mountd {
  import opened DeviceTable

  datatype Device = Device(path: string, name: string, vendor: string, fsType: string, mountPoint: string,
                           mounted: bool, ejectable: bool, luks: bool, unlocked: bool, openedByUs: bool,
                           dmName: string, innerFs: string)

  function Project(d: Device): View { View(d.path, d.name, d.fsType, d.mounted, d.mountPoint) }

  function Views(ds: seq<Device>): Table { seq(|ds|, i requires 0 <= i < |ds| => Project(ds[i])) }

  /** Only an unlocked encrypted device can be one the daemon has to lock again. */
  predicate Sound(d: Device) {
    (d.openedByUs ==> d.luks && d.unlocked) && (!d.mounted ==> d.mountPoint == "")
  }

  predicate AllSound(ds: seq<Device>) { forall i :: 0 <= i < |ds| ==> Sound(ds[i]) }

  /** The signals say exactly what happened to the table. */
  predicate Announced(t0: Table, t1: Table, sent: seq<Signal>) {
    AllSendable(t0, sent) && t1 == ApplyAll(t0, sent)
  }

  /** The table shows the device as mounted. */
  predicate ShownMounted(t: Table, path: string) { Find(t, path) < |t| && t[Find(t, path)].mounted }

  /** What a hotplug event is announced with, given the table before. */
  function EventSignals(t: Table, action: string, removable: bool, path: string, name: string, fsType: string): seq<Signal> {
    if (action == "add" || action == "change") && removable && Sendable(t, Added(path, name, fsType)) then [Added(path, name, fsType)]
    else if action == "remove" && Find(t, path) < |t| then [Removed(path)]
    else []
  }

  const ALLOWED_FS: set<string> :=
    {"vfat", "exfat", "ext2", "ext3", "ext4", "ntfs", "ntfs3", "iso9660", "udf"}

  /** What is mounted is of an allowed type; an encrypted device is unlocked, and its inside counts. */
  predicate MayMount(d: Device) {
    if d.luks then d.unlocked && d.innerFs in ALLOWED_FS else d.fsType in ALLOWED_FS
  }

  /** The device is there and not mounted; an encrypted one comes with a passphrase and a name; and what is to be mounted is
      of an allowed type, as far as it is known after the attempt. */
  predicate Mountable(before: seq<Device>, after: seq<Device>, path: string, passphrase: string) {
    var i := Find(Views(before), path);
    i < |before| == |after| && !before[i].mounted &&
    if before[i].luks then passphrase != "" && before[i].dmName != "" && after[i].innerFs in ALLOWED_FS else before[i].fsType in ALLOWED_FS
  }

  class MountDaemon {
    const autoMount: bool
    const devices: array<Device>
    var ndevices: nat
    ghost var ds: seq<Device>
    ghost var sent: seq<Signal>
    ghost var refused: nat     // calls into the system that could succeed and failed

    ghost predicate Valid()
      reads this, devices
    {
      && devices.Length == MAX_DEVICES && ndevices <= MAX_DEVICES && ds == devices[..ndevices]
      && Distinct(Views(ds)) && AllSound(ds)
    }

    constructor (autoMount: bool)
      ensures Valid() && this.autoMount == autoMount && ds == [] && sent == [] && fresh(devices)
    {
      this.autoMount := autoMount;
      devices := new Device[MAX_DEVICES](_ => Device("", "", "", "", "", false, false, false, false, false, "", ""));
      ndevices, ds, sent, refused := 0, [], [], 0;
    }

    /** The environment decides whether a call that could succeed does. */
    method Refused() returns (r: bool)
      modifies this`refused
      ensures refused == old(refused) + if r then 1 else 0
    {
      r := *;
      if r {
        refused := refused + 1;
      }
    }

    /** mountd_find_device */
    method FindDevice(path: string) returns (i: nat)
      requires Valid()
      ensures i == Find(Views(ds), path)
    {
      i := 0;
      while i < ndevices && devices[i].path != path
        invariant i <= ndevices && forall j :: 0 <= j < i ==> devices[j].path != path
      {
        i := i + 1;
      }
      FindFirst(Views(ds), path, i);
    }

    /** mountd_add_device */
    method AddDevice(path: string, name: string, vendor: string, fsType: string, ejectable: bool, luks: bool, dmName: string)
      returns (ok: bool)
      requires Valid()
      modifies this`ndevices, this`ds, devices
      ensures Valid()
      ensures ok <==> Sendable(Views(old(ds)), Added(path, name, fsType))
      ensures ok ==> Views(ds) == Apply(Views(old(ds)), Added(path, name, fsType))
      ensures ok ==> ds == old(ds) + [Device(path, name, vendor, fsType, "", false, ejectable, luks, false, false, dmName, "")]
      ensures !ok ==> ds == old(ds)
    {
      var i := FindDevice(path);
      if i < ndevices || ndevices >= MAX_DEVICES {
        return false;
      }
      var d := Device(path, name, vendor, fsType, "", false, ejectable, luks, false, false, dmName, "");
      AppendedView(ds, d);
      ApplyKeepsDistinct(Views(ds), Added(path, name, fsType));
      devices[ndevices] := d;
      ndevices := ndevices + 1;
      ds := ds + [d];
      ok := true;
    }

    /** mountd_remove_device */
    method RemoveDevice(path: string)
      requires Valid()
      modifies this`ndevices, this`ds, devices
      ensures Valid() && Views(ds) == Apply(Views(old(ds)), Removed(path))
      ensures Find(Views(old(ds)), path) == |old(ds)| ==> ds == old(ds)
    {
      var i := FindDevice(path);
      if i < ndevices {
        RemovedView(ds, i);
        RemovedSound(ds, i);
        ApplyKeepsDistinct(Views(ds), Removed(path));
        hide Sound, Distinct, AllSound, Views, Find, RemoveAt;
        RemoveEntry(i);
      }
    }

    /** The last entry takes the place of the removed one. */
    method RemoveEntry(i: nat)
      requires devices.Length == MAX_DEVICES && i < ndevices <= MAX_DEVICES && ds == devices[..ndevices]
      modifies this`ndevices, this`ds, devices
      ensures ndevices == old(ndevices) - 1 && ds == devices[..ndevices] && ds == WithoutEntry(old(ds), i)
    {
      ndevices := ndevices - 1;
      if i < ndevices {
        devices[i] := devices[ndevices];
      }
      ds := WithoutEntry(ds, i);
    }

    /** Writes fields of one entry that do not identify it. */
    method Update(i: nat, d: Device)
      requires Valid() && i < ndevices && d.path == ds[i].path && d.name == ds[i].name && d.fsType == ds[i].fsType && Sound(d)
      modifies this`ds, devices
      ensures Valid() && ds == old(ds)[i := d]
      ensures Views(ds) == SetMount(Views(old(ds)), i, d.mounted, d.mountPoint)
    {
      UpdatedView(ds, i, d);
      devices[i] := d;
      ds := ds[i := d];
    }

    /** mountd_luks_close, when it is up to the daemon to do it. */
    method CloseLuks(i: nat, forget: bool, always: bool)
      requires Valid() && i < ndevices
      modifies this`ds, this`refused, devices
      ensures Valid() && Views(ds) == Views(old(ds)) && |ds| == |old(ds)| && old(refused) <= refused
      ensures var d := old(ds)[i];
        ds == if d.openedByUs && (always || refused == old(refused))
              then old(ds)[i := d.(unlocked := false, openedByUs := false, innerFs := if forget then "" else d.innerFs)]
              else old(ds)
      ensures !old(ds)[i].openedByUs ==> refused == old(refused)
    {
      var d := devices[i];
      SameView(Views(ds), i);
      if d.luks && d.unlocked && d.openedByUs {
        var failed := Refused();
        if !failed || always {
          Update(i, d.(unlocked := false, openedByUs := false, innerFs := if forget then "" else d.innerFs));
        }
      }
    }

    /** The encrypted-device part of mountd_do_mount: unlock, then probe what is inside. */
    method Unlock(i: nat, passphrase: string) returns (ok: bool)
      requires Valid() && i < ndevices && ds[i].luks
      modifies this`ds, this`refused, devices
      ensures Valid() && Views(ds) == Views(old(ds)) && |ds| == |old(ds)|
      ensures ok ==> ds[i].luks && ds[i].unlocked && ds[i].innerFs != ""
      ensures ds[i].mounted == old(ds)[i].mounted && old(refused) <= refused
      ensures ok ==> passphrase != "" && old(ds)[i].dmName != ""
      ensures refused == old(refused) && passphrase != "" && old(ds)[i].dmName != "" ==> ok
    {
      SameView(Views(ds), i);
      var d := devices[i];
      if passphrase == "" || d.dmName == "" {
        return false;
      }
      if !d.unlocked {
        var failed := Refused();
        if failed {
          return false;
        }
        d := d.(unlocked := true, openedByUs := true);
        Update(i, d);
      }
      if d.innerFs == "" {
        var failed := Refused();
        var inner: string := *;
        if failed || inner == "" {
          refused := refused + 1;   // nothing known was found inside
          CloseLuks(i, false, true);
          return false;
        }
        Update(i, d.(innerFs := inner));
      }
      ok := true;
    }

    /** mountd_do_mount. `mp` is the directory built from the caller's name and the label. */
    method DoMount(path: string, passphrase: string, mp: string) returns (ok: bool)
      requires Valid()
      modifies this`ds, this`refused, devices
      ensures Valid() && |ds| == |old(ds)|
      ensures ok ==> Sendable(Views(old(ds)), Mounted(path, mp)) && Views(ds) == Apply(Views(old(ds)), Mounted(path, mp))
      ensures ok ==> !Views(old(ds))[Find(Views(old(ds)), path)].mounted
      ensures ok ==> MayMount(ds[Find(Views(old(ds)), path)])
      ensures !ok ==> Views(ds) == Views(old(ds))
      ensures old(refused) <= refused
      ensures refused == old(refused) ==> (ok <==> Mountable(old(ds), ds, path, passphrase))
    {
      ok := false;
      var i := FindDevice(path);
      if i == ndevices || devices[i].mounted {
        return;
      }
      if devices[i].luks {
        var unlocked := Unlock(i, passphrase);
        if !unlocked {
          return;
        }
      }
      var d := devices[i];
      var fs := if d.luks then d.innerFs else d.fsType;
      if fs == "" {
        return;
      }
      if fs !in ALLOWED_FS {
        CloseLuks(i, false, true);
        return;
      }
      var noDirectory := Refused();   // or the caller is unknown
      if noDirectory {
        return;
      }
      var notMounted := Refused();
      if notMounted {
        CloseLuks(i, false, true);
        return;
      }
      Update(i, d.(mounted := true, mountPoint := mp));
      ok := true;
    }

    /** mountd_do_unmount */
    method DoUnmount(path: string) returns (ok: bool)
      requires Valid()
      modifies this`ds, this`refused, devices
      ensures Valid() && |ds| == |old(ds)|
      ensures ok ==> Sendable(Views(old(ds)), Unmounted(path)) && Views(ds) == Apply(Views(old(ds)), Unmounted(path))
      ensures ok ==> Views(old(ds))[Find(Views(old(ds)), path)].mounted
      ensures !ok ==> ds == old(ds)
      ensures old(refused) <= refused && (refused == old(refused) ==> (ok <==> ShownMounted(Views(old(ds)), path)))
      ensures ok && refused == old(refused) ==> !ds[Find(Views(old(ds)), path)].openedByUs
    {
      ok := false;
      var i := FindDevice(path);
      if i == ndevices || !devices[i].mounted {
        return;
      }
      var busy := Refused();
      if busy {
        return;
      }
      Update(i, devices[i].(mounted := false, mountPoint := ""));
      CloseLuks(i, true, false);
      ok := true;
    }

    /** mountd_do_eject */
    method DoEject(path: string) returns (ok: bool)
      requires Valid()
      modifies this`ndevices, this`ds, this`refused, devices
      ensures Valid()
      ensures old(refused) <= refused && (refused == old(refused) ==> (ok <==> Find(Views(old(ds)), path) < |old(ds)|))
      ensures ok ==> Announced(Views(old(ds)), Views(ds), [Unmounted(path), Removed(path)])
      ensures !ok ==>
        || Views(ds) == Views(old(ds))
        || (ShownMounted(Views(old(ds)), path) && Views(ds) == Apply(Views(old(ds)), Unmounted(path)))
    {
      ok := false;
      var i := FindDevice(path);
      if i == ndevices {
        return;
      }
      if devices[i].mounted {
        var gone := DoUnmount(path);
        if !gone {
          return;
        }
      }
      UnmountedAlready(old(ds), i);
      SamePaths(Views(ds), Views(old(ds)), path);
      CloseLuks(i, true, false);
      var stuck := Refused();
      if stuck {
        return;
      }
      RemoveDevice(path);
      TwoSignals(Views(old(ds)), Unmounted(path), Removed(path));
      ok := true;
    }

    // ---------- requests and events ----------

    /** What has been sent since `before`. */
    ghost function SentSince(before: seq<Signal>): seq<Signal>
      reads this
    {
      if before <= sent then sent[|before|..] else []
    }

    /** handle_mount: every change is announced. */
    method HandleMount(path: string, passphrase: string, mp: string) returns (ok: bool)
      requires Valid()
      modifies this`ds, this`sent, this`refused, devices
      ensures Valid() && old(sent) <= sent
      ensures Announced(Views(old(ds)), Views(ds), SentSince(old(sent)))
      ensures SentSince(old(sent)) == Signals(Mount(path), ok, mp)
      ensures refused == old(refused) ==> (ok <==> Mountable(old(ds), ds, path, passphrase))
    {
      ok := DoMount(path, passphrase, mp);
      if ok {
        OneSignal(Views(old(ds)), Mounted(path, mp));
        sent := sent + [Mounted(path, mp)];
      }
    }

    /** handle_unmount: every change is announced. */
    method HandleUnmount(path: string) returns (ok: bool)
      requires Valid()
      modifies this`ds, this`sent, this`refused, devices
      ensures Valid() && old(sent) <= sent
      ensures Announced(Views(old(ds)), Views(ds), SentSince(old(sent)))
      ensures SentSince(old(sent)) == Signals(Unmount(path), ok, "")
      ensures refused == old(refused) ==> (ok <==> ShownMounted(Views(old(ds)), path))
    {
      ok := DoUnmount(path);
      if ok {
        OneSignal(Views(old(ds)), Unmounted(path));
        sent := sent + [Unmounted(path)];
      }
    }

    /** handle_eject: every change is announced, unless the device was mounted before, is not mounted any
        more, and could not be ejected. */
    method HandleEject(path: string) returns (ok: bool)
      requires Valid()
      modifies this`ndevices, this`ds, this`sent, this`refused, devices
      ensures Valid() && old(sent) <= sent
      ensures SentSince(old(sent)) == Signals(Eject(path), ok, "")
      ensures refused == old(refused) ==> (ok <==> Find(Views(old(ds)), path) < |old(ds)|)
      ensures !ok ==>
        || Views(ds) == Views(old(ds))
        || (ShownMounted(Views(old(ds)), path) && Views(ds) == Apply(Views(old(ds)), Unmounted(path)))
      ensures Announced(Views(old(ds)), Views(ds), SentSince(old(sent))) <==>
        ok || !ShownMounted(Views(old(ds)), path) || ShownMounted(Views(ds), path)
    {
      ok := DoEject(path);
      if ok {
        sent := sent + [Unmounted(path), Removed(path)];
      } else {
        UnmountShows(Views(old(ds)), path);
      }
    }

    /** linux_monitor_dispatch for an accepted device: every change is announced, unless the daemon mounts the
        new device on its own. */
    method MonitorDispatch(action: string, removable: bool, path: string, name: string, vendor: string, fsType: string,
                           ejectable: bool, dmName: string, mp: string)
      requires Valid()
      modifies this`ndevices, this`ds, this`sent, this`refused, devices
      ensures Valid() && old(sent) <= sent
      ensures SentSince(old(sent)) == EventSignals(Views(old(ds)), action, removable, path, name, fsType)
      ensures var t := ApplyAll(Views(old(ds)), SentSince(old(sent)));
        || Views(ds) == t
        || (autoMount && action == "add" && fsType != "crypto_LUKS" && SentSince(old(sent)) != [] && Views(ds) == Apply(t, Mounted(path, mp)))
      ensures Announced(Views(old(ds)), Views(ds), SentSince(old(sent))) <==>
        SentSince(old(sent)) == [] || !ShownMounted(Views(ds), path)
      ensures refused == old(refused) && autoMount && action == "add" && SentSince(old(sent)) != [] && fsType in ALLOWED_FS ==>
        Views(ds) == Apply(ApplyAll(Views(old(ds)), SentSince(old(sent))), Mounted(path, mp))
      ensures action == "remove" ==> Find(Views(ds), path) == |ds|
      ensures (action == "add" || action == "change") && removable && |old(ds)| < MAX_DEVICES ==> Find(Views(ds), path) < |ds|
      ensures action != "remove" && (!removable || (action != "add" && action != "change")) ==> ds == old(ds)
      ensures !autoMount || action != "add" || !removable || fsType == "crypto_LUKS" ==>
        Announced(Views(old(ds)), Views(ds), SentSince(old(sent)))
    {
      hide Distinct, AllSound, AllSendable, ApplyAll, Apply, Find;
      NoSignal(Views(ds));
      if action == "add" || action == "change" {
        if removable {
          DeviceSeen(action, path, name, vendor, fsType, ejectable, dmName, mp);
        }
      } else if action == "remove" {
        DeviceGone(path);
      }
    }

    /** The part of the dispatch that takes a device away. */
    method DeviceGone(path: string)
      requires Valid()
      modifies this`ndevices, this`ds, this`sent, devices
      ensures Valid() && old(sent) <= sent
      ensures SentSince(old(sent)) == if Find(Views(old(ds)), path) < |old(ds)| then [Removed(path)] else []
      ensures Announced(Views(old(ds)), Views(ds), SentSince(old(sent)))
      ensures Find(Views(ds), path) == |ds|
    {
      hide Distinct, AllSound, AllSendable, ApplyAll;
      var i := FindDevice(path);
      NoSignal(Views(ds));
      if i < ndevices {
        CloseForRemoval(i);
        SamePaths(Views(ds), Views(old(ds)), path);
        RemovalForgetsMount(Views(old(ds)), i);
        OneSignal(Views(old(ds)), Removed(path));
        sent := sent + [Removed(path)];
        RemovedIsNotShown(Views(old(ds)), path);
        RemoveDevice(path);
      }
    }

    /** The part of the dispatch that adds a device. */
    method DeviceSeen(action: string, path: string, name: string, vendor: string, fsType: string,
                      ejectable: bool, dmName: string, mp: string)
      requires Valid() && (action == "add" || action == "change")
      modifies this`ndevices, this`ds, this`sent, this`refused, devices
      ensures Valid() && old(sent) <= sent
      ensures SentSince(old(sent)) == EventSignals(Views(old(ds)), action, true, path, name, fsType)
      ensures var t := ApplyAll(Views(old(ds)), SentSince(old(sent)));
        || (Views(ds) == t && (SentSince(old(sent)) == [] || !ShownMounted(Views(ds), path)))
        || (autoMount && action == "add" && fsType != "crypto_LUKS" && SentSince(old(sent)) != []
            && Views(ds) == Apply(t, Mounted(path, mp)) && Views(ds) != t && ShownMounted(Views(ds), path))
      ensures AllSendable(Views(old(ds)), SentSince(old(sent)))
      ensures refused == old(refused) && autoMount && action == "add" && SentSince(old(sent)) != [] && fsType in ALLOWED_FS ==>
        Views(ds) == Apply(ApplyAll(Views(old(ds)), SentSince(old(sent))), Mounted(path, mp))
      ensures |old(ds)| < MAX_DEVICES ==> Find(Views(ds), path) < |ds|
    {
      hide Distinct, AllSound, Apply, ApplyAll, AllSendable, Sendable, Find, ShownMounted, Mountable;
      NoSignal(Views(ds));
      KnownAlready(Views(ds), path, name, fsType);
      var luks := fsType == "crypto_LUKS";
      var ok := AddDevice(path, name, vendor, fsType, ejectable, luks, dmName);
      if ok {
        OneSignal(Views(old(ds)), Added(path, name, fsType));
        sent := sent + [Added(path, name, fsType)];
        ghost var added := Views(ds);
        AddedIsNotShown(Views(old(ds)), path, name, fsType);
        if action == "add" && autoMount && !luks {
          ghost var dsAdded := ds;
          var mounted := DoMount(path, "", mp);
          NewIsMountable(dsAdded, ds, path);
          if mounted {
            MountShows(added, path, mp);
          }
        }
      }
    }

    /** A device that is gone is locked, and no longer counts as mounted. */
    method CloseForRemoval(i: nat)
      requires Valid() && i < ndevices
      modifies this`ds, devices
      ensures Valid() && Views(ds) == SetMount(Views(old(ds)), i, false, "")
    {
      Update(i, devices[i].(mounted := false, mountPoint := ""));
    }
  }

  /** A mount that nobody is told about shows in the table. */
  lemma MountShows(t: Table, path: string, mp: string)
    requires Find(t, path) < |t| && !t[Find(t, path)].mounted
    ensures var u := Apply(t, Mounted(path, mp)); u != t && ShownMounted(u, path) && Find(u, path) < |u|
  {
    var u := Apply(t, Mounted(path, mp));
    SamePaths(t, u, path);
    assert u[Find(t, path)].mounted;
  }

  /** And so does an unmount. */
  lemma UnmountShows(t: Table, path: string)
    ensures ShownMounted(t, path) ==> Apply(t, Unmounted(path)) != t
    ensures !ShownMounted(Apply(t, Unmounted(path)), path)
  {
    var u := Apply(t, Unmounted(path));
    SamePaths(t, u, path);
    if Find(t, path) < |t| {
      assert !u[Find(t, path)].mounted;
    }
  }

  lemma AddedIsNotShown(t: Table, path: string, name: string, fsType: string)
    requires Sendable(t, Added(path, name, fsType))
    ensures var u := Apply(t, Added(path, name, fsType)); Find(u, path) == |t| && !ShownMounted(u, path)
  {
    var u := Apply(t, Added(path, name, fsType));
    FindFirst(u, path, |t|);
  }

  lemma KnownAlready(t: Table, path: string, name: string, fsType: string)
    ensures |t| < MAX_DEVICES && !Sendable(t, Added(path, name, fsType)) ==> Find(t, path) < |t|
  {
  }

  /** A new device that is not encrypted can be mounted if its type is allowed. */
  lemma NewIsMountable(before: seq<Device>, after: seq<Device>, path: string)
    requires before != [] && |after| == |before| && Find(Views(before), path) == |before| - 1
    requires var d := before[|before| - 1]; !d.mounted && !d.luks
    ensures Mountable(before, after, path, "") <==> before[|before| - 1].fsType in ALLOWED_FS
  {
  }

  lemma RemovedIsNotShown(t: Table, path: string)
    requires Distinct(t) && Find(t, path) < |t|
    ensures var u := Apply(t, Removed(path)); !ShownMounted(u, path) && Find(u, path) == |u|
  {
    var u := Apply(t, Removed(path));
    assert forall j :: 0 <= j < |u| ==> u[j].path != path;
  }

  lemma RemovalForgetsMount(t: Table, i: nat)
    requires i < |t|
    ensures RemoveAt(SetMount(t, i, false, ""), i) == RemoveAt(t, i)
  {
    SettledByRemoval(t, i, false, "");
  }

  lemma FindFirst(t: Table, path: string, i: nat)
    requires i <= |t| && (i < |t| ==> t[i].path == path) && forall j :: 0 <= j < i ==> t[j].path != path
    ensures Find(t, path) == i
  {
  }

  lemma AppendedView(ds: seq<Device>, d: Device)
    ensures Views(ds + [d]) == Views(ds) + [Project(d)]
  {
  }

  function WithoutEntry(ds: seq<Device>, i: nat): seq<Device>
    requires i < |ds|
  {
    var n := |ds| - 1;
    if i < n then ds[..n][i := ds[n]] else ds[..n]
  }

  lemma RemovedView(ds: seq<Device>, i: nat)
    requires i < |ds|
    ensures Views(WithoutEntry(ds, i)) == RemoveAt(Views(ds), i)
  {
  }

  lemma RemovedSound(ds: seq<Device>, i: nat)
    requires i < |ds| && AllSound(ds)
    ensures AllSound(WithoutEntry(ds, i))
  {
  }

  lemma UpdatedView(ds: seq<Device>, i: nat, d: Device)
    requires i < |ds| && d.path == ds[i].path && d.name == ds[i].name && d.fsType == ds[i].fsType
    ensures Views(ds[i := d]) == SetMount(Views(ds), i, d.mounted, d.mountPoint)
  {
  }

  lemma SameView(t: Table, i: nat)
    requires i < |t|
    ensures SetMount(t, i, t[i].mounted, t[i].mountPoint) == t
  {
  }

  /** Unmounting a device that is not mounted changes nothing. */
  lemma UnmountedAlready(ds: seq<Device>, i: nat)
    requires i < |ds| && AllSound(ds)
    ensures !ds[i].mounted ==> SetMount(Views(ds), i, false, "") == Views(ds)
  {
    SameView(Views(ds), i);
  }

  lemma TwoSignals(t: Table, a: Signal, b: Signal)
    ensures ApplyAll(t, [a, b]) == Apply(Apply(t, a), b)
    ensures AllSendable(t, [a, b]) <==> Sendable(t, a) && Sendable(Apply(t, a), b)
  {
    assert [a, b][1..] == [b];
    OneSignal(Apply(t, a), b);
  }

  lemma NoSignal(t: Table)
    ensures ApplyAll(t, []) == t && AllSendable(t, [])
  {
  }

  lemma OneSignal(t: Table, a: Signal)
    ensures ApplyAll(t, [a]) == Apply(t, a) && (AllSendable(t, [a]) <==> Sendable(t, a))
  {
    assert [a][1..] == [];
    assert ApplyAll(Apply(t, a), []) == Apply(t, a);
  }
}
