/** The taskbar: a linked list of groups, and the children of a box that must stay in step with it. */
module Taskbar {

  type Window = nat
  type Widget = nat

  class TaskGroup {
    const wmClass: string
    const button: Widget
    var pinned: bool
    var windows: seq<Window>
    var next: TaskGroup?

    constructor (wmClass: string, button: Widget)
      ensures this.wmClass == wmClass && this.button == button && !pinned && windows == [] && next == null
    {
      this.wmClass, this.button := wmClass, button;
      pinned, windows, next := false, [], null;
    }
  }

  // ---------- sequences ----------

  function Without<T>(s: seq<T>, i: nat): seq<T>
    requires i < |s|
  {
    s[..i] + s[i + 1..]
  }

  function Insert<T>(s: seq<T>, k: nat, x: T): seq<T>
    requires k <= |s|
  {
    s[..k] + [x] + s[k..]
  }

  function NodeAt(gs: seq<TaskGroup>, i: nat): TaskGroup? { if i < |gs| then gs[i] else null }

  /** `gs` is the list that starts at `head`. */
  ghost predicate Linked(head: TaskGroup?, gs: seq<TaskGroup>)
    reads gs`next
  {
    head == NodeAt(gs, 0) && forall i :: 0 <= i < |gs| ==> gs[i].next == NodeAt(gs, i + 1)
  }

  ghost predicate NoRepeat<T>(s: seq<T>) { forall i, j :: 0 <= i < j < |s| ==> s[i] != s[j] }

  ghost predicate PinnedFirst(gs: seq<TaskGroup>)
    reads gs`pinned
  {
    forall i, j :: 0 <= i < j < |gs| && gs[j].pinned ==> gs[i].pinned
  }

  /** The i-th child is the i-th group's button. */
  ghost predicate InStep(children: seq<Widget>, gs: seq<TaskGroup>) {
    |children| == |gs| && forall i :: 0 <= i < |gs| ==> children[i] == gs[i].button
  }

  ghost function Only(g: TaskGroup?): set<TaskGroup> { if g == null then {} else {g} }

  class Panel {
    var groups: TaskGroup?
    var children: seq<Widget>
    var nextWidget: Widget
    ghost var list: seq<TaskGroup>

    ghost predicate Valid()
      reads this, list
    {
      Linked(groups, list) && NoRepeat(list) && PinnedFirst(list) && Buttons()
    }

    ghost predicate Buttons()
      reads this
    {
      InStep(children, list) && NoRepeat(children) && forall i :: 0 <= i < |children| ==> children[i] < nextWidget
    }

    constructor ()
      ensures Valid() && list == [] && children == []
    {
      groups, children, nextWidget, list := null, [], 0, [];
    }

    // ---------- relinking: `prev` stands for the link the source moves along the list ----------

    function Follow(prev: TaskGroup?): TaskGroup?
      reads this`groups, if prev == null then {} else {prev}
    {
      if prev == null then groups else prev.next
    }

    ghost predicate Before(prev: TaskGroup?, i: nat)
      reads this`list
    {
      i <= |list| && prev == if i == 0 then null else list[i - 1]
    }

    /** Takes the group after `prev` out of the list. */
    method Unlink(prev: TaskGroup?, ghost i: nat)
      requires Linked(groups, list) && NoRepeat(list) && i < |list| && Before(prev, i)
      modifies this`groups, this`list, Only(prev)`next
      ensures list == Without(old(list), i) && Linked(groups, list) && NoRepeat(list)
    {
      hide NoRepeat, Without;
      OnlyOnce(list, i);
      RemovedOne(list, i);
      var g := Follow(prev);
      if prev == null {
        groups := g.next;
      } else {
        prev.next := g.next;
      }
      list := Without(list, i);
    }

    /** Puts a group that is in no list after `prev`. */
    method Link(prev: TaskGroup?, g: TaskGroup, ghost i: nat)
      requires Linked(groups, list) && NoRepeat(list) && Before(prev, i) && g !in list
      modifies this`groups, this`list, Only(prev)`next, g`next
      ensures list == Insert(old(list), i, g) && Linked(groups, list) && NoRepeat(list)
    {
      hide NoRepeat;
      OnlyOnce(list, i);
      Inserted(list, i, g);
      g.next := Follow(prev);
      if prev == null {
        groups := g;
      } else {
        prev.next := g;
      }
      list := Insert(list, i, g);
    }

    // ---------- the update after the window manager's list changed ----------

    /** group_add_window */
    method AddWindow(g: TaskGroup, w: Window)
      modifies g`windows
      ensures g.windows == if w in old(g.windows) then old(g.windows) else old(g.windows) + [w]
    {
      var i := 0;
      while i < |g.windows|
        invariant i <= |g.windows| && w !in g.windows[..i]
      {
        if g.windows[i] == w {
          return;
        }
        i := i + 1;
      }
      g.windows := g.windows + [w];
    }

    /** The first loop of taskbar_update. */
    method Clear()
      requires Linked(groups, list)
      modifies list`windows
      ensures forall g :: g in list ==> g.windows == []
    {
      var g := groups;
      ghost var k := 0;
      while g != null
        invariant k <= |list| && g == NodeAt(list, k) && forall i :: 0 <= i < k ==> list[i].windows == []
        decreases |list| - k
      {
        g.windows := [];
        g, k := g.next, k + 1;
      }
    }

    /** One eligible window finds its group, or gets a new one. */
    method Place(w: WindowInfo, ghost ws: seq<WindowInfo>)
      requires Valid() && w.shown && Placed(Views(list), ws)
      modifies this, list`next, list`windows
      ensures Valid() && Placed(Views(list), ws + [w]) && Added(old(list), list)
    {
      hide Linked, NoRepeat, InStep, PinnedFirst, Placed, Views;
      var g, k := FindGroup(w.cls);
      if g == null {
        PlaceNew(w, ws);
      } else {
        PlaceOld(g, w, ws, k);
      }
    }

    method PlaceOld(g: TaskGroup, w: WindowInfo, ghost ws: seq<WindowInfo>, ghost k: nat)
      requires Valid() && w.shown && Placed(Views(list), ws)
      requires k < |list| && list[k] == g && g.wmClass == w.cls && forall i :: 0 <= i < k ==> list[i].wmClass != w.cls
      modifies g`windows
      ensures Valid() && Placed(Views(list), ws + [w]) && g.windows != []
    {
      hide Placed, Views;
      ghost var vs := Views(list);
      AddToGroup(g, w.id, k);
      PlacedInOld(vs, ws, w, k);
    }

    method AddToGroup(g: TaskGroup, w: Window, ghost k: nat)
      requires Valid() && k < |list| && list[k] == g
      modifies g`windows
      ensures Valid() && Views(list) == old(Views(list))[k := WithWindow(old(Views(list))[k], w)] && g.windows != []
    {
      OnlyAt(list, k);
      hide Linked, NoRepeat, InStep, PinnedFirst, Views;
      AddWindow(g, w);
    }

    method PlaceNew(w: WindowInfo, ghost ws: seq<WindowInfo>)
      requires Valid() && w.shown && Placed(Views(list), ws)
      requires forall i :: 0 <= i < |list| ==> list[i].wmClass != w.cls
      modifies this, list`next
      ensures Valid() && Placed(Views(list), ws + [w])
      ensures |list| == |old(list)| + 1 && old(list) <= list && fresh(list[|old(list)|])
      ensures !list[|old(list)|].pinned && list[|old(list)|].windows != []
    {
      hide Linked, NoRepeat, InStep, PinnedFirst, Placed;
      ghost var was, vs := list, Views(list);
      var g := AddGroup(w.cls);
      AddWindow(g, w.id);
      assert g.windows == [w.id];
      assert Views(list) == vs + [GroupView(w.cls, [w.id])];
      PlacedInNew(vs, ws, w);
    }

    /** taskbar_update: `ws` is what the window manager lists, `shown` what belongs on this taskbar. */
    method Update(ws: seq<WindowInfo>) returns (ghost was: seq<TaskGroup>)
      requires Valid() && OneClassEach(ws)
      modifies this, list`next, list`windows
      ensures Valid() && Added(old(list), was) && list == Kept(was, Flags(was))
      ensures Shows(Views(list), Pins(list), ws)
    {
      hide Linked, NoRepeat, InStep, PinnedFirst, Placed, Views, Kept, Flags, Pins, Shows, OneClassEach;
      ClearAll();
      PlaceAll(ws);
      was := list;
      PruneAll(ws);
    }

    method ClearAll()
      requires Valid()
      modifies list`windows
      ensures Valid() && Placed(Views(list), [])
    {
      hide Linked, NoRepeat, InStep, PinnedFirst;
      Clear();
      NothingPlaced(list);
    }

    method PruneAll(ghost ws: seq<WindowInfo>)
      requires Valid() && Placed(Views(list), ws) && OneClassEach(ws)
      modifies this, list`next
      ensures Valid() && list == Kept(old(list), Flags(old(list)))
      ensures Shows(Views(list), Pins(list), ws)
    {
      hide Linked, NoRepeat, InStep, PinnedFirst, Placed, Views, Kept, Flags, Pins, Shows, OneClassEach;
      ghost var was, keep, vs, pins := list, Flags(list), Views(list), Pins(list);
      Prune();
      SameFlags(was, keep);
      KeptViews(was, keep);
      KeptShows(vs, pins, keep, ws);
    }

    /** The loop over the windows. */
    method PlaceAll(ws: seq<WindowInfo>)
      requires Valid() && Placed(Views(list), [])
      modifies this, list`next, list`windows
      ensures Valid() && Placed(Views(list), ws) && Added(old(list), list)
    {
      hide Linked, NoRepeat, InStep, PinnedFirst, Placed, Views;
      var i := 0;
      assert ws[..0] == [];
      while i < |ws|
        invariant i <= |ws| && Valid() && Placed(Views(list), ws[..i]) && Added(old(list), list)
      {
        assert ws[..i + 1] == ws[..i] + [ws[i]];
        if ws[i].shown {
          Place(ws[i], ws[..i]);
        } else {
          NotPlaced(Views(list), ws[..i], ws[i]);
        }
        i := i + 1;
      }
      assert ws[..i] == ws;
    }

    // ---------- groups come and go ----------

    /** taskbar_add_group: the group goes to the tail of the list, its button to the end of the box. */
    method AddGroup(cls: string) returns (g: TaskGroup)
      requires Valid()
      modifies this, list`next
      ensures Valid() && fresh(g) && list == old(list) + [g]
      ensures g.wmClass == cls && !g.pinned && g.windows == []
    {
      hide Linked, NoRepeat, InStep, PinnedFirst;
      g := new TaskGroup(cls, nextWidget);
      ButtonAppended(list, children, g);
      children := children + [nextWidget];
      nextWidget := nextWidget + 1;
      var prev, k := LastGroup();
      Link(prev, g, k);
      assert list == old(list) + [g];
      PinnedAppended(old(list), g);
    }

    /** The walk to the tail. */
    method LastGroup() returns (prev: TaskGroup?, ghost k: nat)
      requires Linked(groups, list)
      ensures Before(prev, k) && k == |list|
    {
      prev, k := null, 0;
      while Follow(prev) != null
        invariant Before(prev, k)
        decreases |list| - k
      {
        prev, k := Follow(prev), k + 1;
      }
    }

    /** taskbar_init, once the file of pinned classes is read. */
    method Init(classes: seq<string>)
      requires Valid() && list == []
      modifies this
      ensures Valid() && |list| == |classes| && fresh(list)
      ensures forall i :: 0 <= i < |list| ==> list[i].pinned && list[i].wmClass == classes[i] && list[i].windows == []
    {
      hide Linked, NoRepeat, InStep, PinnedFirst;
      var i := 0;
      while i < |classes|
        invariant i <= |classes| && Valid() && |list| == i && fresh(list)
        invariant forall j :: 0 <= j < i ==> list[j].pinned && list[j].wmClass == classes[j] && list[j].windows == []
      {
        AddPinned(classes[i]);
        i := i + 1;
      }
    }

    method AddPinned(cls: string)
      requires Valid() && forall i :: 0 <= i < |list| ==> list[i].pinned
      modifies this, list`next
      ensures Valid() && |list| == |old(list)| + 1 && list[..|old(list)|] == old(list) && fresh(list[|old(list)|])
      ensures list[|old(list)|].pinned && list[|old(list)|].wmClass == cls && list[|old(list)|].windows == []
    {
      hide Linked, NoRepeat, InStep;
      var g := AddGroup(cls);
      g.pinned := true;
    }

    /** The loop at the end of taskbar_update: unpinned groups without windows go, with their buttons. */
    method Prune()
      requires Valid()
      modifies this, list`next
      ensures Valid() && list == Kept(old(list), old(Flags(list)))
    {
      FlagsKeep(list);
      hide Linked, NoRepeat, InStep, PinnedFirst, Kept, Without, Flags, KeepIs;
      var prev: TaskGroup? := null;
      ghost var was, keep, kept := list, Flags(list), [];
      ghost var n := 0;
      KeptNone(was, keep);
      while Follow(prev) != null
        invariant Valid() && n <= |was| && list == kept + was[n..] && Before(prev, |kept|)
        invariant kept == Kept(was[..n], keep[..n])
        invariant prev != null ==> prev in was
        invariant KeepIs(was, keep)
        decreases |was| - n
      {
        FollowIs(prev, |kept|);
        KeptNext(was, keep, n);
        KeepAt(was, keep, n);
        prev := Visit(prev, was, n, kept, keep[n]);
        kept := if keep[n] then kept + [was[n]] else kept;
        n := n + 1;
      }
      FollowIs(prev, |kept|);
      assert n == |was| && was[..n] == was && keep[..n] == keep;
    }

    /** One turn: `kept` has been passed, `was[n..]` is to come. */
    method Visit(prev: TaskGroup?, ghost was: seq<TaskGroup>, ghost n: nat, ghost kept: seq<TaskGroup>, ghost keep: bool)
      returns (at: TaskGroup?)
      requires Valid() && n < |was| && list == kept + was[n..] && Before(prev, |kept|)
      requires keep == (was[n].windows != [] || was[n].pinned)
      modifies this, Only(prev)`next
      ensures Valid() && (at == prev || at == was[n])
      ensures keep ==> list == kept + [was[n]] + was[n + 1..] && Before(at, |kept| + 1)
      ensures !keep ==> list == kept + was[n + 1..] && Before(at, |kept|)
    {
      FollowIs(prev, |kept|);
      Split(kept, was, n);
      hide Linked, NoRepeat, InStep, PinnedFirst, Without;
      var g := Follow(prev);
      if g.windows == [] && !g.pinned {
        Remove(prev, g, |kept|);
        at := prev;
      } else {
        at := g;
      }
    }

    method Remove(prev: TaskGroup?, g: TaskGroup, ghost i: nat)
      requires Valid() && i < |list| && list[i] == g && Before(prev, i)
      modifies this, Only(prev)`next
      ensures Valid() && list == Without(old(list), i)
    {
      hide Linked, NoRepeat, InStep, Without;
      ghost var was := list;
      RemoveButton(list, g, i);
      Unlink(prev, i);
      assert forall j :: 0 <= j < |was| ==> was[j].pinned == old(was[j].pinned);
      PinnedWithout(was, i);
    }

    method RemoveButton(ghost gs: seq<TaskGroup>, g: TaskGroup, ghost i: nat)
      requires InStep(children, gs) && NoRepeat(children) && i < |gs| && gs[i] == g
      requires forall c :: 0 <= c < |children| ==> children[c] < nextWidget
      modifies this`children
      ensures InStep(children, Without(gs, i)) && NoRepeat(children)
      ensures forall c :: 0 <= c < |children| ==> children[c] < nextWidget
    {
      hide NoRepeat, InStep, Without;
      ButtonsWithout(gs, children, i);
      var cur := DestroyWidget(g.button);
      assert cur == i;
      forall c | 0 <= c < |children|
        ensures children[c] < nextWidget
      {
        assert children[c] in old(children);
      }
    }

    lemma FollowIs(prev: TaskGroup?, i: nat)
      requires Linked(groups, list) && Before(prev, i)
      ensures Follow(prev) == NodeAt(list, i)
    {
    }

    /** A destroyed widget leaves the box. */
    method DestroyWidget(child: Widget) returns (cur: nat)
      requires child in children
      modifies this`children
      ensures cur < |old(children)| && old(children)[cur] == child && children == Without(old(children), cur)
    {
      cur := 0;
      while children[cur] != child
        invariant cur < |children| && forall i :: 0 <= i < cur ==> children[i] != child
        decreases |children| - cur
      {
        cur := cur + 1;
      }
      children := Without(children, cur);
    }

    // ---------- pin and unpin ----------

    /** pin_callback: the group goes to the end of the pinned ones, its button with it, and the
        others keep their order. */
    method TogglePin(g: TaskGroup) returns (ghost i: nat, ghost k: nat)
      requires Valid() && g in list
      modifies this`groups, this`list, this`children, list`next, g`pinned
      ensures Valid() && g.pinned == !old(g.pinned)
      ensures i < |old(list)| && old(list)[i] == g && k < |old(list)|
      ensures list == Insert(Without(old(list), i), k, g)
      ensures forall j :: 0 <= j < |list| ==> list[j].pinned == (j < k || (j == k && g.pinned))
    {
      hide Linked, NoRepeat, InStep, Insert, Without;
      FlipPin(g);
      i, k := MoveGroup(g);
      var n := CountPinned();
      CountIs(list, n, k, g.pinned);
      var target := if g.pinned then n - 1 else n;
      MoveButton(old(list), g, i, k, target);
    }

    method FlipPin(g: TaskGroup)
      requires PinnedFirst(list)
      modifies g`pinned
      ensures g.pinned == !old(g.pinned) && PinnedFirstBut(list, g)
    {
      g.pinned := !g.pinned;
    }

    method MoveButton(ghost was: seq<TaskGroup>, g: TaskGroup, ghost i: nat, ghost k: nat, target: nat)
      requires InStep(children, was) && NoRepeat(children) && i < |was| && was[i] == g && k == target < |was|
      requires forall c :: 0 <= c < |children| ==> children[c] < nextWidget
      modifies this`children
      ensures InStep(children, Insert(Without(was, i), k, g)) && NoRepeat(children)
      ensures forall c :: 0 <= c < |children| ==> children[c] < nextWidget
    {
      assert children[i] == g.button;
      var cur := MoveChildTo(g.button, target);
      assert cur == i;
      ButtonsFollow(was, old(children), i, k);
      forall c | 0 <= c < |children|
        ensures children[c] < nextWidget
      {
        assert children[c] in old(children);
      }
    }

    /** Unlinks a group and links it in again after the pinned ones. */
    method MoveGroup(g: TaskGroup) returns (ghost i: nat, ghost k: nat)
      requires Linked(groups, list) && NoRepeat(list) && g in list && PinnedFirstBut(list, g)
      modifies this`groups, this`list, list`next
      ensures Linked(groups, list) && NoRepeat(list)
      ensures i < |old(list)| && old(list)[i] == g && k < |old(list)|
      ensures list == Insert(Without(old(list), i), k, g) && |list| == |old(list)|
      ensures forall j :: 0 <= j < |list| ==> list[j].pinned == (j < k || (j == k && g.pinned))
    {
      hide Linked, NoRepeat, Insert;
      var prev, at;
      prev, i := FindBefore(g);
      Unlink(prev, i);
      NotInRest(old(list), i);
      at, k := AfterPinned();
      Link(at, g, k);
      TogglePlaced(old(list), i, k, g);
    }

    // ---------- lookup ----------

    /** taskbar_find_group */
    method FindGroup(cls: string) returns (g: TaskGroup?, ghost k: nat)
      requires Linked(groups, list)
      ensures k <= |list| && g == NodeAt(list, k) && (g != null ==> g.wmClass == cls)
      ensures forall i :: 0 <= i < k ==> list[i].wmClass != cls
    {
      g, k := groups, 0;
      while g != null && g.wmClass != cls
        invariant k <= |list| && g == NodeAt(list, k) && forall i :: 0 <= i < k ==> list[i].wmClass != cls
        decreases |list| - k
      {
        g, k := g.next, k + 1;
      }
    }

    /** count_pinned */
    method CountPinned() returns (n: nat)
      requires Linked(groups, list) && PinnedFirst(list)
      ensures n <= |list| && forall i :: 0 <= i < |list| ==> list[i].pinned == (i < n)
    {
      hide PinnedFirst;
      n := 0;
      var g := groups;
      ghost var k := 0;
      while g != null
        invariant k <= |list| && g == NodeAt(list, k)
        invariant (n == k || (n < k && !list[n].pinned)) && forall i :: 0 <= i < n ==> list[i].pinned
        decreases |list| - k
      {
        assert g == list[k];
        if n < k {
          UnpinnedFollows(list, n, k);
        }
        if g.pinned {
          n := n + 1;
        }
        g, k := g.next, k + 1;
      }
      forall i | n < i < |list|
        ensures !list[i].pinned
      {
        UnpinnedFollows(list, n, i);
      }
    }

    /** The end of the pinned groups: the walk before an insertion. */
    method AfterPinned() returns (prev: TaskGroup?, ghost k: nat)
      requires Linked(groups, list)
      ensures Before(prev, k) && (k < |list| ==> !list[k].pinned)
      ensures forall i :: 0 <= i < k ==> list[i].pinned
    {
      prev, k := null, 0;
      while Follow(prev) != null && Follow(prev).pinned
        invariant Before(prev, k) && forall i :: 0 <= i < k ==> list[i].pinned
        decreases |list| - k
      {
        prev, k := Follow(prev), k + 1;
      }
    }

    /** The walk to the link that holds `g`. */
    method FindBefore(g: TaskGroup) returns (prev: TaskGroup?, ghost k: nat)
      requires Linked(groups, list) && g in list
      ensures k < |list| && list[k] == g && Before(prev, k)
    {
      prev, k := null, 0;
      while Follow(prev) != g
        invariant k < |list| && Before(prev, k) && forall i :: 0 <= i < k ==> list[i] != g
        decreases |list| - k
      {
        prev, k := Follow(prev), k + 1;
      }
    }

    /** move_child_to: the children between the two positions shift by one. */
    method MoveChildTo(child: Widget, target: nat) returns (cur: nat)
      requires NoRepeat(children) && child in children && target < |children|
      modifies this`children
      ensures cur < |old(children)| && old(children)[cur] == child
      ensures children == Insert(Without(old(children), cur), target, child)
    {
      cur := 0;
      while children[cur] != child
        invariant cur < |children| && forall i :: 0 <= i < cur ==> children[i] != child
        decreases |children| - cur
      {
        cur := cur + 1;
      }
      if cur == target {
        Rotated(children, children, cur, target, child);
        return;
      }
      if cur < target {
        ShiftDown(cur, target);
      } else {
        ShiftUp(cur, target);
      }
      Rotated(old(children), children, cur, target, child);
      children := children[target := child];
    }

    method ShiftDown(cur: nat, target: nat)
      requires cur <= target < |children|
      modifies this`children
      ensures |children| == |old(children)|
      ensures forall j :: 0 <= j < |children| && j != target ==> children[j] == old(children)[if cur <= j < target then j + 1 else j]
    {
      var i := cur;
      while i < target
        invariant cur <= i <= target && |children| == |old(children)|
        invariant forall j :: 0 <= j < |children| ==> children[j] == old(children)[if cur <= j < i then j + 1 else j]
      {
        children := children[i := children[i + 1]];
        i := i + 1;
      }
    }

    method ShiftUp(cur: nat, target: nat)
      requires target <= cur < |children|
      modifies this`children
      ensures |children| == |old(children)|
      ensures forall j :: 0 <= j < |children| && j != target ==> children[j] == old(children)[if target < j <= cur then j - 1 else j]
    {
      var i := cur;
      while i > target
        invariant target <= i <= cur && |children| == |old(children)|
        invariant forall j :: 0 <= j < |children| ==> children[j] == old(children)[if i < j <= cur then j - 1 else j]
      {
        children := children[i := children[i - 1]];
        i := i - 1;
      }
    }
  }

  lemma OnlyOnce(gs: seq<TaskGroup>, i: nat)
    requires NoRepeat(gs) && i <= |gs|
    ensures forall j :: 0 <= j < |gs| && i > 0 && gs[j] == gs[i - 1] ==> j == i - 1
  {
  }

  lemma RemovedOne(gs: seq<TaskGroup>, i: nat)
    requires i < |gs| && NoRepeat(gs)
    ensures NoRepeat(Without(gs, i)) && |Without(gs, i)| == |gs| - 1
    ensures forall j :: 0 <= j < |gs| - 1 ==> Without(gs, i)[j] == gs[if j < i then j else j + 1]
  {
  }

  lemma Inserted(gs: seq<TaskGroup>, i: nat, g: TaskGroup)
    requires i <= |gs| && NoRepeat(gs) && g !in gs
    ensures NoRepeat(Insert(gs, i, g)) && |Insert(gs, i, g)| == |gs| + 1 && forall j :: 0 <= j < |gs| ==> gs[j] != g
    ensures forall j :: 0 <= j <= |gs| ==> Insert(gs, i, g)[j] == if j < i then gs[j] else if j == i then g else gs[j - 1]
  {
  }

  /** The pinned groups come first, leaving `g` aside. */
  ghost predicate PinnedFirstBut(gs: seq<TaskGroup>, g: TaskGroup)
    reads gs`pinned
  {
    forall i, j :: 0 <= i < j < |gs| && gs[i] != g && gs[j] != g && gs[j].pinned ==> gs[i].pinned
  }

  lemma UnpinnedFollows(gs: seq<TaskGroup>, n: nat, k: nat)
    requires PinnedFirst(gs) && n < k < |gs| && !gs[n].pinned
    ensures !gs[k].pinned
  {
  }

  lemma CountIs(gs: seq<TaskGroup>, n: nat, k: nat, p: bool)
    requires n <= |gs| && k < |gs| && forall j :: 0 <= j < |gs| ==> gs[j].pinned == (j < n)
    requires forall j :: 0 <= j < |gs| ==> gs[j].pinned == (j < k || (j == k && p))
    ensures n == if p then k + 1 else k
  {
    assert gs[k].pinned == p;
    assert k + 1 < |gs| ==> !gs[k + 1].pinned;
    assert k > 0 ==> gs[k - 1].pinned;
  }

  lemma NotInRest(gs: seq<TaskGroup>, i: nat)
    requires NoRepeat(gs) && i < |gs|
    ensures gs[i] !in Without(gs, i)
  {
  }

  lemma TogglePlaced(was: seq<TaskGroup>, i: nat, k: nat, g: TaskGroup)
    requires i < |was| && was[i] == g && k < |was| && NoRepeat(was) && PinnedFirstBut(was, g)
    requires var rest := Without(was, i);
      (forall j :: 0 <= j < k ==> rest[j].pinned) && (k < |rest| ==> !rest[k].pinned)
    ensures |Insert(Without(was, i), k, g)| == |was|
    ensures forall j :: 0 <= j < |was| ==> Insert(Without(was, i), k, g)[j].pinned == (j < k || (j == k && g.pinned))
  {
    var rest := Without(was, i);
    var now := Insert(rest, k, g);
    forall j | k <= j < |rest|
      ensures !rest[j].pinned
    {
      assert rest[k] == was[if k < i then k else k + 1] && rest[j] == was[if j < i then j else j + 1];
    }
    assert forall j :: 0 <= j < |was| ==> now[j] == if j < k then rest[j] else if j == k then g else rest[j - 1];
  }

  /** Where the element now at `j` was before the one at `i` went to `k`. */
  function Source(i: nat, k: nat, j: nat): nat {
    if j == k then i
    else
      var r := if j < k then j else j - 1;
      if r < i then r else r + 1
  }

  lemma MovedFrom<T>(s: seq<T>, i: nat, k: nat)
    requires i < |s| && k < |s|
    ensures var now := Insert(Without(s, i), k, s[i]);
      |now| == |s| && forall j :: 0 <= j < |s| ==> Source(i, k, j) < |s| && now[j] == s[Source(i, k, j)]
  {
  }

  lemma Rotated(was: seq<Widget>, now: seq<Widget>, cur: nat, target: nat, child: Widget)
    requires |now| == |was| && cur < |was| && target < |was| && was[cur] == child
    requires forall j :: 0 <= j < |was| && j != target ==>
      now[j] == was[if cur <= j < target then j + 1 else if target < j <= cur then j - 1 else j]
    ensures now[target := child] == Insert(Without(was, cur), target, child)
  {
    MovedFrom(was, cur, target);
    hide Insert, Without;
    forall j | 0 <= j < |was| && j != target
      ensures now[j] == was[Source(cur, target, j)]
    {
    }
  }

  lemma ButtonsFollow(gs: seq<TaskGroup>, ws: seq<Widget>, i: nat, k: nat)
    requires InStep(ws, gs) && NoRepeat(ws) && i < |gs| && k < |gs|
    ensures var now := Insert(Without(ws, i), k, ws[i]); InStep(now, Insert(Without(gs, i), k, gs[i])) && NoRepeat(now)
    ensures forall w :: w in Insert(Without(ws, i), k, ws[i]) ==> w in ws
  {
    hide Insert, Without;
    MovedFrom(gs, i, k);
    MovedFrom(ws, i, k);
    forall a, b | 0 <= a < b < |ws|
      ensures ws[Source(i, k, a)] != ws[Source(i, k, b)]
    {
      assert Source(i, k, a) != Source(i, k, b);
    }
  }

  /** Which groups have something to show. */
  ghost function Flags(gs: seq<TaskGroup>): (f: seq<bool>)
    reads gs`windows, gs`pinned
    ensures |f| == |gs| && forall i :: 0 <= i < |gs| ==> f[i] == (gs[i].windows != [] || gs[i].pinned)
  {
    if gs == [] then [] else Flags(gs[..|gs| - 1]) + [gs[|gs| - 1].windows != [] || gs[|gs| - 1].pinned]
  }

  ghost predicate KeepIs(gs: seq<TaskGroup>, keep: seq<bool>)
    reads gs`windows, gs`pinned
  {
    |keep| == |gs| && forall i :: 0 <= i < |gs| ==> keep[i] == (gs[i].windows != [] || gs[i].pinned)
  }

  lemma FlagsKeep(gs: seq<TaskGroup>)
    ensures KeepIs(gs, Flags(gs))
  {
  }

  lemma KeepAt(gs: seq<TaskGroup>, keep: seq<bool>, n: nat)
    requires KeepIs(gs, keep) && n < |gs|
    ensures n < |keep| && keep[n] == (gs[n].windows != [] || gs[n].pinned)
  {
  }

  lemma SameFlags(gs: seq<TaskGroup>, f: seq<bool>)
    requires |f| == |gs| && forall i :: 0 <= i < |gs| ==> f[i] == (gs[i].windows != [] || gs[i].pinned)
    ensures Flags(gs) == f
  {
  }

  /** The flagged ones, in the same order. */
  function Kept<T>(gs: seq<T>, keep: seq<bool>): seq<T>
    requires |gs| == |keep|
  {
    if gs == [] then []
    else
      var n := |gs| - 1;
      Kept(gs[..n], keep[..n]) + (if keep[n] then [gs[n]] else [])
  }

  lemma KeptNext(gs: seq<TaskGroup>, keep: seq<bool>, n: nat)
    requires |gs| == |keep| && n < |gs|
    ensures Kept(gs[..n + 1], keep[..n + 1]) == Kept(gs[..n], keep[..n]) + (if keep[n] then [gs[n]] else [])
  {
    assert gs[..n + 1][..n] == gs[..n] && keep[..n + 1][..n] == keep[..n];
  }

  lemma ButtonsWithout(gs: seq<TaskGroup>, ws: seq<Widget>, i: nat)
    requires InStep(ws, gs) && NoRepeat(ws) && i < |gs|
    ensures InStep(Without(ws, i), Without(gs, i)) && NoRepeat(Without(ws, i))
    ensures forall j :: 0 <= j < |ws| && ws[j] == gs[i].button ==> j == i
    ensures |ws| == |gs| && ws[i] == gs[i].button && forall w :: w in Without(ws, i) ==> w in ws
  {
  }

  lemma PinnedWithout(gs: seq<TaskGroup>, i: nat)
    requires PinnedFirst(gs) && i < |gs|
    ensures PinnedFirst(Without(gs, i))
  {
  }

  lemma PinnedAppended(gs: seq<TaskGroup>, g: TaskGroup)
    requires PinnedFirst(gs) && !g.pinned
    ensures PinnedFirst(gs + [g])
  {
  }

  lemma ButtonAppended(gs: seq<TaskGroup>, ws: seq<Widget>, g: TaskGroup)
    requires InStep(ws, gs) && NoRepeat(ws) && g.button !in ws
    ensures InStep(ws + [g.button], gs + [g]) && NoRepeat(ws + [g.button])
  {
  }

  lemma KeptNone(gs: seq<TaskGroup>, keep: seq<bool>)
    requires |gs| == |keep|
    ensures Kept(gs[..0], keep[..0]) == [] && gs == [] + gs[0..]
  {
  }

  lemma Split(kept: seq<TaskGroup>, was: seq<TaskGroup>, n: nat)
    requires n <= |was|
    ensures n < |was| ==> (kept + was[n..])[|kept|] == was[n]
    ensures n < |was| ==> Without(kept + was[n..], |kept|) == kept + was[n + 1..]
    ensures n < |was| ==> kept + was[n..] == kept + [was[n]] + was[n + 1..]
  {
  }

  // ---------- which window is where ----------

  /** Nothing left the list, and what came is new, at the end, and not pinned. */
  twostate predicate Added(was: seq<TaskGroup>, new now: seq<TaskGroup>)
    reads now`pinned
  {
    was <= now && forall i :: |was| <= i < |now| ==> fresh(now[i]) && !now[i].pinned
  }

  datatype WindowInfo = WindowInfo(id: Window, shown: bool, cls: string)

  datatype GroupView = GroupView(cls: string, windows: seq<Window>)

  ghost function Views(gs: seq<TaskGroup>): (vs: seq<GroupView>)
    reads gs`windows
    ensures |vs| == |gs| && forall i :: 0 <= i < |gs| ==> vs[i] == GroupView(gs[i].wmClass, gs[i].windows)
  {
    if gs == [] then []
    else Views(gs[..|gs| - 1]) + [GroupView(gs[|gs| - 1].wmClass, gs[|gs| - 1].windows)]
  }

  /** The first group of a class: where its windows go. */
  predicate First(vs: seq<GroupView>, i: nat, cls: string) {
    i < |vs| && vs[i].cls == cls && forall k :: 0 <= k < i ==> vs[k].cls != cls
  }

  predicate Listed(ws: seq<WindowInfo>, v: GroupView, w: Window) {
    exists j :: 0 <= j < |ws| && ws[j] == WindowInfo(w, true, v.cls)
  }

  predicate Has(vs: seq<GroupView>, i: nat, w: WindowInfo) { First(vs, i, w.cls) && w.id in vs[i].windows }

  /** The eligible windows so far are in the first groups of their classes, and nothing else is anywhere. */
  ghost predicate Placed(vs: seq<GroupView>, ws: seq<WindowInfo>) {
    AllPlaced(vs, ws) && OnlyPlaced(vs, ws) && forall i :: 0 <= i < |vs| ==> NoRepeat(vs[i].windows)
  }

  ghost predicate AllPlaced(vs: seq<GroupView>, ws: seq<WindowInfo>) {
    forall j :: 0 <= j < |ws| && ws[j].shown ==> exists i: nat :: Has(vs, i, ws[j])
  }

  ghost predicate OnlyPlaced(vs: seq<GroupView>, ws: seq<WindowInfo>) {
    forall i, w :: 0 <= i < |vs| && w in vs[i].windows ==> First(vs, i, vs[i].cls) && Listed(ws, vs[i], w)
  }

  function WithWindow(v: GroupView, w: Window): GroupView {
    if w in v.windows then v else v.(windows := v.windows + [w])
  }

  lemma ListedLonger(ws: seq<WindowInfo>, w: WindowInfo, v: GroupView, x: Window)
    ensures Listed(ws, v, x) ==> Listed(ws + [w], v, x)
    ensures w.shown && w.cls == v.cls ==> Listed(ws + [w], v, w.id)
  {
    if Listed(ws, v, x) {
      var j :| 0 <= j < |ws| && ws[j] == WindowInfo(x, true, v.cls);
      assert (ws + [w])[j] == ws[j];
    }
    assert (ws + [w])[|ws|] == w;
  }

  lemma SameFirst(vs: seq<GroupView>, us: seq<GroupView>, i: nat, cls: string)
    requires |us| == |vs| && forall k :: 0 <= k < |vs| ==> us[k].cls == vs[k].cls
    ensures First(us, i, cls) == First(vs, i, cls)
  {
  }

  lemma PlacedInOld(vs: seq<GroupView>, ws: seq<WindowInfo>, w: WindowInfo, k: nat)
    requires Placed(vs, ws) && w.shown && First(vs, k, w.cls)
    ensures Placed(vs[k := WithWindow(vs[k], w.id)], ws + [w])
  {
    var us := vs[k := WithWindow(vs[k], w.id)];
    hide AllPlaced, OnlyPlaced, NoRepeat, First;
    AllStillHave(vs, us, ws, w, k);
    OnlyStill(vs, us, ws, w, k);
    NoRepeatAfter(vs[k], w.id);
  }

  lemma OnlyStill(vs: seq<GroupView>, us: seq<GroupView>, ws: seq<WindowInfo>, w: WindowInfo, k: nat)
    requires OnlyPlaced(vs, ws) && w.shown && First(vs, k, w.cls) && us == vs[k := WithWindow(vs[k], w.id)]
    ensures OnlyPlaced(us, ws + [w])
  {
    hide First;
    SameClass(vs, k, w.cls);
    forall i, x | 0 <= i < |us| && x in us[i].windows
      ensures First(us, i, us[i].cls) && Listed(ws + [w], us[i], x)
    {
      SameFirst(vs, us, i, us[i].cls);
      ListedLonger(ws, w, us[i], x);
      SameListed(ws, us[i], vs[i], x);
      assert x in vs[i].windows || (i == k && x == w.id);
    }
  }

  lemma SameClass(vs: seq<GroupView>, k: nat, cls: string)
    requires First(vs, k, cls)
    ensures k < |vs| && vs[k].cls == cls
  {
  }

  lemma SameListed(ws: seq<WindowInfo>, v: GroupView, u: GroupView, x: Window)
    requires v.cls == u.cls
    ensures Listed(ws, v, x) == Listed(ws, u, x)
  {
  }

  lemma AllStillHave(vs: seq<GroupView>, us: seq<GroupView>, ws: seq<WindowInfo>, w: WindowInfo, k: nat)
    requires First(vs, k, w.cls) && us == vs[k := WithWindow(vs[k], w.id)]
    requires AllPlaced(vs, ws)
    ensures AllPlaced(us, ws + [w])
  {
    var xs := ws + [w];
    forall j | 0 <= j < |xs| && xs[j].shown
      ensures exists i: nat :: Has(us, i, xs[j])
    {
      if j < |ws| {
        var i: nat :| Has(vs, i, ws[j]);
        SameFirst(vs, us, i, ws[j].cls);
        assert Has(us, i, xs[j]);
      } else {
        SameFirst(vs, us, k, w.cls);
        assert Has(us, k, xs[j]);
      }
    }
  }

  lemma NoRepeatAfter(v: GroupView, w: Window)
    requires NoRepeat(v.windows)
    ensures NoRepeat(WithWindow(v, w).windows)
  {
  }

  lemma OnlyAt(gs: seq<TaskGroup>, k: nat)
    requires NoRepeat(gs) && k < |gs|
    ensures forall i :: 0 <= i < |gs| && gs[i] == gs[k] ==> i == k
  {
  }

  lemma PlacedInNew(vs: seq<GroupView>, ws: seq<WindowInfo>, w: WindowInfo)
    requires Placed(vs, ws) && w.shown && forall i :: 0 <= i < |vs| ==> vs[i].cls != w.cls
    ensures Placed(vs + [GroupView(w.cls, [w.id])], ws + [w])
  {
    var us := vs + [GroupView(w.cls, [w.id])];
    AllStillHaveInNew(vs, us, ws, w);
    OnlyStillInNew(vs, us, ws, w);
  }

  lemma AllStillHaveInNew(vs: seq<GroupView>, us: seq<GroupView>, ws: seq<WindowInfo>, w: WindowInfo)
    requires AllPlaced(vs, ws) && us == vs + [GroupView(w.cls, [w.id])] && forall i :: 0 <= i < |vs| ==> vs[i].cls != w.cls
    ensures AllPlaced(us, ws + [w])
  {
    var xs := ws + [w];
    forall j | 0 <= j < |xs| && xs[j].shown
      ensures exists i: nat :: Has(us, i, xs[j])
    {
      if j < |ws| {
        var i: nat :| Has(vs, i, ws[j]);
        assert Has(us, i, xs[j]);
      } else {
        assert Has(us, |vs|, xs[j]);
      }
    }
  }

  lemma OnlyStillInNew(vs: seq<GroupView>, us: seq<GroupView>, ws: seq<WindowInfo>, w: WindowInfo)
    requires OnlyPlaced(vs, ws) && w.shown && us == vs + [GroupView(w.cls, [w.id])]
    requires forall i :: 0 <= i < |vs| ==> vs[i].cls != w.cls
    ensures OnlyPlaced(us, ws + [w])
  {
    forall i, x | 0 <= i < |us| && x in us[i].windows
      ensures First(us, i, us[i].cls) && Listed(ws + [w], us[i], x)
    {
      assert i < |vs| ==> us[i] == vs[i] && First(vs, i, vs[i].cls);
      ListedLonger(ws, w, us[i], x);
    }
  }

  /** A window has one class, however often it is listed. */
  predicate OneClassEach(ws: seq<WindowInfo>) {
    forall j, k :: 0 <= j < |ws| && 0 <= k < |ws| && ws[j].id == ws[k].id ==> ws[j].cls == ws[k].cls
  }

  predicate Belongs(v: GroupView, w: WindowInfo) { v.cls == w.cls && w.id in v.windows }

  /** Every eligible window is in exactly one group, once, and of its own class; nothing else is shown,
      and only pinned groups are empty. */
  ghost predicate Shows(vs: seq<GroupView>, pins: seq<bool>, ws: seq<WindowInfo>) {
    && AllShown(vs, ws) && OnlyListed(vs, ws) && OneGroupEach(vs) && EmptyOnlyPinned(vs, pins)
    && (forall i :: 0 <= i < |vs| ==> NoRepeat(vs[i].windows))
  }

  predicate AllShown(vs: seq<GroupView>, ws: seq<WindowInfo>) {
    forall j :: 0 <= j < |ws| && ws[j].shown ==> exists i :: 0 <= i < |vs| && Belongs(vs[i], ws[j])
  }

  predicate OnlyListed(vs: seq<GroupView>, ws: seq<WindowInfo>) {
    forall i :: 0 <= i < |vs| ==> forall w :: w in vs[i].windows ==> Listed(ws, vs[i], w)
  }

  predicate OneGroupEach(vs: seq<GroupView>) {
    forall i, k :: 0 <= i < |vs| && 0 <= k < |vs| && i != k ==> forall w :: w in vs[i].windows ==> w !in vs[k].windows
  }

  predicate EmptyOnlyPinned(vs: seq<GroupView>, pins: seq<bool>) {
    |pins| == |vs| && forall i :: 0 <= i < |vs| && vs[i].windows == [] ==> pins[i]
  }

  ghost function Pins(gs: seq<TaskGroup>): (f: seq<bool>)
    reads gs`pinned
    ensures |f| == |gs| && forall i :: 0 <= i < |gs| ==> f[i] == gs[i].pinned
  {
    if gs == [] then [] else Pins(gs[..|gs| - 1]) + [gs[|gs| - 1].pinned]
  }

  lemma NothingPlaced(gs: seq<TaskGroup>)
    requires forall i :: 0 <= i < |gs| ==> gs[i].windows == []
    ensures Placed(Views(gs), [])
  {
    hide Views;
    var vs := Views(gs);
    assert forall i :: 0 <= i < |vs| ==> vs[i].windows == [];
  }

  lemma NotPlaced(vs: seq<GroupView>, ws: seq<WindowInfo>, w: WindowInfo)
    requires Placed(vs, ws) && !w.shown
    ensures Placed(vs, ws + [w])
  {
    var xs := ws + [w];
    forall j | 0 <= j < |xs| && xs[j].shown
      ensures exists i: nat :: Has(vs, i, xs[j])
    {
      assert xs[j] == ws[j];
    }
    forall i, x | 0 <= i < |vs| && x in vs[i].windows
      ensures Listed(xs, vs[i], x)
    {
      ListedLonger(ws, w, vs[i], x);
    }
  }

  function Count(keep: seq<bool>): nat {
    if keep == [] then 0 else Count(keep[..|keep| - 1]) + if keep[|keep| - 1] then 1 else 0
  }

  /** Where the `i`-th kept element was. */
  function Pos(keep: seq<bool>, i: nat): (p: nat)
    requires i < Count(keep)
    ensures p < |keep| && keep[p]
  {
    var n := |keep| - 1;
    if keep[n] && i == Count(keep[..n]) then n else Pos(keep[..n], i)
  }

  lemma {:induction false} KeptAt<T>(s: seq<T>, keep: seq<bool>)
    requires |s| == |keep|
    ensures |Kept(s, keep)| == Count(keep) && forall i :: 0 <= i < Count(keep) ==> Kept(s, keep)[i] == s[Pos(keep, i)]
  {
    if s != [] {
      KeptAt(s[..|s| - 1], keep[..|s| - 1]);
    }
  }

  lemma {:induction false} PosIncreases(keep: seq<bool>, i: nat, k: nat)
    requires i < k < Count(keep)
    ensures Pos(keep, i) < Pos(keep, k)
  {
    var n := |keep| - 1;
    if k < Count(keep[..n]) {
      PosIncreases(keep[..n], i, k);
    }
  }

  lemma {:induction false} KeptHas(keep: seq<bool>, p: nat) returns (i: nat)
    requires p < |keep| && keep[p]
    ensures i < Count(keep) && Pos(keep, i) == p
  {
    var n := |keep| - 1;
    if p == n {
      i := Count(keep[..n]);
    } else {
      i := KeptHas(keep[..n], p);
    }
  }

  lemma KeptViews(gs: seq<TaskGroup>, keep: seq<bool>)
    requires |gs| == |keep|
    ensures Views(Kept(gs, keep)) == Kept(Views(gs), keep) && Pins(Kept(gs, keep)) == Kept(Pins(gs), keep)
  {
    hide Kept, Views, Pins;
    KeptAt(gs, keep);
    KeptAt(Views(gs), keep);
    KeptAt(Pins(gs), keep);
  }

  lemma KeptShows(vs: seq<GroupView>, pins: seq<bool>, keep: seq<bool>, ws: seq<WindowInfo>)
    requires |keep| == |vs| == |pins| && forall i :: 0 <= i < |vs| ==> keep[i] == (vs[i].windows != [] || pins[i])
    requires Placed(vs, ws) && OneClassEach(ws)
    ensures Shows(Kept(vs, keep), Kept(pins, keep), ws)
  {
    hide Kept, Pos, Placed, OneClassEach, NoRepeat;
    var us := Kept(vs, keep);
    KeptAt(vs, keep);
    KeptAt(pins, keep);
    forall j | 0 <= j < |ws| && ws[j].shown
      ensures exists i :: 0 <= i < |us| && Belongs(us[i], ws[j])
    {
      var p := PlaceOf(vs, ws, j);
      var i := KeptHas(keep, p);
      assert Belongs(us[i], ws[j]);
    }
    forall i | 0 <= i < |us|
      ensures NoRepeat(us[i].windows) && forall w :: w in us[i].windows ==> Listed(ws, us[i], w)
    {
      PlacedAt(vs, ws, Pos(keep, i));
    }
    forall i, k, w | 0 <= i < |us| && 0 <= k < |us| && i != k && w in us[i].windows
      ensures w !in us[k].windows
    {
      if i < k { PosIncreases(keep, i, k); } else { PosIncreases(keep, k, i); }
      if w in us[k].windows {
        SameGroup(vs, ws, Pos(keep, i), Pos(keep, k), w);
      }
    }
  }

  lemma PlaceOf(vs: seq<GroupView>, ws: seq<WindowInfo>, j: nat) returns (i: nat)
    requires Placed(vs, ws) && j < |ws| && ws[j].shown
    ensures i < |vs| && Belongs(vs[i], ws[j])
  {
    i :| Has(vs, i, ws[j]);
  }

  lemma PlacedAt(vs: seq<GroupView>, ws: seq<WindowInfo>, i: nat)
    requires Placed(vs, ws) && i < |vs|
    ensures NoRepeat(vs[i].windows) && forall w :: w in vs[i].windows ==> Listed(ws, vs[i], w)
  {
  }

  lemma SameGroup(vs: seq<GroupView>, ws: seq<WindowInfo>, a: nat, b: nat, w: Window)
    requires Placed(vs, ws) && OneClassEach(ws) && a < |vs| && b < |vs| && w in vs[a].windows && w in vs[b].windows
    ensures a == b
  {
    assert Listed(ws, vs[a], w) && Listed(ws, vs[b], w);
    var j :| 0 <= j < |ws| && ws[j] == WindowInfo(w, true, vs[a].cls);
    var k :| 0 <= k < |ws| && ws[k] == WindowInfo(w, true, vs[b].cls);
    assert First(vs, a, vs[a].cls) && First(vs, b, vs[b].cls);
  }
}
