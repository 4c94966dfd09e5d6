/** The display manager's event loop: X server, greeter, session, lock, and the greeter's socket. */
module DisplayManager {
  import opened Paths
  import opened Framing

  /** The signals that tell other programs about the session. */
  datatype Event = Started(user: string) | Ended(user: string) | Locked | Unlocked

  function LockedAfter(h: seq<Event>): bool {
    if h == [] then false
    else match h[|h| - 1]
      case Locked => true
      case Unlocked => false
      case Ended(_) => false
      case Started(_) => LockedAfter(h[..|h| - 1])
  }

  function UserAfter(h: seq<Event>): Option<string> {
    if h == [] then None
    else match h[|h| - 1]
      case Started(u) => Some(u)
      case Ended(_) => None
      case _ => UserAfter(h[..|h| - 1])
  }

  /** Locking, unlocking and ending happen only when there is something to lock, unlock or end. */
  predicate Orderly(h: seq<Event>) {
    forall k :: 0 <= k < |h| ==> Allowed(h[..k], h[k])
  }

  predicate Allowed(h: seq<Event>, e: Event) {
    match e
    case Locked => !LockedAfter(h) && UserAfter(h).Some?
    case Unlocked => LockedAfter(h)
    case Ended(u) => UserAfter(h) == Some(u)
    case Started(_) => !LockedAfter(h)
  }

  lemma Appended(h: seq<Event>, e: Event)
    requires Orderly(h) && Allowed(h, e)
    ensures Orderly(h + [e])
    ensures LockedAfter(h + [e]) == (if e.Started? then LockedAfter(h) else e == Locked)
    ensures UserAfter(h + [e]) == (if e.Started? then Some(e.user) else if e.Ended? then None else UserAfter(h))
  {
    var g := h + [e];
    assert g[..|h|] == h;
    forall k | 0 <= k < |g|
      ensures Allowed(g[..k], g[k])
    {
      assert k < |h| ==> g[..k] == h[..k];
    }
  }

  // ---------- what listeners may rely on ----------

  lemma {:induction false} LockedBecause(h: seq<Event>) returns (i: nat)
    requires LockedAfter(h)
    ensures i < |h| && h[i] == Locked && forall j :: i < j < |h| ==> h[j].Started?
    decreases |h|
  {
    if h[|h| - 1] == Locked {
      i := |h| - 1;
    } else {
      i := LockedBecause(h[..|h| - 1]);
    }
  }

  /** Between two Locked signals there is an Unlocked or a SessionEnded. */
  lemma LocksAreSeparated(h: seq<Event>, i: nat, k: nat)
    requires Orderly(h) && i < k < |h| && h[i] == Locked && h[k] == Locked
    ensures exists j :: i < j < k && (h[j] == Unlocked || h[j].Ended?)
  {
    assert Allowed(h[..k], h[k]);
    var j := LastLockEvent(h[..k], i);
  }

  lemma {:induction false} LastLockEvent(h: seq<Event>, i: nat) returns (j: nat)
    requires i < |h| && h[i] == Locked && !LockedAfter(h)
    ensures i < j < |h| && (h[j] == Unlocked || h[j].Ended?)
    decreases |h|
  {
    var n := |h| - 1;
    if h[n] == Unlocked || h[n].Ended? {
      j := n;
    } else {
      j := LastLockEvent(h[..n], i);
    }
  }

  /** Every Unlocked has a Locked before it, and the session does not end in between. */
  lemma UnlockHasLock(h: seq<Event>, k: nat)
    requires Orderly(h) && k < |h| && h[k] == Unlocked
    ensures exists i :: 0 <= i < k && h[i] == Locked && forall j :: i < j < k ==> h[j].Started?
  {
    assert Allowed(h[..k], h[k]);
    var i := LockedBecause(h[..k]);
    assert h[i] == Locked && forall j :: i < j < k ==> h[..k][j] == h[j];
  }

  /** No session starts while another one is locked. */
  lemma NoStartWhileLocked(h: seq<Event>, i: nat, k: nat)
    requires Orderly(h) && i < k < |h| && h[i] == Locked && h[k].Started?
    ensures exists j :: i < j < k && (h[j] == Unlocked || h[j].Ended?)
  {
    assert Allowed(h[..k], h[k]);
    var j := LastLockEvent(h[..k], i);
  }

  // ---------- the program's state ----------

  class Dm {
    const defaultSession: Option<string>
    const allowShutdown: bool
    const allowReboot: bool
    var xserverPid: nat
    var greeterPid: nat
    var sessionPid: nat
    var sessionUser: Option<string>
    var sessionDesktop: Option<string>
    var locked: bool
    var running: bool
    var clientOpen: bool
    var bufLen: int
    const buf: array<char>
    ghost var history: seq<Event>
    ghost var dispatched: seq<string>
    ghost var spawnFaults: nat        // forks that failed, and X servers that did not become ready
    ghost var faultsBefore: nat       // their number when the current iteration began
    ghost var refusals: nat           // sessions that could not start: no such user, or no such desktop file
    ghost var verdicts: seq<Verdict>  // what the password check was asked and answered
    ghost var born: set<nat>          // the processes made in the current iteration

    ghost predicate PidsDiffer()
      reads this`sessionPid, this`xserverPid, this`greeterPid
    {
      && (xserverPid == 0 || (xserverPid != greeterPid && xserverPid != sessionPid))
      && (greeterPid == 0 || greeterPid != sessionPid)
    }

    /** The session's state is what the signals sent so far say, and no two of our processes have the same id. */
    ghost predicate SessionInv()
      reads this`sessionPid, this`sessionUser, this`locked, this`history, this`xserverPid, this`greeterPid
    {
      && PidsDiffer()
      && (sessionPid != 0 <==> sessionUser.Some?)
      && (locked ==> sessionPid != 0)
      && locked == LockedAfter(history) && sessionUser == UserAfter(history)
      && Orderly(history)
    }

    ghost predicate BufInv()
      reads this`clientOpen, this`bufLen
    {
      buf.Length == MAX_MSG && (clientOpen ==> 0 <= bufLen < MAX_MSG) && bufLen < MAX_MSG
    }

    /** The bytes of the line that is not complete yet. */
    ghost function Pending(): string
      requires BufInv()
      reads this`clientOpen, this`bufLen, buf
    {
      if clientOpen then buf[..bufLen] else ""
    }

    /** Records only grow, and each process of ours is the one it was, gone, or new. */
    twostate predicate Onward()
      reads this
    {
      && old(spawnFaults) <= spawnFaults && old(refusals) <= refusals && old(born) <= born
      && old(verdicts) <= verdicts && old(history) <= history && faultsBefore == old(faultsBefore)
      && Kept(old(xserverPid), xserverPid, born) && Kept(old(greeterPid), greeterPid, born) && Kept(old(sessionPid), sessionPid, born)
    }

    /** The session, the lock and the greeter are as they were. */
    twostate predicate Quiet()
      reads this
    {
      && history == old(history) && sessionPid == old(sessionPid) && sessionUser == old(sessionUser)
      && locked == old(locked) && greeterPid == old(greeterPid)
    }

    /** fork: the kernel gives a child an id that no child has who was not waited for. */
    method Fork() returns (pid: nat)
      modifies this`spawnFaults, this`born
      ensures pid == 0 || pid !in {xserverPid, greeterPid, sessionPid}
      ensures spawnFaults == old(spawnFaults) + (if pid == 0 then 1 else 0)
      ensures born == old(born) + (if pid == 0 then {} else {pid})
    {
      pid := *;
      if pid in {0, xserverPid, greeterPid, sessionPid} {
        pid, spawnFaults := 0, spawnFaults + 1;
      } else {
        born := born + {pid};
      }
    }

    /** dm_greeter_start */
    method GreeterStart()
      requires PidsDiffer()
      modifies this`greeterPid, this`spawnFaults, this`born
      ensures PidsDiffer() && Onward()
      ensures greeterPid != 0 || spawnFaults > old(spawnFaults)
      ensures old(greeterPid) != 0 ==> greeterPid == old(greeterPid)
    {
      if greeterPid > 0 {
        return;
      }
      greeterPid := Fork();
    }

    /** dm_greeter_stop: the connection goes with the greeter. */
    method GreeterStop()
      requires PidsDiffer() && BufInv()
      modifies this`greeterPid, this`clientOpen, this`bufLen
      ensures PidsDiffer() && BufInv() && greeterPid == 0
      ensures old(greeterPid) == 0 ==> clientOpen == old(clientOpen) && bufLen == old(bufLen)
      ensures old(greeterPid) != 0 ==> !clientOpen && bufLen == if old(clientOpen) then 0 else old(bufLen)
    {
      if greeterPid == 0 {
        return;
      }
      greeterPid := 0;
      if clientOpen {
        clientOpen := false;
        bufLen := 0;
      }
    }

    /** The state is in order, and no complete line waits. */
    ghost predicate Sound()
      reads this, buf
    {
      SessionInv() && BufInv() && Lines(Pending()) == []
    }

    /** What holds between iterations. */
    ghost predicate Inv()
      reads this, buf
    {
      && Sound()
      && (running && spawnFaults == faultsBefore ==> xserverPid != 0 && (sessionPid == 0 ==> greeterPid != 0))
    }

    /** dm_init, when all of it succeeded: the X server and the greeter are there. */
    constructor (defaultSession: Option<string>, allowShutdown: bool, allowReboot: bool, xserver: nat, greeter: nat)
      requires xserver != 0 && greeter != 0 && xserver != greeter
      ensures Inv() && running && history == [] && dispatched == [] && !clientOpen && sessionPid == 0 && fresh(buf)
    {
      this.defaultSession, this.allowShutdown, this.allowReboot := defaultSession, allowShutdown, allowReboot;
      xserverPid, greeterPid, sessionPid := xserver, greeter, 0;
      sessionUser, sessionDesktop, locked := None, None, false;
      running, clientOpen, bufLen := true, false, 0;
      buf := new char[MAX_MSG](_ => NUL);
      history, dispatched, spawnFaults, faultsBefore, refusals, verdicts, born := [], [], 0, 0, 0, [], {xserver, greeter};
    }

    /** dm_session_start */
    method SessionStart(user: string, desktop: string) returns (ok: bool)
      requires SessionInv() && !locked
      modifies this`sessionPid, this`sessionUser, this`sessionDesktop, this`history, this`spawnFaults, this`born, this`refusals
      ensures SessionInv() && Onward()
      ensures ok ==> sessionUser == Some(user) && sessionDesktop == Some(desktop) && history == old(history) + [Started(user)]
      ensures !ok ==> history == old(history) && sessionPid == old(sessionPid) && sessionDesktop == old(sessionDesktop)
      ensures !ok ==> refusals > old(refusals) || spawnFaults > old(spawnFaults)
    {
      hide LockedAfter, UserAfter, Orderly;
      ok := false;
      if * {
        refusals := refusals + 1;   // no such user, or no such session
        return;
      }
      var pid := Fork();
      if pid == 0 {
        return;
      }
      Appended(history, Started(user));
      sessionPid := pid;
      sessionUser := Some(user);
      sessionDesktop := Some(desktop);
      history := history + [Started(user)];
      ok := true;
    }

    /** dm_session_cleanup */
    method SessionCleanup()
      requires SessionInv() && sessionPid != 0
      modifies this`sessionPid, this`sessionUser, this`locked, this`history, this`greeterPid, this`spawnFaults, this`born
      ensures old(greeterPid) != 0 ==> greeterPid == old(greeterPid)
      ensures SessionInv() && Onward() && sessionPid == 0 && history == old(history) + [Ended(old(sessionUser).value)]
      ensures greeterPid != 0 || spawnFaults > old(spawnFaults)
    {
      hide LockedAfter, UserAfter, Orderly;
      Appended(history, Ended(sessionUser.value));
      history := history + [Ended(sessionUser.value)];
      sessionPid := 0;
      locked := false;
      sessionUser := None;
      GreeterStart();
    }

    /** dm_lock_session */
    method LockSession()
      requires SessionInv()
      modifies this`locked, this`history, this`greeterPid, this`spawnFaults, this`born
      ensures SessionInv() && Onward()
      ensures locked <==> old(locked) || sessionPid != 0
      ensures history == if old(locked) || sessionPid == 0 then old(history) else old(history) + [Locked]
      ensures old(greeterPid) != 0 ==> greeterPid == old(greeterPid)
      ensures locked && !old(locked) ==> greeterPid != 0 || spawnFaults > old(spawnFaults)
      ensures old(locked) ==> greeterPid == old(greeterPid)
    {
      hide LockedAfter, UserAfter, Orderly;
      if locked {
        return;
      }
      if sessionPid == 0 || sessionUser.None? {
        return;
      }
      locked := true;
      if greeterPid == 0 {
        GreeterStart();
      }
      Appended(history, Locked);
      history := history + [Locked];
    }

    /** dm_unlock_session */
    method UnlockSession()
      requires SessionInv() && BufInv()
      modifies this`locked, this`history, this`greeterPid, this`clientOpen, this`bufLen
      ensures SessionInv() && BufInv() && Onward() && !locked
      ensures history == if old(locked) then old(history) + [Unlocked] else old(history)
      ensures if old(locked) then greeterPid == 0 else greeterPid == old(greeterPid)
      ensures Closing(old(clientOpen), old(bufLen), clientOpen, bufLen)
    {
      hide LockedAfter, UserAfter, Orderly;
      if !locked {
        return;
      }
      locked := false;
      GreeterStop();
      Appended(history, Unlocked);
      history := history + [Unlocked];
    }

    /** dm_auth_check: asks PAM, and records question and answer. */
    method AuthCheck(user: string, password: string) returns (right: bool)
      modifies this`verdicts
      ensures verdicts == old(verdicts) + [Verdict(user, password, right)]
    {
      right := *;
      verdicts := verdicts + [Verdict(user, password, right)];
    }

    /** The check was asked once, about this user and password, and what follows is done. */
    twostate predicate Checked(user: string, password: string)
      reads this
    {
      && |verdicts| == |old(verdicts)| + 1 && verdicts[|old(verdicts)|].user == user && verdicts[|old(verdicts)|].password == password
      && AuthDone(user, verdicts[|old(verdicts)|].right)
    }

    /** A wrong password changes nothing. A right one unlocks the session of its user, and no other; when none is locked it
        ends the greeter and starts a session, unless there is no such user or desktop, or no process. */
    twostate predicate AuthDone(user: string, right: bool)
      reads this
    {
      var desktop := if old(sessionDesktop).Some? then old(sessionDesktop) else defaultSession;
      if right && old(locked) && old(sessionUser) == Some(user) then
        !locked && history == old(history) + [Unlocked] && greeterPid == 0 && sessionPid == old(sessionPid) && sessionUser == old(sessionUser)
      else if right && !old(locked) && desktop.Some? then
        && greeterPid == 0 && (clientOpen <==> old(greeterPid) == 0 && old(clientOpen))
        && if history == old(history)
           then sessionPid == old(sessionPid) && (refusals > old(refusals) || spawnFaults > old(spawnFaults))
           else history == old(history) + [Started(user)] && sessionUser == Some(user) && sessionDesktop == desktop
      else
        Quiet() && clientOpen == old(clientOpen)
    }

    /** The end of a login: the greeter goes, the session comes. */
    method LogIn(user: string, desktop: string)
      requires SessionInv() && BufInv() && !locked
      modifies this`history, this`greeterPid, this`clientOpen, this`bufLen,
        this`sessionPid, this`sessionUser, this`sessionDesktop, this`spawnFaults, this`born, this`refusals
      ensures SessionInv() && BufInv() && Onward() && greeterPid == 0
      ensures Closing(old(clientOpen), old(bufLen), clientOpen, bufLen)
      ensures clientOpen <==> old(greeterPid) == 0 && old(clientOpen)
      ensures if history == old(history)
        then sessionPid == old(sessionPid) && (refusals > old(refusals) || spawnFaults > old(spawnFaults))
        else history == old(history) + [Started(user)] && sessionUser == Some(user) && sessionDesktop == Some(desktop)
    {
      hide LockedAfter, UserAfter, Orderly;
      GreeterStop();
      var _ := SessionStart(user, desktop);
    }

    /** handle_auth */
    method HandleAuth(args: string)
      requires SessionInv() && BufInv()
      modifies this`locked, this`history, this`greeterPid, this`clientOpen, this`bufLen,
        this`sessionPid, this`sessionUser, this`sessionDesktop, this`spawnFaults, this`born, this`refusals, this`verdicts
      ensures SessionInv() && BufInv() && Onward()
      ensures Closing(old(clientOpen), old(bufLen), clientOpen, bufLen)
      ensures forall user, password :: Asks(args, user, password) ==> Checked(user, password)
      ensures (forall user, password :: !Asks(args, user, password)) ==> Quiet() && clientOpen == old(clientOpen) && verdicts == old(verdicts)
    {
      hide SessionInv, PidsDiffer, BufInv, Asks;
      var k := FindSpace(args);
      if k == |args| || k >= MAX_USER || |args| - k - 1 >= MAX_PASS {
        NoRequest(args, k);
        return;   // no space, name too long, password too long
      }
      var username, password := args[..k], args[k + 1..];
      OneRequest(args, k);
      assert Asks(args, username, password);
      var right := AuthCheck(username, password);
      if !right {
        return;
      }
      var desktop := if sessionDesktop.Some? then sessionDesktop else defaultSession;
      if locked {
        if sessionUser == Some(username) {
          UnlockSession();
        }
      } else if desktop.Some? {
        LogIn(username, desktop.value);
      }
    }

    method FindSpace(s: string) returns (k: nat)
      ensures k <= |s| && (k < |s| ==> s[k] == ' ') && forall i :: 0 <= i < k ==> s[i] != ' '
    {
      k := 0;
      while k < |s| && s[k] != ' '
        invariant k <= |s| && forall i :: 0 <= i < k ==> s[i] != ' '
      {
        k := k + 1;
      }
    }

    /** dispatch_message */
    method DispatchMessage(line: string)
      requires SessionInv() && BufInv()
      modifies this`locked, this`history, this`greeterPid, this`clientOpen, this`bufLen, this`running,
        this`sessionPid, this`sessionUser, this`sessionDesktop, this`spawnFaults, this`born, this`refusals, this`verdicts, this`dispatched
      ensures SessionInv() && BufInv() && Onward()
      ensures Closing(old(clientOpen), old(bufLen), clientOpen, bufLen)
      ensures dispatched == old(dispatched) + [line]
      ensures "AUTH " <= line ==> forall user, password :: Asks(line[5..], user, password) ==> Checked(user, password)
      ensures line == "CANCEL_LOCK" ==> !locked && history == if old(locked) then old(history) + [Unlocked] else old(history)
      ensures Harmless(line) ==> Quiet() && clientOpen == old(clientOpen) && verdicts == old(verdicts)
      ensures "SESSION " <= line ==> sessionDesktop == Some(line[8..])
      ensures !("AUTH " <= line) && !("SESSION " <= line) ==> sessionDesktop == old(sessionDesktop)
      ensures running == (old(running) && !PowersOff([line], allowShutdown, allowReboot))
    {
      hide SessionInv, Asks;
      KeywordsDiffer(line);
      dispatched := dispatched + [line];
      if "AUTH " <= line {
        HandleAuth(line[5..]);
      } else if "SESSION " <= line {
        sessionDesktop := Some(line[8..]);
      } else if line == "SHUTDOWN" {
        if allowShutdown {
          running := false;
        }
      } else if line == "REBOOT" {
        if allowReboot {
          running := false;
        }
      } else if line == "CANCEL_LOCK" {
        UnlockSession();
      }
    }

    // ---------- the socket ----------

    /** dm_ipc_accept, once a connection is there. */
    method Accept()
      requires BufInv()
      modifies this`clientOpen, this`bufLen
      ensures BufInv() && clientOpen && bufLen == 0
    {
      clientOpen := true;
      bufLen := 0;
    }

    /** read(2) into the free part of the buffer, and the terminator behind it. */
    method ReadInto(chunk: string)
      requires BufInv() && clientOpen && bufLen + |chunk| < MAX_MSG
      modifies this`bufLen, buf
      ensures BufInv() && bufLen == old(bufLen) + |chunk|
      ensures buf[..bufLen] == old(Pending()) + chunk && buf[bufLen] == NUL
    {
      var i := 0;
      ghost var before := buf[..bufLen];
      while i < |chunk|
        invariant bufLen == old(bufLen) && i <= |chunk| && buf[..bufLen] == before && buf[bufLen..bufLen + i] == chunk[..i]
      {
        buf[bufLen + i] := chunk[i];
        i := i + 1;
      }
      buf[bufLen + i] := NUL;
      assert buf[..bufLen + i] == buf[..bufLen] + buf[bufLen..bufLen + i];
      assert chunk[..i] == chunk;
      bufLen := bufLen + i;
    }

    /** strchr in the buffer, whose data ends at `total`. */
    method NextNewline(start: nat, total: nat) returns (k: nat)
      requires buf.Length == MAX_MSG && start <= total < MAX_MSG && buf[total] == NUL
      ensures start <= k <= total && k == start + Strchr(buf[start..total], 0)
    {
      k := start;
      while buf[k] != '\n' && buf[k] != NUL
        invariant start <= k <= total && forall j :: start <= j < k ==> buf[j] != '\n' && buf[j] != NUL
        decreases total - k
      {
        k := k + 1;
      }
      ghost var t := buf[start..total];
      if buf[k] == '\n' {
        StrchrIs(t, 0, k - start);
      } else {
        if k < total {
          NulFirst(t, 0, k - start);
        } else {
          NoLineYet(t);
        }
        k := total;
      }
    }

    /** Terminates one line where it stands and dispatches it, unless it is empty. */
    method DispatchLine(start: nat, k: nat, total: nat)
      requires SessionInv() && BufInv() && start <= k < total < MAX_MSG
      modifies this, buf
      ensures SessionInv() && BufInv() && Onward() && xserverPid == old(xserverPid)
      ensures running == (old(running) && !(k > start && PowersOff([old(buf[start..k])], allowShutdown, allowReboot)))
      ensures buf[k + 1..total] == old(buf[k + 1..total]) && buf[total] == old(buf[total])
      ensures dispatched == old(dispatched) + (if k > start then [old(buf[start..k])] else [])
      ensures Closing(old(clientOpen), old(bufLen), clientOpen, bufLen)
      ensures k == start || Harmless(old(buf[start..k])) ==> clientOpen == old(clientOpen) && Quiet()
    {
      var line := buf[start..k];
      buf[k] := NUL;
      if k > start {
        DispatchMessage(line);
      }
    }

    /** The loop over complete lines: `start` is where the incomplete one begins. */
    method ProcessLines(total: nat, ghost s: string) returns (start: nat)
      requires SessionInv() && BufInv() && clientOpen && bufLen == total && s == buf[..total] && buf[total] == NUL
      modifies this, buf
      ensures SessionInv() && BufInv() && Onward() && xserverPid == old(xserverPid)
      ensures running == (old(running) && !PowersOff(NonEmpty(Lines(s)), allowShutdown, allowReboot))
      ensures start <= total && buf[start..total] == Rest(s)
      ensures dispatched == old(dispatched) + NonEmpty(Lines(s))
      ensures Closing(true, total, clientOpen, bufLen)
      ensures AllHarmless(NonEmpty(Lines(s))) ==> clientOpen && Quiet()
    {
      hide SessionInv, Lines, Rest, NonEmpty, Strchr, Harmless, AllHarmless, Closing, PowersOff;
      StaysOpen(total);
      start := 0;
      ghost var lines := [];
      NonEmptyNothing();
      NoPowerOff(allowShutdown, allowReboot);
      assert s[0..] == s && [] + Lines(s) == Lines(s);
      var k := NextNewline(start, total);
      while k < total
        invariant SessionInv() && BufInv() && Onward() && xserverPid == old(xserverPid)
        invariant running == (old(running) && !PowersOff(NonEmpty(lines), allowShutdown, allowReboot))
        invariant start <= k <= total && buf[total] == NUL && buf[start..total] == s[start..]
        invariant k == start + Strchr(s[start..], 0)
        invariant Lines(s) == lines + Lines(s[start..]) && Rest(s) == Rest(s[start..])
        invariant dispatched == old(dispatched) + NonEmpty(lines)
        invariant Closing(true, total, clientOpen, bufLen)
        invariant AllHarmless(NonEmpty(lines)) ==> clientOpen && Quiet()
        decreases total - start
      {
        LineAt(s, lines, start, k);
        ghost var line := s[start..k];
        Slices(buf, s, start, k, total);
        DispatchLine(start, k, total);
        HarmlessAppended(NonEmpty(lines), line, NonEmpty(lines + [line]));
        PowersOffAppended(NonEmpty(lines), line, NonEmpty(lines + [line]), allowShutdown, allowReboot);
        lines := lines + [line];
        start := k + 1;
        k := NextNewline(start, total);
      }
      NoMoreLines(s[start..]);
      assert lines + [] == lines;
    }

    /** dm_ipc_handle. The handlers of the lines may close the connection, which leaves a length that only the
        next accept puts right. */
    method Handle(r: ReadResult)
      requires SessionInv() && BufInv() && Lines(Pending()) == []
      modifies this, buf
      ensures SessionInv() && BufInv() && Onward() && Lines(Pending()) == [] && xserverPid == old(xserverPid)
      ensures dispatched == old(dispatched) + Received(old(clientOpen), old(Pending()), r)
      ensures running == (old(running) && !PowersOff(Received(old(clientOpen), old(Pending()), r), allowShutdown, allowReboot))
      ensures !old(clientOpen) ==> !clientOpen
      ensures old(clientOpen) && (old(bufLen) == MAX_MSG - 1 || r == EndOfFile) ==> !clientOpen
      ensures old(clientOpen) && old(bufLen) < MAX_MSG - 1 && r == NoData ==> clientOpen && Pending() == old(Pending())
      ensures AllHarmless(Received(old(clientOpen), old(Pending()), r)) ==> Quiet()
      ensures old(clientOpen) && old(bufLen) < MAX_MSG - 1 && r.Bytes? ==>
        var s := old(Pending()) + Got(r.data, MAX_MSG - 1 - old(bufLen));
        && dispatched == old(dispatched) + NonEmpty(Lines(s))
        && (clientOpen ==> Pending() == Rest(s))
        && (AllHarmless(NonEmpty(Lines(s))) ==> clientOpen)
      ensures clientOpen && r.Bytes? ==>
        Conn(true, Pending(), dispatched) ==
          Receive(Conn(true, old(Pending()), old(dispatched)), Got(r.data, MAX_MSG - 1 - old(bufLen)))
    {
      hide SessionInv, Lines, Rest, NonEmpty, AllHarmless, PowersOff;
      NothingWaits();
      NoMoreLines(Pending());
      NoPowerOff(allowShutdown, allowReboot);
      if !clientOpen {
        return;
      }
      assert |Pending()| == bufLen;
      var space := MAX_MSG - bufLen - 1;
      if space <= 0 {
        clientOpen, bufLen := false, 0;
        return;
      }
      match r {
        case NoData =>
        case EndOfFile =>
          clientOpen, bufLen := false, 0;
        case Bytes(data) =>
          HandleBytes(Got(data, space));
      }
    }

    /** The bytes of one read. */
    method HandleBytes(chunk: string)
      requires SessionInv() && BufInv() && clientOpen && bufLen + |chunk| < MAX_MSG
      modifies this, buf
      ensures SessionInv() && BufInv() && Onward() && Lines(Pending()) == [] && xserverPid == old(xserverPid)
      ensures var s := old(Pending()) + chunk;
        && running == (old(running) && !PowersOff(NonEmpty(Lines(s)), allowShutdown, allowReboot))
        && (AllHarmless(NonEmpty(Lines(s))) ==> Quiet())
        && dispatched == old(dispatched) + NonEmpty(Lines(s))
        && (clientOpen ==> Pending() == Rest(s))
        && (AllHarmless(NonEmpty(Lines(s))) ==> clientOpen)
    {
      ReadInto(chunk);
      ghost var s := buf[..bufLen];
      var total := bufLen;
      var start := ProcessLines(total, s);
      RestHasNoLine(s);
      Compact(start, total);
    }

    /** What the loop makes of a stream: each read returns some of what there is, as long as the connection is
        open. `pos` is how far it was read. */
    method HandleStream(stream: string) returns (pos: nat)
      requires SessionInv() && BufInv() && clientOpen && Lines(Pending()) == []
      requires Lacks(Pending() + stream, NUL) && LinesFit(Pending() + stream)
      modifies this, buf
      ensures old(history) <= history
      ensures SessionInv() && BufInv() && pos <= |stream|
      ensures dispatched == old(dispatched) + NonEmpty(Lines(old(Pending()) + stream[..pos]))
      ensures clientOpen ==> pos == |stream| && Pending() == Rest(old(Pending()) + stream)
      ensures AllHarmless(NonEmpty(Split(old(Pending()) + stream))) ==>
        clientOpen && dispatched == old(dispatched) + NonEmpty(Split(old(Pending()) + stream))
    {
      hide SessionInv, Lines, Rest, NonEmpty, LinesFit, Split, AllHarmless, BufInv, Lacks, Got, Pending;
      ghost var s0, d0 := Pending(), dispatched;
      pos := 0;
      StreamStarts(s0, stream);
      while pos < |stream| && clientOpen
        invariant old(history) <= history
        invariant SessionInv() && BufInv() && Lines(Pending()) == [] && pos <= |stream|
        invariant dispatched == d0 + NonEmpty(Lines(s0 + stream[..pos]))
        invariant clientOpen ==> Pending() == Rest(s0 + stream[..pos])
        invariant AllHarmless(NonEmpty(Lines(s0 + stream[..pos]))) ==> clientOpen
        decreases |stream| - pos
      {
        StreamRoom(s0, stream, pos);
        LengthPending();
        var n :| 1 <= n <= |stream| - pos && n <= MAX_MSG - 1 - bufLen;
        StreamNext(s0, stream, pos, n, d0, Pending());
        GotAll(stream[pos..pos + n], MAX_MSG - 1 - bufLen);
        Handle(Bytes(stream[pos..pos + n]));
        pos := pos + n;
      }
      StreamEnds(s0, stream, pos);
    }

    lemma LengthPending()
      requires BufInv() && clientOpen
      ensures |Pending()| == bufLen && 0 <= bufLen < MAX_MSG
    {
    }

    /** Moves what is left over to the front. */
    method Compact(start: nat, total: nat)
      requires BufInv() && start <= total < MAX_MSG && Closing(true, total, clientOpen, bufLen)
      modifies this`bufLen, buf
      ensures BufInv() && (clientOpen ==> Pending() == old(buf[start..total]))
    {
      var remaining := bufLen - start;
      if remaining > 0 && start != 0 {
        ghost var tail := buf[start..total];
        var i := 0;
        while i < remaining
          invariant 0 <= i <= remaining
          invariant forall j :: 0 <= j < i ==> buf[j] == tail[j]
          invariant forall j :: i <= j < remaining ==> buf[start + j] == tail[j]
        {
          buf[i] := buf[start + i];
          i := i + 1;
        }
        assert buf[..remaining] == tail;
      }
      bufLen := remaining;
    }

    // ---------- the event loop ----------

    /** reap_children, for the processes that were found to have exited. */
    method ReapChildren(pids: seq<nat>)
      requires SessionInv() && forall i :: 0 <= i < |pids| ==> pids[i] > 0
      modifies this`xserverPid, this`greeterPid, this`sessionPid, this`sessionUser, this`locked, this`history, this`spawnFaults, this`born
      ensures SessionInv() && Onward()
      ensures xserverPid == if old(xserverPid) in pids then 0 else old(xserverPid)
      ensures old(greeterPid) != 0 && old(greeterPid) !in pids ==> greeterPid == old(greeterPid)
      ensures Replaced(old(greeterPid), greeterPid, pids, born)
      ensures old(sessionPid) !in pids ==> greeterPid == if old(greeterPid) in pids then 0 else old(greeterPid)
      ensures if old(sessionPid) in pids
        then sessionPid == 0 && history == old(history) + [Ended(old(sessionUser).value)]
        else sessionPid == old(sessionPid) && sessionUser == old(sessionUser) && history == old(history) && locked == old(locked)
    {
      var i := 0;
      while i < |pids|
        invariant i <= |pids| && SessionInv() && Onward()
        invariant xserverPid == if old(xserverPid) in pids[..i] then 0 else old(xserverPid)
        invariant old(greeterPid) != 0 && old(greeterPid) !in pids[..i] ==> greeterPid == old(greeterPid)
        invariant Replaced(old(greeterPid), greeterPid, pids[..i], born)
        invariant old(sessionPid) !in pids[..i] ==> greeterPid == if old(greeterPid) in pids[..i] then 0 else old(greeterPid)
        invariant old(sessionPid) !in pids[..i] ==>
          sessionPid == old(sessionPid) && sessionUser == old(sessionUser) && history == old(history) && locked == old(locked)
        invariant old(sessionPid) in pids[..i] ==> sessionPid == 0 && history == old(history) + [Ended(old(sessionUser).value)]
      {
        assert pids[..i + 1] == pids[..i] + [pids[i]];
        var pid := pids[i];
        if pid == xserverPid {
          xserverPid := 0;
        } else if pid == greeterPid {
          greeterPid := 0;
        } else if pid == sessionPid {
          SessionCleanup();
        }
        i := i + 1;
      }
      assert pids[..i] == pids;
    }

    /** dm_xserver_start and dm_xserver_ready */
    method XserverStart() returns (ready: bool)
      requires PidsDiffer() && xserverPid == 0
      modifies this`xserverPid, this`spawnFaults, this`born
      ensures PidsDiffer() && Onward() && (if ready then xserverPid != 0 else spawnFaults > old(spawnFaults))
    {
      ready := false;
      var pid := Fork();
      if pid != 0 {
        xserverPid := pid;
        ready := *;
        if !ready {
          spawnFaults := spawnFaults + 1;
        }
      }
    }

    /** The end of an iteration of dm_run: somebody can log in, or is logged in. */
    method KeepAlive()
      requires SessionInv() && BufInv()
      modifies this`xserverPid, this`greeterPid, this`clientOpen, this`bufLen, this`spawnFaults, this`born
      ensures SessionInv() && BufInv() && Onward()
      ensures old(clientOpen) && clientOpen ==> bufLen == old(bufLen)
      ensures clientOpen ==> old(clientOpen)
      ensures spawnFaults == old(spawnFaults) && running ==> xserverPid != 0 && (sessionPid == 0 ==> greeterPid != 0)
      ensures old(xserverPid) != 0 ==> xserverPid == old(xserverPid) && clientOpen == old(clientOpen)
      ensures old(xserverPid) != 0 && (sessionPid != 0 || old(greeterPid) != 0) ==> greeterPid == old(greeterPid)
      ensures old(greeterPid) != 0 ==> greeterPid != 0 || spawnFaults > old(spawnFaults)
      ensures old(xserverPid) == 0 && running ==> Replaced(old(greeterPid), greeterPid, [old(greeterPid)], born)
    {
      if greeterPid == 0 && sessionPid == 0 && xserverPid != 0 {
        GreeterStart();
      }
      if xserverPid == 0 && running {
        GreeterStop();
        var ready := XserverStart();
        if ready {
          GreeterStart();
        }
      }
    }

    ghost function View(): Snap
      requires BufInv()
      reads this, buf
    {
      Snap(xserverPid, greeterPid, sessionPid, sessionUser, locked, running, clientOpen, Pending(), history, dispatched, spawnFaults, born)
    }

    /** A turn begins with the children that have exited. */
    method BeginTurn(exited: seq<nat>)
      requires Sound() && forall i :: 0 <= i < |exited| ==> exited[i] > 0
      modifies this
      ensures Sound() && Reaps(old(View()), exited, View()) && faultsBefore == old(spawnFaults)
    {
      hide PidsDiffer, Lines, LockedAfter, UserAfter, Orderly, Replaced;
      faultsBefore, born := spawnFaults, {};
      ReapChildren(exited);
    }

    /** What poll said about the socket. */
    method ServeSocket(w: Wakeup)
      requires Sound()
      modifies this, buf
      ensures Sound() && Served(old(View()), w, View(), allowShutdown, allowReboot) && faultsBefore == old(faultsBefore)
    {
      hide SessionInv, BufInv, Lines, NonEmpty, Rest, AllHarmless, Got, PowersOff;
      NothingWaits();
      NoPowerOff(allowShutdown, allowReboot);
      if w.socketReady {
        if clientOpen {
          LengthPending();
          Handle(w.read);
        } else {
          Accept();
          assert Pending() == "";
        }
      }
    }

    method ServeRequests(requests: seq<Request>)
      requires Sound()
      modifies this
      ensures Sound() && Requested(old(View()), requests, View(), allowShutdown, allowReboot) && faultsBefore == old(faultsBefore)
    {
      hide PidsDiffer, Lines, LockedAfter, UserAfter, Orderly;
      DbusDispatch(requests);
    }

    method Revive()
      requires Sound()
      modifies this
      ensures Sound() && Revived(old(View()), View()) && faultsBefore == old(faultsBefore)
    {
      hide PidsDiffer, Lines, LockedAfter, UserAfter, Orderly, Replaced;
      NothingWaits();
      KeepAlive();
    }

    /** One iteration of dm_run: whatever was ready when poll returned. */
    method Iteration(w: Wakeup)
      requires Inv() && running && forall i :: 0 <= i < |w.exited| ==> w.exited[i] > 0
      modifies this, buf
      ensures Inv() && old(history) <= history && faultsBefore == old(spawnFaults) && old(spawnFaults) <= spawnFaults
      ensures Turn(old(View()), w, View(), allowShutdown, allowReboot)
    {
      hide SessionInv, Lines, Pending, Reaps, Served, Requested, Revived, Turn, AllHarmless, PowersOff, Replaced;
      ghost var s0 := View();
      BeginTurn(w.exited);
      ghost var s1 := View();
      ServeSocket(w);
      ghost var s2 := View();
      ServeRequests(w.requests);
      ghost var s3 := View();
      Revive();
      TurnMade(s0, w, s1, s2, s3, View(), allowShutdown, allowReboot);
    }

    /** dm_run: every iteration starts and ends in order, and unless a fork failed in it leaves somebody to talk
        to, also after earlier failures. `trace` are the states between the iterations. */
    method Run(ws: seq<Wakeup>) returns (ghost trace: seq<Snap>)
      requires Inv() && forall k, i :: 0 <= k < |ws| && 0 <= i < |ws[k].exited| ==> ws[k].exited[i] > 0
      modifies this, buf
      ensures Inv() && old(history) <= history
      ensures Turns(trace, ws, allowShutdown, allowReboot) && trace[0] == old(View()) && trace[|trace| - 1] == View()
      ensures |trace| == |ws| + 1 || !running
    {
      hide Turn, SessionInv, Lines;
      trace := [View()];
      var k := 0;
      while k < |ws| && running
        invariant k <= |ws| && Inv() && old(history) <= history
        invariant |trace| == k + 1 && Turns(trace, ws, allowShutdown, allowReboot) && trace[0] == old(View()) && trace[k] == View()
      {
        Iteration(ws[k]);
        trace := trace + [View()];
        k := k + 1;
      }
    }

    /** dm_dbus_dispatch: the requests that matter here, in the order they came. */
    method DbusDispatch(requests: seq<Request>)
      requires SessionInv()
      modifies this`locked, this`history, this`greeterPid, this`spawnFaults, this`born, this`running
      ensures SessionInv() && Onward()
      ensures locked <==> old(locked) || (sessionPid != 0 && Lock in requests)
      ensures history == if locked && !old(locked) then old(history) + [Locked] else old(history)
      ensures old(greeterPid) != 0 ==> greeterPid == old(greeterPid)
      ensures Lock !in requests || old(locked) ==> greeterPid == old(greeterPid)
      ensures locked && !old(locked) ==> greeterPid != 0 || spawnFaults > old(spawnFaults)
      ensures running == (old(running) && !(allowShutdown && Shutdown in requests) && !(allowReboot && Reboot in requests))
    {
      hide SessionInv, PidsDiffer;
      var i := 0;
      while i < |requests|
        invariant i <= |requests| && SessionInv() && Onward()
        invariant locked <==> old(locked) || (sessionPid != 0 && Lock in requests[..i])
        invariant history == if locked && !old(locked) then old(history) + [Locked] else old(history)
        invariant old(greeterPid) != 0 ==> greeterPid == old(greeterPid)
        invariant Lock !in requests[..i] || old(locked) ==> greeterPid == old(greeterPid)
        invariant locked && !old(locked) ==> greeterPid != 0 || spawnFaults > old(spawnFaults)
        invariant running == (old(running) && !(allowShutdown && Shutdown in requests[..i]) && !(allowReboot && Reboot in requests[..i]))
      {
        assert requests[..i + 1] == requests[..i] + [requests[i]];
        match requests[i] {
          case Lock =>
            LockSession();
          case Shutdown =>
            if allowShutdown {
              running := false;
            }
          case Reboot =>
            if allowReboot {
              running := false;
            }
        }
        i := i + 1;
      }
      assert requests[..i] == requests;
    }
  }

  // ---------- what one turn of the loop does ----------

  /** The state between two turns of the loop; `born` are the processes made in the turn that led to it. */
  datatype Snap = Snap(
    xserver: nat, greeter: nat, session: nat, user: Option<string>, locked: bool, running: bool,
    open: bool, pending: string, history: seq<Event>, dispatched: seq<string>, faults: nat, born: set<nat>)

  /** The lines dispatched when `r` is read from a connection with an incomplete line waiting. */
  function Received(open: bool, pending: string, r: ReadResult): seq<string> {
    if open && |pending| < MAX_MSG - 1 && r.Bytes? then NonEmpty(Lines(pending + Got(r.data, MAX_MSG - 1 - |pending|))) else []
  }

  function TurnLines(s: Snap, w: Wakeup): seq<string> {
    if w.socketReady then Received(s.open, s.pending, w.read) else []
  }

  /** The connection, as long as nothing but what was read closes it. */
  function Connection(s: Snap, w: Wakeup): (bool, string) {
    if !w.socketReady then (s.open, s.pending)
    else if !s.open then (true, "")
    else if |s.pending| >= MAX_MSG - 1 || w.read == EndOfFile then (false, "")
    else if w.read == NoData then (true, s.pending)
    else (true, Rest(s.pending + Got(w.read.data, MAX_MSG - 1 - |s.pending|)))
  }

  /** What was ready is dealt with: the end of a session is announced, no exited process is kept, what was read is
      dispatched line by line, requests are carried out, and without messages that log in or unlock nothing else changes. */
  ghost predicate Turn(s0: Snap, w: Wakeup, s1: Snap, allowShutdown: bool, allowReboot: bool) {
    var lines := TurnLines(s0, w);
    var harmless := AllHarmless(lines);
    var calm := harmless && s0.session != 0 && s0.session !in w.exited && s0.xserver != 0 && s0.xserver !in w.exited;
    && s0.history <= s1.history && s1.dispatched == s0.dispatched + lines
    && (s0.user.Some? && s0.session in w.exited ==> s0.history + [Ended(s0.user.value)] <= s1.history)
    && Replaced(s0.xserver, s1.xserver, w.exited, s1.born)
    && Replaced(s0.greeter, s1.greeter, w.exited, s1.born)
    && Replaced(s0.session, s1.session, w.exited, s1.born)
    && (Lock in w.requests && s1.session != 0 ==> s1.locked)
    && (harmless && s0.session !in w.exited ==>
      && s1.session == s0.session && s1.user == s0.user
      && (s1.locked <==> s0.locked || (s0.session != 0 && Lock in w.requests))
      && s1.history == (if s1.locked && !s0.locked then s0.history + [Locked] else s0.history)
      && (s1.locked && !s0.locked && s1.faults == s0.faults ==> s1.greeter != 0))
    && (calm && (s0.locked || Lock !in w.requests) ==> s1.greeter == if s0.greeter in w.exited then 0 else s0.greeter)
    && (harmless && s0.xserver != 0 && s0.xserver !in w.exited ==> (s1.open, s1.pending) == Connection(s0, w))
    && s1.running == (s0.running && !PowersOff(lines, allowShutdown, allowReboot)
                      && !(allowShutdown && Shutdown in w.requests) && !(allowReboot && Reboot in w.requests))
    && (s1.running && s1.faults == s0.faults ==> s1.xserver != 0 && (s1.session == 0 ==> s1.greeter != 0))
  }

  /** And when its greeter exits while the session is locked, nobody starts another one: there is no way to unlock until
      the session or the X server ends. */
  lemma {:induction false} LockedOut(tr: seq<Snap>, ws: seq<Wakeup>, sd: bool, rb: bool, i: nat, n: nat)
    requires Turns(tr, ws, sd, rb) && i <= n < |tr| && tr[i].locked && tr[i].session != 0 && tr[i].greeter == 0
    requires forall k :: i <= k < n ==> tr[i].session !in ws[k].exited && AllHarmless(TurnLines(tr[k], ws[k]))
    requires forall k :: i <= k < n ==> tr[k].xserver != 0 && tr[k].xserver !in ws[k].exited
    ensures tr[n].locked && tr[n].greeter == 0
    decreases n
  {
    hide Turn;
    LockHolds(tr, ws, sd, rb, i, n);
    if i < n {
      LockedOut(tr, ws, sd, rb, i, n - 1);
      LockHolds(tr, ws, sd, rb, i, n - 1);
      assert Turn(tr[n - 1], ws[n - 1], tr[n], sd, rb);
      TurnHolds(tr[n - 1], ws[n - 1], tr[n], sd, rb);
    }
  }

  /** It does happen: when the greeter of a locked session exits, the turn ends without one. */
  lemma GreeterLostWhileLocked(s0: Snap, w: Wakeup, s1: Snap, sd: bool, rb: bool)
    requires Turn(s0, w, s1, sd, rb) && s0.locked && s0.session != 0 && s0.session !in w.exited && AllHarmless(TurnLines(s0, w))
    requires s0.xserver != 0 && s0.xserver !in w.exited
    ensures s1.greeter == 0 <==> s0.greeter == 0 || s0.greeter in w.exited
  {
    hide AllHarmless, PowersOff, Replaced, Connection, TurnLines;
  }

  // The four parts of a turn.

  ghost predicate Reaps(s0: Snap, exited: seq<nat>, s1: Snap) {
    && s1.dispatched == s0.dispatched && s1.running == s0.running && s1.open == s0.open && s1.pending == s0.pending
    && s0.history <= s1.history && s1.faults >= s0.faults
    && s1.xserver == (if s0.xserver in exited then 0 else s0.xserver)
    && Replaced(s0.greeter, s1.greeter, exited, s1.born)
    && (s0.session !in exited ==> s1.greeter == if s0.greeter in exited then 0 else s0.greeter)
    && if s0.session in exited then s1.session == 0 && (s0.user.Some? ==> s1.history == s0.history + [Ended(s0.user.value)])
       else s1.session == s0.session && s1.user == s0.user && s1.history == s0.history && s1.locked == s0.locked
  }

  ghost predicate Served(s1: Snap, w: Wakeup, s2: Snap, sd: bool, rb: bool) {
    var lines := TurnLines(s1, w);
    && s2.dispatched == s1.dispatched + lines && s2.running == (s1.running && !PowersOff(lines, sd, rb))
    && s1.history <= s2.history && s2.faults >= s1.faults && s1.born <= s2.born
    && s2.xserver == s1.xserver && Kept(s1.greeter, s2.greeter, s2.born) && Kept(s1.session, s2.session, s2.born)
    && (AllHarmless(lines) ==>
      && s2.session == s1.session && s2.user == s1.user && s2.history == s1.history && s2.locked == s1.locked && s2.greeter == s1.greeter
      && (s2.open, s2.pending) == Connection(s1, w))
  }

  ghost predicate Requested(s2: Snap, requests: seq<Request>, s3: Snap, sd: bool, rb: bool) {
    && s3.dispatched == s2.dispatched && s3.open == s2.open && s3.pending == s2.pending
    && s3.xserver == s2.xserver && s3.session == s2.session && s3.user == s2.user
    && (s3.locked <==> s2.locked || (s2.session != 0 && Lock in requests))
    && s3.history == (if s3.locked && !s2.locked then s2.history + [Locked] else s2.history)
    && s3.running == (s2.running && !(sd && Shutdown in requests) && !(rb && Reboot in requests))
    && s2.born <= s3.born && s3.faults >= s2.faults && Kept(s2.greeter, s3.greeter, s3.born)
    && (Lock !in requests || s2.locked ==> s3.greeter == s2.greeter)
    && (s3.locked && !s2.locked && s3.faults == s2.faults ==> s3.greeter != 0)
  }

  ghost predicate Revived(s3: Snap, s4: Snap) {
    && s4.dispatched == s3.dispatched && s4.history == s3.history && s4.session == s3.session && s4.user == s3.user
    && s4.locked == s3.locked && s4.running == s3.running && s3.born <= s4.born && s4.faults >= s3.faults
    && Kept(s3.xserver, s4.xserver, s4.born) && Kept(s3.greeter, s4.greeter, s4.born)
    && (s3.xserver != 0 ==> s4.open == s3.open && s4.pending == s3.pending)
    && (s3.xserver != 0 && s3.session != 0 ==> s4.greeter == s3.greeter)
    && (s3.greeter != 0 && s4.faults == s3.faults ==> s4.greeter != 0)
    && (s4.running && s4.faults == s3.faults ==> s4.xserver != 0 && (s4.session == 0 ==> s4.greeter != 0))
  }

  lemma TurnMade(s0: Snap, w: Wakeup, s1: Snap, s2: Snap, s3: Snap, s4: Snap, sd: bool, rb: bool)
    requires Reaps(s0, w.exited, s1) && Served(s1, w, s2, sd, rb) && Requested(s2, w.requests, s3, sd, rb) && Revived(s3, s4)
    requires 0 !in w.exited
    ensures Turn(s0, w, s4, sd, rb) && s0.history <= s4.history && s0.faults <= s4.faults
    ensures s4.running && s4.faults == s0.faults ==> s4.xserver != 0 && (s4.session == 0 ==> s4.greeter != 0)
  {
    hide AllHarmless, PowersOff, Received, Connection;
    assert TurnLines(s1, w) == TurnLines(s0, w);
    assert Connection(s1, w) == Connection(s0, w) by { SameConnection(s0, s1, w); }
  }

  lemma SameConnection(s0: Snap, s1: Snap, w: Wakeup)
    requires s1.open == s0.open && s1.pending == s0.pending
    ensures Connection(s1, w) == Connection(s0, w) && TurnLines(s1, w) == TurnLines(s0, w)
  {
  }

  ghost predicate Turns(tr: seq<Snap>, ws: seq<Wakeup>, allowShutdown: bool, allowReboot: bool) {
    0 < |tr| <= |ws| + 1 && forall k :: 0 <= k < |tr| - 1 ==> tr[k].running && Turn(tr[k], ws[k], tr[k + 1], allowShutdown, allowReboot)
  }

  /** In every run, a session that ends is announced, and stays announced. */
  lemma {:induction false} EndsAreAnnounced(tr: seq<Snap>, ws: seq<Wakeup>, sd: bool, rb: bool, k: nat, n: nat)
    requires Turns(tr, ws, sd, rb) && k < n < |tr| && tr[k].user.Some? && tr[k].session in ws[k].exited
    ensures tr[k].history + [Ended(tr[k].user.value)] <= tr[n].history
    decreases n
  {
    hide Turn;
    assert Turn(tr[n - 1], ws[n - 1], tr[n], sd, rb);
    TurnGrows(tr[n - 1], ws[n - 1], tr[n], sd, rb);
    if k < n - 1 {
      EndsAreAnnounced(tr, ws, sd, rb, k, n - 1);
    } else {
      TurnEnds(tr[k], ws[k], tr[n], sd, rb);
    }
  }

  lemma TurnGrows(s0: Snap, w: Wakeup, s1: Snap, sd: bool, rb: bool)
    requires Turn(s0, w, s1, sd, rb)
    ensures s0.history <= s1.history
  {
    hide AllHarmless, PowersOff, Replaced, Connection, TurnLines;
  }

  lemma TurnEnds(s0: Snap, w: Wakeup, s1: Snap, sd: bool, rb: bool)
    requires Turn(s0, w, s1, sd, rb) && s0.user.Some? && s0.session in w.exited
    ensures s0.history + [Ended(s0.user.value)] <= s1.history
  {
    hide AllHarmless, PowersOff, Replaced, Connection, TurnLines;
  }

  lemma TurnHolds(s0: Snap, w: Wakeup, s1: Snap, sd: bool, rb: bool)
    requires Turn(s0, w, s1, sd, rb) && s0.locked && s0.session !in w.exited && AllHarmless(TurnLines(s0, w))
    ensures s1.locked && s1.session == s0.session && s1.user == s0.user && s1.history == s0.history
    ensures s0.session != 0 && s0.xserver != 0 && s0.xserver !in w.exited && s0.greeter == 0 ==> s1.greeter == 0
  {
    hide AllHarmless, PowersOff, Replaced, Connection, TurnLines;
  }

  /** In every run, a locked session stays locked until its process exits or a message can unlock it. */
  lemma {:induction false} LockHolds(tr: seq<Snap>, ws: seq<Wakeup>, sd: bool, rb: bool, i: nat, n: nat)
    requires Turns(tr, ws, sd, rb) && i <= n < |tr| && tr[i].locked
    requires forall k :: i <= k < n ==> tr[i].session !in ws[k].exited && AllHarmless(TurnLines(tr[k], ws[k]))
    ensures tr[n].locked && tr[n].session == tr[i].session && tr[n].user == tr[i].user && tr[n].history == tr[i].history
    decreases n
  {
    hide Turn;
    if i < n {
      LockHolds(tr, ws, sd, rb, i, n - 1);
      assert Turn(tr[n - 1], ws[n - 1], tr[n], sd, rb);
      TurnHolds(tr[n - 1], ws[n - 1], tr[n], sd, rb);
    }
  }

  datatype ReadResult = Bytes(data: string) | NoData | EndOfFile

  /** A read never gives more than there is room for. */
  function Got(data: string, space: nat): string { if |data| <= space then data else data[..space] }

  lemma GotAll(data: string, space: nat)
    requires |data| <= space
    ensures Got(data, space) == data
  {
  }

  /** The requests that come by D-Bus. */
  datatype Request = Lock | Shutdown | Reboot

  /** What poll and the calls after it report in one iteration: exited children, the socket, requests. */
  datatype Wakeup = Wakeup(exited: seq<nat>, socketReady: bool, read: ReadResult, requests: seq<Request>)

  /** One call of the password check. */
  datatype Verdict = Verdict(user: string, password: string, right: bool)

  const MAX_USER: nat := 256
  const MAX_PASS: nat := 1024

  /** The arguments of AUTH: a name without spaces, a space, and the password. */
  predicate Asks(args: string, user: string, password: string) {
    && args == user + " " + password && (forall i :: 0 <= i < |user| ==> user[i] != ' ')
    && |user| < MAX_USER && |password| < MAX_PASS
  }

  lemma NoRequest(args: string, k: nat)
    requires k <= |args| && (k < |args| ==> args[k] == ' ') && forall i :: 0 <= i < k ==> args[i] != ' '
    requires k == |args| || k >= MAX_USER || |args| - k - 1 >= MAX_PASS
    ensures forall user, password :: !Asks(args, user, password)
  {
    forall user, password | Asks(args, user, password)
      ensures false
    {
      assert args[|user|] == ' ';
      assert forall i :: 0 <= i < |user| ==> args[i] == user[i];
    }
  }

  lemma OneRequest(args: string, k: nat)
    requires k < |args| && args[k] == ' ' && forall i :: 0 <= i < k ==> args[i] != ' '
    requires k < MAX_USER && |args| - k - 1 < MAX_PASS
    ensures forall user, password :: Asks(args, user, password) <==> user == args[..k] && password == args[k + 1..]
  {
    assert args == args[..k] + " " + args[k + 1..];
    forall user, password | Asks(args, user, password)
      ensures user == args[..k] && password == args[k + 1..]
    {
      assert args[|user|] == ' ';
      assert forall i :: 0 <= i < |user| ==> args[i] == user[i];
      assert |user| == k;
    }
  }

  /** Some line asks for power off or a reboot that is allowed. */
  predicate PowersOff(ls: seq<string>, allowShutdown: bool, allowReboot: bool) {
    (allowShutdown && "SHUTDOWN" in ls) || (allowReboot && "REBOOT" in ls)
  }

  lemma NoPowerOff(sd: bool, rb: bool)
    ensures !PowersOff([], sd, rb)
  {
  }

  lemma PowersOffAppended(ls: seq<string>, line: string, more: seq<string>, sd: bool, rb: bool)
    requires more == ls + (if line == "" then [] else [line])
    ensures PowersOff(more, sd, rb) <==> PowersOff(ls, sd, rb) || (line != "" && PowersOff([line], sd, rb))
  {
  }

  /** A process of ours is the one it was, gone, or new. */
  predicate Kept(was: nat, now: nat, born: set<nat>) { now == was || now == 0 || now in born }

  /** ... and not the one it was if that has exited. */
  predicate Replaced(was: nat, now: nat, exited: seq<nat>, born: set<nat>) {
    (now == was && was !in exited) || now == 0 || now in born
  }

  /** A line whose handler never closes the connection. */
  predicate Harmless(line: string) { !("AUTH " <= line) && line != "CANCEL_LOCK" }

  predicate AllHarmless(ls: seq<string>) { forall i :: 0 <= i < |ls| ==> Harmless(ls[i]) }

  lemma HarmlessAppended(ls: seq<string>, line: string, more: seq<string>)
    requires more == ls + (if line == "" then [] else [line])
    ensures AllHarmless(more) <==> AllHarmless(ls) && (line == "" || Harmless(line))
  {
    if AllHarmless(more) {
      assert forall i :: 0 <= i < |ls| ==> ls[i] == more[i];
      assert line != "" ==> more[|ls|] == line;
    }
  }

  lemma HarmlessParts(a: seq<string>, b: seq<string>)
    ensures AllHarmless(a + b) <==> AllHarmless(a) && AllHarmless(b)
  {
    if AllHarmless(a + b) {
      assert forall i :: 0 <= i < |a| ==> a[i] == (a + b)[i];
      assert forall i :: 0 <= i < |b| ==> b[i] == (a + b)[|a| + i];
    }
  }

  lemma NothingWaits()
    ensures Lines("") == []
  {
  }

  // ---------- a stream, read in pieces ----------

  lemma StreamStarts(s0: string, stream: string)
    requires Lines(s0) == []
    ensures s0 + stream[..0] == s0 && Rest(s0) == s0 && NonEmpty(Lines(s0)) == []
  {
    NoMoreLines(s0);
  }

  /** What waits leaves room for at least one byte. */
  lemma StreamRoom(s0: string, stream: string, pos: nat)
    requires pos < |stream| && Lacks(s0 + stream, NUL) && LinesFit(s0 + stream)
    ensures |Rest(s0 + stream[..pos])| < MAX_MSG - 1
  {
    var a, b := s0 + stream[..pos], stream[pos..];
    assert a + b == s0 + stream;
    LacksPart(a, b);
    LinesCut(a);
    RestFits(a, b);
    PendingFits(Rest(a), b);
  }

  lemma LacksPart(a: string, b: string)
    requires Lacks(a + b, NUL)
    ensures Lacks(a, NUL)
  {
    assert forall i :: 0 <= i < |a| ==> a[i] == (a + b)[i];
  }

  /** One more piece of the stream. */
  lemma StreamNext(s0: string, stream: string, pos: nat, n: nat, d0: seq<string>, pending: string)
    requires pos + n <= |stream| && pending == Rest(s0 + stream[..pos])
    ensures var a, b := s0 + stream[..pos], s0 + stream[..pos + n]; var c := pending + stream[pos..pos + n];
      && d0 + NonEmpty(Lines(a)) + NonEmpty(Lines(c)) == d0 + NonEmpty(Lines(b)) && Rest(c) == Rest(b)
      && (AllHarmless(NonEmpty(Lines(b))) <==> AllHarmless(NonEmpty(Lines(a))) && AllHarmless(NonEmpty(Lines(c))))
    ensures |stream[pos..pos + n]| == n
  {
    var a, x := s0 + stream[..pos], stream[pos..pos + n];
    assert s0 + stream[..pos + n] == a + x;
    ChunkIndependent(a, x);
    NonEmptyConcat(Lines(a), Lines(Rest(a) + x));
    HarmlessParts(NonEmpty(Lines(a)), NonEmpty(Lines(Rest(a) + x)));
    Associative(d0, NonEmpty(Lines(a)), NonEmpty(Lines(Rest(a) + x)));
  }

  lemma StreamEnds(s0: string, stream: string, pos: nat)
    requires pos <= |stream| && Lacks(s0 + stream, NUL)
    ensures Lines(s0 + stream) == Split(s0 + stream) && stream[..|stream|] == stream
    ensures AllHarmless(NonEmpty(Split(s0 + stream))) ==> AllHarmless(NonEmpty(Lines(s0 + stream[..pos])))
  {
    SplitIffNoNul(s0 + stream);
    assert stream[..|stream|] == stream;
    var a, x := s0 + stream[..pos], stream[pos..];
    assert s0 + stream == a + x;
    ChunkIndependent(a, x);
    NonEmptyConcat(Lines(a), Lines(Rest(a) + x));
    HarmlessParts(NonEmpty(Lines(a)), NonEmpty(Lines(Rest(a) + x)));
  }

  lemma KeywordsDiffer(line: string)
    ensures "AUTH " <= line ==> !("SESSION " <= line) && line != "CANCEL_LOCK" && line != "SHUTDOWN" && line != "REBOOT"
    ensures "SESSION " <= line ==> line != "CANCEL_LOCK" && line != "SHUTDOWN" && line != "REBOOT"
  {
    assert "AUTH " <= line ==> line[0] == "AUTH "[0];
    assert "SESSION " <= line ==> line[1] == "SESSION "[1];
  }

  lemma LineAt(s: string, lines: seq<string>, start: nat, k: nat)
    requires start <= k < |s| && k == start + Strchr(s[start..], 0)
    requires Lines(s) == lines + Lines(s[start..]) && Rest(s) == Rest(s[start..])
    ensures Lines(s) == lines + [s[start..k]] + Lines(s[k + 1..]) && Rest(s) == Rest(s[k + 1..])
    ensures NonEmpty(lines + [s[start..k]]) == NonEmpty(lines) + (if k > start then [s[start..k]] else [])
  {
    var t := s[start..];
    assert t[..k - start] == s[start..k] && t[k - start + 1..] == s[k + 1..];
    Associative(lines, [s[start..k]], Lines(s[k + 1..]));
    NonEmptyConcat(lines, [s[start..k]]);
    assert [s[start..k]][1..] == [];
  }

  lemma Slices(buf: array<char>, s: string, start: nat, k: nat, total: nat)
    requires start <= k < total == |s| && total <= buf.Length && buf[start..total] == s[start..]
    ensures buf[start..k] == s[start..k] && buf[k + 1..total] == s[k + 1..]
  {
    forall j | start <= j < total
      ensures buf[j] == s[j]
    {
      assert buf[start..total][j - start] == s[start..][j - start];
    }
  }

  lemma StaysOpen(n: int)
    ensures Closing(true, n, true, n)
    ensures forall o0, n0, o1, n1, o2, n2 :: Closing(o0, n0, o1, n1) && Closing(o1, n1, o2, n2) ==> Closing(o0, n0, o2, n2)
  {
  }

  lemma NonEmptyNothing()
    ensures NonEmpty([]) == []
  {
  }

  lemma NoMoreLines(t: string)
    ensures Strchr(t, 0) == |t| <==> Lines(t) == []
    ensures Lines(t) == [] ==> Rest(t) == t && NonEmpty(Lines(t)) == []
  {
  }

  lemma {:induction false} RestHasNoLine(s: string)
    ensures Lines(Rest(s)) == []
    decreases |s|
  {
    if Strchr(s, 0) < |s| {
      RestHasNoLine(s[Strchr(s, 0) + 1..]);
    }
  }

  /** The connection is as before, or closed with an empty buffer. */
  predicate Closing(open0: bool, len0: int, open1: bool, len1: int) {
    (open1 == open0 && len1 == len0) || (!open1 && len1 == if open0 then 0 else len0)
  }
}
