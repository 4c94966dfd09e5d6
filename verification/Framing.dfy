/** Cutting a byte stream into lines with a bounded buffer, as the greeter's socket is read. */
module Framing {

  const MAX_MSG: nat := 4096
  const NUL: char := 0 as char

  /** strchr for a newline from `i` on: it does not look past a NUL. */
  function Strchr(s: string, i: nat): (k: nat)
    requires i <= |s|
    ensures i <= k <= |s| && (k < |s| ==> s[k] == '\n')
    ensures k < |s| ==> forall j :: i <= j < k ==> s[j] != '\n' && s[j] != NUL
    decreases |s| - i
  {
    if i == |s| || s[i] == '\n' then i
    else if s[i] == NUL then |s|
    else Strchr(s, i + 1)
  }

  /** The complete lines at the front of what has arrived, and what is left over. */
  function Lines(s: string): seq<string>
    decreases |s|
  {
    var k := Strchr(s, 0);
    if k == |s| then [] else [s[..k]] + Lines(s[k + 1..])
  }

  function Rest(s: string): string
    decreases |s|
  {
    var k := Strchr(s, 0);
    if k == |s| then s else Rest(s[k + 1..])
  }

  function NonEmpty(ls: seq<string>): seq<string> {
    if ls == [] then [] else (if ls[0] == "" then [] else [ls[0]]) + NonEmpty(ls[1..])
  }

  function Join(ls: seq<string>): string {
    if ls == [] then "" else ls[0] + "\n" + Join(ls[1..])
  }

  predicate Lacks(s: string, c: char) { forall i :: 0 <= i < |s| ==> s[i] != c }

  // ---------- the lines of a stream ----------

  lemma {:induction false} StrchrIs(s: string, i: nat, k: nat)
    requires i <= k < |s| && s[k] == '\n' && forall j :: i <= j < k ==> s[j] != '\n' && s[j] != NUL
    ensures Strchr(s, i) == k
    decreases k - i
  {
    if i < k {
      StrchrIs(s, i + 1, k);
    }
  }

  lemma {:induction false} StrchrLacks(s: string, i: nat)
    requires i <= |s| && Lacks(s, NUL) && Strchr(s, i) == |s|
    ensures forall j :: i <= j < |s| ==> s[j] != '\n'
    decreases |s| - i
  {
    if i < |s| {
      StrchrLacks(s, i + 1);
    }
  }

  /** Nothing is lost or added: the lines and what is left over make up the stream. */
  lemma {:induction false} LinesJoin(s: string)
    ensures Join(Lines(s)) + Rest(s) == s
    decreases |s|
  {
    hide Strchr;
    var k := Strchr(s, 0);
    if k == |s| {
      assert Join([]) + s == s;
    } else {
      var l, t := s[..k], s[k + 1..];
      LinesJoin(t);
      JoinFirst(l, Lines(t), Rest(t));
      CutAt(s, k);
    }
  }

  lemma CutAt(s: string, k: nat)
    requires k < |s| && s[k] == '\n'
    ensures s[..k] + "\n" + s[k + 1..] == s
  {
  }

  /** Without NULs the stream is cut at every newline. */
  lemma {:induction false} LinesCut(s: string)
    requires Lacks(s, NUL)
    ensures Lacks(Rest(s), '\n') && Lacks(Rest(s), NUL) && forall l :: l in Lines(s) ==> Lacks(l, '\n')
    decreases |s|
  {
    var k := Strchr(s, 0);
    if k == |s| {
      StrchrLacks(s, 0);
    } else {
      LinesCut(s[k + 1..]);
    }
  }

  lemma JoinFirst(l: string, ls: seq<string>, rest: string)
    ensures Join([l] + ls) + rest == l + "\n" + (Join(ls) + rest)
  {
    assert ([l] + ls)[1..] == ls;
    Associative(l + "\n", Join(ls), rest);
  }

  lemma Associative<T>(a: seq<T>, b: seq<T>, c: seq<T>)
    ensures a + b + c == a + (b + c)
  {
  }

  /** However a stream arrives in pieces, the same lines come out. */
  lemma {:induction false} ChunkIndependent(a: string, b: string)
    ensures Lines(a + b) == Lines(a) + Lines(Rest(a) + b)
    ensures Rest(a + b) == Rest(Rest(a) + b)
    decreases |a|
  {
    var k := Strchr(a, 0);
    if k == |a| {
      assert Lines(a) + Lines(a + b) == Lines(a + b);
    } else {
      assert (a + b)[..k] == a[..k] && (a + b)[k + 1..] == a[k + 1..] + b;
      StrchrIs(a + b, 0, k);
      ChunkIndependent(a[k + 1..], b);
      Associative([a[..k]], Lines(a[k + 1..]), Lines(Rest(a) + b));
    }
  }

  lemma {:induction false} NonEmptyConcat(a: seq<string>, b: seq<string>)
    ensures NonEmpty(a + b) == NonEmpty(a) + NonEmpty(b)
  {
    if a == [] {
      assert a + b == b;
    } else {
      assert (a + b)[1..] == a[1..] + b;
      NonEmptyConcat(a[1..], b);
    }
  }

  /** Once a NUL waits before any newline, no line comes out any more. */
  lemma {:induction false} NulBlocks(s: string, more: string, i: nat)
    requires i < |s| && s[i] == NUL && forall j :: 0 <= j < i ==> s[j] != '\n'
    ensures Lines(s + more) == [] && Rest(s + more) == s + more
  {
    var t := s + more;
    assert t[i] == NUL && forall j :: 0 <= j < i ==> t[j] == s[j];
    NulFirst(t, 0, i);
  }

  lemma {:induction false} NulFirst(t: string, i: nat, k: nat)
    requires i <= k < |t| && t[k] == NUL && forall j :: i <= j < k ==> t[j] != '\n'
    ensures Strchr(t, i) == |t|
    decreases k - i
  {
    if i < k && t[i] != NUL {
      NulFirst(t, i + 1, k);
    }
  }

  // ---------- the lines a reader of the stream expects ----------

  function FirstNewline(s: string): (k: nat)
    ensures k <= |s| && (k < |s| ==> s[k] == '\n') && forall j :: 0 <= j < k ==> s[j] != '\n'
  {
    if s == "" || s[0] == '\n' then 0
    else
      var k := 1 + FirstNewline(s[1..]);
      assert forall j :: 0 < j < k ==> s[j] == s[1..][j - 1];
      k
  }

  /** The stream cut at every newline, whatever else is in it. */
  function Split(s: string): seq<string>
    decreases |s|
  {
    var k := FirstNewline(s);
    if k == |s| then [] else [s[..k]] + Split(s[k + 1..])
  }

  /** A NUL comes before a newline. */
  predicate NulBeforeNewline(s: string) { exists i, j :: 0 <= i < j < |s| && s[i] == NUL && s[j] == '\n' }

  /** The lines that come out are the first ones of the stream, and all of them exactly when no NUL comes before
      a newline. */
  lemma {:induction false} SplitIffNoNul(s: string)
    ensures Lines(s) <= Split(s)
    ensures Lines(s) == Split(s) <==> !NulBeforeNewline(s)
    ensures Lacks(Rest(s), '\n') <==> !NulBeforeNewline(s)
    decreases |s|
  {
    hide Strchr, FirstNewline, NulBeforeNewline, Lacks;
    var k, f := Strchr(s, 0), FirstNewline(s);
    if f < |s| {
      StrchrOrNul(s, f);
      if k < |s| {
        SplitIffNoNul(s[f + 1..]);
        LaterNul(s, f);
      } else {
        EarlierNul(s, f);
      }
    } else {
      NoNewline(s);
      NoLineYet(s);
    }
  }

  /** The first newline is found unless a NUL comes before it. */
  lemma StrchrOrNul(s: string, f: nat)
    requires f < |s| && s[f] == '\n' && forall j :: 0 <= j < f ==> s[j] != '\n'
    ensures Strchr(s, 0) == f || Strchr(s, 0) == |s|
    ensures Strchr(s, 0) == f <==> forall j :: 0 <= j < f ==> s[j] != NUL
  {
    if i :| 0 <= i < f && s[i] == NUL {
      NulFirst(s, 0, i);
    } else {
      StrchrIs(s, 0, f);
    }
  }

  lemma EarlierNul(s: string, f: nat)
    requires f < |s| && s[f] == '\n' && !forall j :: 0 <= j < f ==> s[j] != NUL
    ensures NulBeforeNewline(s) && !Lacks(s, '\n')
  {
  }

  lemma NoNewline(s: string)
    requires forall j :: 0 <= j < |s| ==> s[j] != '\n'
    ensures Lacks(s, '\n') && !NulBeforeNewline(s)
  {
  }

  lemma LaterNul(s: string, f: nat)
    requires f < |s| && s[f] == '\n' && forall j :: 0 <= j < f ==> s[j] != NUL
    ensures NulBeforeNewline(s) <==> NulBeforeNewline(s[f + 1..])
  {
    var t := s[f + 1..];
    if NulBeforeNewline(s) {
      var i, j :| 0 <= i < j < |s| && s[i] == NUL && s[j] == '\n';
      assert t[i - f - 1] == NUL && t[j - f - 1] == '\n';
    }
    if NulBeforeNewline(t) {
      var i, j :| 0 <= i < j < |t| && t[i] == NUL && t[j] == '\n';
      assert s[f + 1 + i] == NUL && s[f + 1 + j] == '\n';
    }
  }

  // ---------- a connection ----------

  /** A connection whose handlers never close it. A read never asks for more than fits. */
  datatype Conn = Conn(isOpen: bool, pending: string, out: seq<string>)

  function Receive(c: Conn, chunk: string): Conn {
    if !c.isOpen then c
    else if |c.pending| >= MAX_MSG - 1 then Conn(false, "", c.out)
    else Conn(true, Rest(c.pending + chunk), c.out + NonEmpty(Lines(c.pending + chunk)))
  }

  function ReceiveAll(c: Conn, chunks: seq<string>): Conn
    decreases |chunks|
  {
    if chunks == [] then c else ReceiveAll(Receive(c, chunks[0]), chunks[1..])
  }

  function Concat(chunks: seq<string>): string {
    if chunks == [] then "" else chunks[0] + Concat(chunks[1..])
  }

  /** Every line of the stream, and what follows the last one, leaves a byte of the buffer free. */
  predicate LinesFit(s: string) {
    |Rest(s)| < MAX_MSG - 1 && forall i :: 0 <= i < |Lines(s)| ==> |Lines(s)[i]| < MAX_MSG - 1
  }

  /** What waits is part of one line of the whole stream. */
  lemma PendingFits(p: string, q: string)
    requires Lacks(p, '\n') && LinesFit(p + q)
    ensures |p| < MAX_MSG - 1
  {
    var s := p + q;
    var k := Strchr(s, 0);
    assert k >= |p| by {
      assert forall i :: 0 <= i < |p| ==> s[i] == p[i];
    }
    if k < |s| {
      assert Lines(s)[0] == s[..k];
    }
  }

  lemma RestFits(a: string, b: string)
    requires Lacks(a, NUL) && LinesFit(a + b)
    ensures LinesFit(Rest(a) + b)
  {
    ChunkIndependent(a, b);
    var l := Lines(Rest(a) + b);
    assert forall i :: 0 <= i < |l| ==> Lines(a + b)[|Lines(a)| + i] == l[i];
  }

  /** A stream without NULs whose lines fit is dispatched line by line, however it is split. */
  lemma {:induction false} StreamIsDispatched(c: Conn, chunks: seq<string>)
    requires c.isOpen && Lacks(c.pending, '\n') && Lacks(c.pending, NUL) && Lacks(Concat(chunks), NUL)
    requires LinesFit(c.pending + Concat(chunks))
    ensures var s := c.pending + Concat(chunks);
      ReceiveAll(c, chunks) == Conn(true, Rest(s), c.out + NonEmpty(Lines(s)))
    decreases |chunks|
  {
    var s := c.pending + Concat(chunks);
    if chunks == [] {
      assert s == c.pending;
      NoLineYet(s);
    } else {
      var a, b := c.pending + chunks[0], Concat(chunks[1..]);
      assert Concat(chunks) == chunks[0] + b;
      Associative(c.pending, chunks[0], b);
      assert forall i :: 0 <= i < |b| ==> b[i] == Concat(chunks)[|chunks[0]| + i];
      assert forall i :: 0 <= i < |chunks[0]| ==> chunks[0][i] == Concat(chunks)[i];
      PendingFits(c.pending, Concat(chunks));
      RestFits(a, b);
      LinesCut(a);
      ChunkIndependent(a, b);
      StreamIsDispatched(Receive(c, chunks[0]), chunks[1..]);
      NonEmptyConcat(Lines(a), Lines(Rest(a) + b));
      Associative(c.out, NonEmpty(Lines(a)), NonEmpty(Lines(Rest(a) + b)));
    }
  }

  lemma NoLineYet(s: string)
    requires Lacks(s, '\n')
    ensures Lines(s) == [] && Rest(s) == s
  {
  }
}
