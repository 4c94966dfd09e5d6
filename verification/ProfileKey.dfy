/** The key under which a display profile is stored: the sorted EDID hashes of the connected monitors. */
module ProfileKey {
  import opened Paths

  /** strcmp(a, b) <= 0 */
  predicate Le(a: string, b: string) {
    a == "" || (b != "" && (a[0] < b[0] || (a[0] == b[0] && Le(a[1..], b[1..]))))
  }

  lemma {:induction false} LeTotal(a: string, b: string)
    ensures Le(a, b) || Le(b, a)
    ensures Le(a, b) && Le(b, a) ==> a == b
  {
    if a != "" && b != "" && a[0] == b[0] {
      LeTotal(a[1..], b[1..]);
      assert a == [a[0]] + a[1..] && b == [b[0]] + b[1..];
    }
  }

  lemma {:induction false} LeTransitive(a: string, b: string, c: string)
    requires Le(a, b) && Le(b, c)
    ensures Le(a, c)
  {
    if a != "" && a[0] == b[0] == c[0] {
      LeTransitive(a[1..], b[1..], c[1..]);
    }
  }

  /** A prefix comes first; otherwise the first character that differs decides. */
  lemma {:induction false} FirstDifferenceDecides(a: string, b: string)
    ensures Le(a, b) <==> a <= b || exists k: nat :: Differ(a, b, k) && a[k] < b[k]
  {
    if a != "" && b != "" {
      if a[0] == b[0] {
        FirstDifferenceDecides(a[1..], b[1..]);
        assert a == [a[0]] + a[1..] && b == [b[0]] + b[1..];
        assert a[1..] <= b[1..] ==> a <= b;
        forall k: nat | Differ(a[1..], b[1..], k)
          ensures Differ(a, b, k + 1)
        {
          assert a[..k + 1] == [a[0]] + a[1..][..k] && b[..k + 1] == [b[0]] + b[1..][..k];
        }
        forall k: nat | Differ(a, b, k)
          ensures k > 0 && Differ(a[1..], b[1..], k - 1)
        {
          assert a[1..][..k - 1] == a[..k][1..] && b[1..][..k - 1] == b[..k][1..];
        }
      } else {
        assert Differ(a, b, 0);
        forall k: nat | 0 < k < |a| && k < |b|
          ensures a[..k] != b[..k]
        {
          assert a[..k][0] != b[..k][0];
        }
      }
    }
  }

  /** `k` is the first place where the two differ. */
  predicate Differ(a: string, b: string, k: nat) { k < |a| && k < |b| && a[..k] == b[..k] && a[k] != b[k] }

  predicate Sorted(hs: seq<string>) { forall i, j :: 0 <= i < j < |hs| ==> Le(hs[i], hs[j]) }

  function Join(hs: seq<string>): string {
    if hs == [] then "" else if |hs| == 1 then hs[0] else Join(hs[..|hs| - 1]) + "," + hs[|hs| - 1]
  }

  /** One hash is its own join; between two lists there is a comma. */
  lemma {:induction false} JoinConcat(a: seq<string>, b: seq<string>)
    requires a != [] && b != []
    ensures Join(a + b) == Join(a) + "," + Join(b)
    ensures |a| == 1 ==> Join(a) == a[0]
    decreases |b|
  {
    var n := |b| - 1;
    assert (a + b)[..|a| + n] == a + b[..n];
    if n == 0 {
      assert a + b[..0] == a;
    } else {
      JoinConcat(a, b[..n]);
    }
  }

  function Room(hs: seq<string>): nat {
    if hs == [] then 0 else Room(hs[..|hs| - 1]) + |hs[|hs| - 1]| + 1
  }

  predicate CommaFree(h: string) { forall i :: 0 <= i < |h| ==> h[i] != ',' }

  predicate AllCommaFree(hs: seq<string>) { forall i :: 0 <= i < |hs| ==> CommaFree(hs[i]) }

  /** The key fills the buffer, terminator included. */
  lemma {:induction false} KeyFits(hs: seq<string>)
    requires hs != []
    ensures |Join(hs)| + 1 == Room(hs)
  {
    if |hs| > 1 {
      KeyFits(hs[..|hs| - 1]);
    } else {
      assert hs[..0] == [];
    }
  }

  // ---------- the key determines the list ----------

  lemma LastPiece(a: string, x: string, b: string, y: string)
    requires CommaFree(x) && CommaFree(y) && a + "," + x == b + "," + y
    ensures a == b && x == y
  {
    var s := a + "," + x;
    assert s[|a|] == ',' && s[|b|] == ',';
    assert s[|a| + 1..] == x && s[|b| + 1..] == y;
    CommaIsLast(s, |a|, |b|);
    assert a == s[..|a|] && b == s[..|b|];
  }

  lemma CommaIsLast(s: string, i: nat, j: nat)
    requires i < |s| && j < |s| && s[i] == ',' && s[j] == ',' && CommaFree(s[i + 1..]) && CommaFree(s[j + 1..])
    ensures i == j
  {
    NoneAfter(s, i);
    NoneAfter(s, j);
  }

  lemma NoneAfter(s: string, i: nat)
    requires i < |s| && CommaFree(s[i + 1..])
    ensures forall j :: i < j < |s| ==> s[j] != ','
  {
    forall j | i < j < |s|
      ensures s[j] != ','
    {
      assert s[i + 1..][j - i - 1] == s[j];
    }
  }

  lemma NoComma(a: string, x: string, y: string)
    requires CommaFree(y)
    ensures a + "," + x != y
  {
    assert (a + "," + x)[|a|] == ',';
  }

  lemma {:induction false} JoinInjective(a: seq<string>, b: seq<string>)
    requires a != [] && b != [] && AllCommaFree(a) && AllCommaFree(b) && Join(a) == Join(b)
    ensures a == b
    decreases |a|
  {
    var m, n := |a| - 1, |b| - 1;
    assert a == a[..m] + [a[m]] && b == b[..n] + [b[n]];
    if m == 0 || n == 0 {
      if n > 0 { NoComma(Join(b[..n]), b[n], a[0]); }
      if m > 0 { NoComma(Join(a[..m]), a[m], b[0]); }
    } else {
      LastPiece(Join(a[..m]), a[m], Join(b[..n]), b[n]);
      JoinInjective(a[..m], b[..n]);
    }
  }

  // ---------- the monitors determine the list ----------

  lemma LastIsLargest(hs: seq<string>, h: string)
    requires Sorted(hs) && h in hs
    ensures Le(h, hs[|hs| - 1])
  {
    LeTotal(h, h);
  }

  /** There is one way to sort. */
  lemma {:induction false} SortedUnique(a: seq<string>, b: seq<string>)
    requires Sorted(a) && Sorted(b) && multiset(a) == multiset(b)
    ensures a == b
    decreases |a|
  {
    hide Sorted, Le;
    SameLength(a, b);
    if a != [] {
      var n := |a| - 1;
      SameLargest(a, b);
      SortedFront(a);
      SortedFront(b);
      SameFront(a, b);
      SortedUnique(a[..n], b[..n]);
      assert a == a[..n] + [a[n]] && b == b[..n] + [b[n]];
    }
  }

  lemma SameLength(a: seq<string>, b: seq<string>)
    requires multiset(a) == multiset(b)
    ensures |a| == |b|
  {
    assert |a| == |multiset(a)| == |multiset(b)| == |b|;
  }

  lemma SameFront(a: seq<string>, b: seq<string>)
    requires multiset(a) == multiset(b) && a != [] && b != [] && a[|a| - 1] == b[|b| - 1]
    ensures multiset(a[..|a| - 1]) == multiset(b[..|b| - 1])
  {
    WithoutLast(a);
    WithoutLast(b);
  }

  lemma SortedFront(a: seq<string>)
    requires Sorted(a) && a != []
    ensures Sorted(a[..|a| - 1])
  {
    hide Le;
  }

  lemma SameLargest(a: seq<string>, b: seq<string>)
    requires Sorted(a) && Sorted(b) && multiset(a) == multiset(b) && a != [] && b != []
    ensures a[|a| - 1] == b[|b| - 1]
  {
    var x, y := a[|a| - 1], b[|b| - 1];
    assert x in multiset(a) && y in multiset(b);
    LastIsLargest(a, y);
    LastIsLargest(b, x);
    LeTotal(x, y);
  }

  lemma WithoutLast(a: seq<string>)
    requires a != []
    ensures multiset(a[..|a| - 1]) == multiset(a) - multiset{a[|a| - 1]}
  {
    assert a == a[..|a| - 1] + [a[|a| - 1]];
  }

  /** `key` is the joined hashes in sorted order. */
  ghost predicate IsKey(hs: seq<string>, key: string) {
    exists s: seq<string> :: Sorted(s) && multiset(s) == multiset(hs) && key == Join(s)
  }

  /** Two sets of monitors have the same key exactly when they are the same, in whatever order they
      were found. */
  lemma SameKeyIffSameMonitors(a: seq<string>, b: seq<string>, j: string, k: string)
    requires a != [] && b != [] && AllCommaFree(a) && AllCommaFree(b) && IsKey(a, j) && IsKey(b, k)
    ensures j == k <==> multiset(a) == multiset(b)
  {
    var s :| Sorted(s) && multiset(s) == multiset(a) && j == Join(s);
    var t :| Sorted(t) && multiset(t) == multiset(b) && k == Join(t);
    SortedCommaFree(a, s);
    SortedCommaFree(b, t);
    if j == k {
      JoinInjective(s, t);
    }
    if multiset(a) == multiset(b) {
      SortedUnique(s, t);
    }
  }

  lemma SortedCommaFree(hs: seq<string>, s: seq<string>)
    requires AllCommaFree(hs) && multiset(s) == multiset(hs) && hs != []
    ensures AllCommaFree(s) && s != []
  {
    forall i | 0 <= i < |s|
      ensures CommaFree(s[i])
    {
      assert s[i] in multiset(hs);
    }
    assert hs[0] in multiset(s);
  }

  // ---------- the program ----------

  /** An output as the X server reports it; `None` when it cannot be asked. */
  datatype Output = Output(connected: bool, hash: Option<string>)

  function Hashes(outs: seq<Option<Output>>): seq<string> {
    if outs == [] then []
    else
      var o := outs[|outs| - 1];
      Hashes(outs[..|outs| - 1]) + (if o.Some? && o.value.connected && o.value.hash.Some? then [o.value.hash.value] else [])
  }

  /** Output by output. */
  lemma {:induction false} HashesConcat(a: seq<Option<Output>>, b: seq<Option<Output>>)
    ensures Hashes(a + b) == Hashes(a) + Hashes(b)
    decreases |b|
  {
    if b == [] {
      assert a + b == a;
    } else {
      var n := |b| - 1;
      assert (a + b)[..|a| + n] == a + b[..n];
      HashesConcat(a, b[..n]);
    }
  }

  /** An output gives the hash of a connected monitor that has one, and nothing else. */
  lemma OneHash(o: Option<Output>)
    ensures Hashes([o]) == if o.Some? && o.value.connected && o.value.hash.Some? then [o.value.hash.value] else []
  {
    assert [o][..0] == [];
  }

  /** build_profile_key. `s` is the sorted array; its strings and separators fill the buffer exactly. */
  method BuildProfileKey(outs: seq<Option<Output>>) returns (key: Option<string>, ghost s: seq<string>)
    ensures key.None? <==> Hashes(outs) == []
    ensures key.Some? ==> IsKey(Hashes(outs), key.value)
    ensures key.Some? ==> s != [] && key.value == Join(s) && |key.value| + 1 == Room(s)
  {
    var hashes := Collect(outs);
    s := [];
    if hashes == [] {
      return None, [];
    }
    var sorted := Sort(hashes);
    SortedNonEmpty(hashes, sorted);
    var k := Concatenate(sorted);
    KeyFits(sorted);
    s := sorted;
    key := Some(k);
  }

  lemma SortedNonEmpty(hs: seq<string>, s: seq<string>)
    requires multiset(s) == multiset(hs) && hs != []
    ensures s != []
  {
    assert hs[0] in multiset(s);
  }

  /** The loop over the outputs. */
  method Collect(outs: seq<Option<Output>>) returns (hashes: seq<string>)
    ensures hashes == Hashes(outs)
  {
    hashes := [];
    var i := 0;
    while i < |outs|
      invariant i <= |outs| && hashes == Hashes(outs[..i])
    {
      assert outs[..i + 1][..i] == outs[..i];
      if outs[i].Some? && outs[i].value.connected && outs[i].value.hash.Some? {
        hashes := hashes + [outs[i].value.hash.value];
      }
      i := i + 1;
    }
    assert outs[..i] == outs;
  }

  /** The strcat loop. */
  method Concatenate(s: seq<string>) returns (k: string)
    ensures k == Join(s)
  {
    k := "";
    var i := 0;
    while i < |s|
      invariant i <= |s| && k == Join(s[..i])
    {
      assert s[..i + 1][..i] == s[..i];
      if i > 0 {
        k := k + ",";
      }
      k := k + s[i];
      i := i + 1;
    }
    assert s[..i] == s;
  }

  /** What qsort with strcmp gives. */
  method Sort(hs: seq<string>) returns (s: seq<string>)
    ensures Sorted(s) && multiset(s) == multiset(hs)
  {
    s := [];
    var i := 0;
    while i < |hs|
      invariant i <= |hs| && Sorted(s) && multiset(s) == multiset(hs[..i])
    {
      assert hs[..i + 1] == hs[..i] + [hs[i]];
      s := InsertSorted(s, hs[i]);
      i := i + 1;
    }
    assert hs[..i] == hs;
  }

  method InsertSorted(s: seq<string>, h: string) returns (t: seq<string>)
    requires Sorted(s)
    ensures Sorted(t) && multiset(t) == multiset(s) + multiset{h}
  {
    var k: nat := |s|;
    while k > 0 && !Le(s[k - 1], h)
      invariant k <= |s| && forall j :: k <= j < |s| ==> Le(h, s[j])
    {
      LeTotal(s[k - 1], h);
      k := k - 1;
    }
    Fits(s, h, k);
    t := s[..k] + [h] + s[k..];
  }

  lemma Fits(s: seq<string>, h: string, k: nat)
    requires Sorted(s) && k <= |s| && (k > 0 ==> Le(s[k - 1], h)) && forall j :: k <= j < |s| ==> Le(h, s[j])
    ensures var t := s[..k] + [h] + s[k..]; Sorted(t) && multiset(t) == multiset(s) + multiset{h}
  {
    hide Le;
    forall j | 0 <= j < k
      ensures Le(s[j], h)
    {
      if j < k - 1 {
        LeTransitive(s[j], s[k - 1], h);
      }
    }
    assert s == s[..k] + s[k..];
  }
}
