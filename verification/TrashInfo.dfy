/** The .trashinfo file: how a path is written into it, and what reading it gives back.
    A character is one byte, and a C string ends before its first NUL. */
module TrashInfo {
  import opened Paths

  /** A path as the kernel accepts it: bytes, none of them NUL. */
  predicate Bytes(p: string) {
    forall i :: 0 <= i < |p| ==> 1 <= p[i] as int < 256
  }

  function Find(s: string, c: char, i: nat): (k: nat)
    requires i <= |s|
    ensures i <= k <= |s| && (k < |s| ==> s[k] == c)
    ensures forall j :: i <= j < k ==> s[j] != c
    decreases |s| - i
  {
    if i == |s| || s[i] == c then i else Find(s, c, i + 1)
  }

  lemma {:induction false} FindIs(s: string, c: char, i: nat, k: nat)
    requires i <= k <= |s| && (k < |s| ==> s[k] == c)
    requires forall j :: i <= j < k ==> s[j] != c
    ensures Find(s, c, i) == k
    decreases k - i
  {
    if i < k {
      FindIs(s, c, i + 1, k);
    }
  }

  function CString(s: string): string { s[..Find(s, 0 as char, 0)] }

  // ---------- writing ----------

  predicate Unreserved(c: char) {
    || c == '/' || 'A' <= c <= 'Z' || 'a' <= c <= 'z' || '0' <= c <= '9'
    || c == '-' || c == '_' || c == '.' || c == '~'
  }

  function HexDigit(n: nat): char
    requires n < 16
  {
    if n < 10 then ('0' as int + n) as char else ('A' as int + n - 10) as char
  }

  function EncodeChar(c: char): string
    requires c as int < 256
  {
    if Unreserved(c) then [c] else ['%', HexDigit(c as int / 16), HexDigit(c as int % 16)]
  }

  function Encode(p: string): string
    requires Bytes(p)
  {
    if p == "" then "" else EncodeChar(p[0]) + Encode(p[1..])
  }

  lemma {:induction false} EncodeLast(p: string, c: char)
    requires Bytes(p) && 1 <= c as int < 256
    ensures Encode(p + [c]) == Encode(p) + EncodeChar(c)
  {
    if p == "" {
      assert (p + [c])[1..] == "";
    } else {
      assert (p + [c])[1..] == p[1..] + [c];
      EncodeLast(p[1..], c);
    }
  }

  /** Each character is written on its own: an unreserved one as it is, any other as a percent sign and two digits. */
  lemma EncodedAs(p: string, c: char, q: string)
    requires Bytes(p) && 1 <= c as int < 256 && Bytes(q)
    ensures Encode(p + [c] + q) == Encode(p) + (if Unreserved(c) then [c] else
      ['%', "0123456789ABCDEF"[c as int / 16], "0123456789ABCDEF"[c as int % 16]]) + Encode(q)
  {
    EncodeLast(p, c);
    EncodeConcat(p + [c], q);
    HexDigits(c as int / 16);
    HexDigits(c as int % 16);
  }

  lemma HexDigits(n: nat)
    requires n < 16
    ensures HexDigit(n) == "0123456789ABCDEF"[n]
  {
  }

  lemma {:induction false} EncodeConcat(p: string, q: string)
    requires Bytes(p) && Bytes(q)
    ensures Encode(p + q) == Encode(p) + Encode(q)
  {
    if p == "" {
      assert p + q == q;
    } else {
      assert (p + q)[0] == p[0] && (p + q)[1..] == p[1..] + q;
      EncodeConcat(p[1..], q);
    }
  }

  /** url_encode_path: `enc` grows inside a buffer of three bytes per byte and a terminator. */
  method UrlEncode(path: string) returns (enc: string)
    requires Bytes(path)
    ensures enc == Encode(path) && |enc| + 1 <= |path| * 3 + 1
  {
    enc := "";
    var i := 0;
    while i < |path|
      invariant i <= |path| && enc == Encode(path[..i]) && |enc| <= 3 * i
    {
      EncodeLast(path[..i], path[i]);
      assert path[..i + 1] == path[..i] + [path[i]];
      enc := enc + EncodeChar(path[i]);
      i := i + 1;
    }
    assert path[..i] == path;
  }

  const HEADER: string := "[Trash Info]\n"

  function Text(p: string, date: string): string
    requires Bytes(p)
  {
    HEADER + ("Path=" + Encode(p) + "\n" + ("DeletionDate=" + date + "\n"))
  }

  // ---------- reading ----------

  function HexValue(c: char): Option<nat> {
    if '0' <= c <= '9' then Some(c as int - '0' as int)
    else if 'A' <= c <= 'F' then Some(c as int - 'A' as int + 10)
    else if 'a' <= c <= 'f' then Some(c as int - 'a' as int + 10)
    else None
  }

  predicate Space(c: char) { c == ' ' || 9 <= c as int <= 13 }

  /** strtol in base 16 on two characters, truncated to a byte: a number may be followed by
      something else, or follow a blank or a sign, and anything else is zero. */
  function HexByte(a: char, b: char): char {
    match HexValue(a)
    case Some(x) => (match HexValue(b) case Some(y) => (16 * x + y) as char case None => x as char)
    case None =>
      match HexValue(b)
      case None => 0 as char
      case Some(y) =>
        if Space(a) || a == '+' then y as char
        else if a == '-' then ((256 - y) % 256) as char
        else 0 as char
  }

  /** Digits of either case are read. */
  lemma BothCases(x: nat, y: nat, a: char, b: char)
    requires x < 16 && y < 16 && a in {"0123456789ABCDEF"[x], "0123456789abcdef"[x]} && b in {"0123456789ABCDEF"[y], "0123456789abcdef"[y]}
    ensures HexByte(a, b) == (16 * x + y) as char
  {
    hide HexValue;
    DigitValue(x, a);
    DigitValue(y, b);
  }

  lemma DigitValue(n: nat, c: char)
    requires n < 16 && c in {"0123456789ABCDEF"[n], "0123456789abcdef"[n]}
    ensures HexValue(c) == Some(n)
  {
    assert "0123456789ABCDEF"[n] == if n < 10 then ('0' as int + n) as char else ('A' as int + n - 10) as char;
    assert "0123456789abcdef"[n] == if n < 10 then ('0' as int + n) as char else ('a' as int + n - 10) as char;
  }

  function Decode(v: string): string {
    if v == "" then ""
    else if v[0] == '%' && 2 < |v| then [HexByte(v[1], v[2])] + Decode(v[3..])
    else [v[0]] + Decode(v[1..])
  }

  /** The decoding loop of read_trashinfo_path. */
  method DecodeValue(val: string) returns (out: string)
    ensures out == Decode(val)
  {
    out := "";
    var i := 0;
    while i < |val|
      invariant i <= |val| && out + Decode(val[i..]) == Decode(val)
    {
      DecodeAt(val, i, out);
      if val[i] == '%' && i + 2 < |val| {
        out := out + [HexByte(val[i + 1], val[i + 2])];
        i := i + 2;
      } else {
        out := out + [val[i]];
      }
      i := i + 1;
    }
    assert out + "" == out;
  }

  lemma DecodeAt(v: string, i: nat, out: string)
    requires i < |v|
    ensures out + Decode(v[i..]) ==
      if v[i] == '%' && i + 2 < |v| then out + [HexByte(v[i + 1], v[i + 2])] + Decode(v[i + 3..])
      else out + [v[i]] + Decode(v[i + 1..])
  {
    var rest := v[i..];
    if v[i] == '%' && i + 2 < |v| {
      assert rest[3..] == v[i + 3..];
    } else {
      assert rest[1..] == v[i + 1..];
    }
  }

  /** Where one fgets into a buffer of PATH_MAX bytes stops. */
  function ChunkEnd(s: string, i: nat): (k: nat)
    requires i < |s|
    ensures i < k <= |s|
  {
    var n := Find(s, '\n', i);
    var k := if n < |s| then n + 1 else n;
    if k - i < PATH_MAX then k else i + PATH_MAX - 1
  }

  function Value(line: string): string
    requires |line| >= 5
  {
    CString(Decode(line[5..Find(line, '\n', 5)]))
  }

  /** The first line, or piece of a line, that starts with "Path=". */
  function ReadFrom(s: string, i: nat): Option<string>
    requires i <= |s|
    decreases |s| - i
  {
    if i == |s| then None
    else
      var line := CString(s[i..ChunkEnd(s, i)]);
      if "Path=" <= line then Some(Value(line)) else ReadFrom(s, ChunkEnd(s, i))
  }

  method ReadTrashInfoPath(data: string) returns (path: Option<string>)
    ensures path == ReadFrom(data, 0)
  {
    var i := 0;
    while i < |data|
      invariant i <= |data| && ReadFrom(data, 0) == ReadFrom(data, i)
    {
      var k := ChunkEnd(data, i);
      var line := CString(data[i..k]);
      if "Path=" <= line {
        var result := DecodeValue(line[5..Find(line, '\n', 5)]);
        return Some(CString(result));
      }
      i := k;
    }
    path := None;
  }

  // ---------- what is read back ----------

  lemma HexRoundTrip(c: char)
    requires c as int < 256
    ensures HexByte(HexDigit(c as int / 16), HexDigit(c as int % 16)) == c
  {
  }

  lemma DecodeStep(c: char, rest: string)
    requires 1 <= c as int < 256
    ensures Decode(EncodeChar(c) + rest) == [c] + Decode(rest)
  {
    var v := EncodeChar(c) + rest;
    HexRoundTrip(c);
    if Unreserved(c) {
      assert v[1..] == rest;
    } else {
      assert v[3..] == rest;
    }
  }

  lemma {:induction false} DecodeEncode(p: string)
    requires Bytes(p)
    ensures Decode(Encode(p)) == p
  {
    if p != "" {
      DecodeEncode(p[1..]);
      DecodeStep(p[0], Encode(p[1..]));
    }
  }

  lemma {:induction false} EncodedIsPlain(p: string)
    requires Bytes(p)
    ensures forall i :: 0 <= i < |Encode(p)| ==> Encode(p)[i] == '%' || Unreserved(Encode(p)[i])
  {
    if p != "" {
      EncodedIsPlain(p[1..]);
    }
  }

  predicate EndsWith(p: string, t: string) { |t| <= |p| && p[|p| - |t|..] == t }

  /** The only cuts that decode to the whole path again: the last two characters of an escaped
      percent sign are missing, or the last of it and a 2 after it. */
  predicate CutUnnoticed(p: string, n: nat)
    requires Bytes(p)
  {
    |Encode(p)| == n + 2 && (EndsWith(p, "%") || EndsWith(p, "%2"))
  }

  lemma {:induction false} DecodeCut(p: string, n: nat)
    requires Bytes(p) && n <= |Encode(p)|
    ensures Decode(Encode(p)[..n]) == p <==> n == |Encode(p)| || CutUnnoticed(p, n)
  {
    if n == |Encode(p)| {
      assert Encode(p)[..n] == Encode(p);
      DecodeEncode(p);
    } else {
      var e, r := EncodeChar(p[0]), p[1..];
      if n < |e| {
        CutInFirst(p, n);
      } else {
        assert Encode(p)[..n] == e + Encode(r)[..n - |e|];
        DecodeStep(p[0], Encode(r)[..n - |e|]);
        DecodeCut(r, n - |e|);
        assert p == [p[0]] + r;
        EndsLater(p[0], r, n);
      }
    }
  }

  lemma {:induction false} EncodedLength(p: string)
    requires Bytes(p)
    ensures |Encode(p)| >= |p|
  {
    if p != "" {
      EncodedLength(p[1..]);
    }
  }

  lemma CutInFirst(p: string, n: nat)
    requires Bytes(p) && p != "" && n < |EncodeChar(p[0])|
    ensures Decode(Encode(p)[..n]) == p <==> CutUnnoticed(p, n)
  {
    var c, e, r := p[0], EncodeChar(p[0]), p[1..];
    assert p == [c] + r && Encode(p)[..n] == e[..n];
    DecodeShort(c, n);
    EncodedLength(r);
    ShortCut(c, r, n);
  }

  lemma ShortCut(c: char, r: string, n: nat)
    requires 1 <= c as int < 256 && Bytes(r) && n < |EncodeChar(c)| && |Encode(r)| >= |r|
    ensures EncodeChar(c)[..n] == [c] + r <==>
      |EncodeChar(c)| + |Encode(r)| == n + 2 && (EndsWith([c] + r, "%") || EndsWith([c] + r, "%2"))
  {
    hide EndsWith, Encode, EncodeChar;
    EncodedSizes(c);
    if |r| == 0 {
      ShortCutOfOne(c, n);
      assert [c] + r == [c];
    } else if |r| == 1 {
      EncodedSizes(r[0]);
      ShortEncoding(c, r[0]);
      OneMore(c, r);
      assert r == [r[0]];
    }
  }

  lemma EncodedSizes(c: char)
    requires 1 <= c as int < 256
    ensures |EncodeChar(c)| in {1, 3} && Encode("") == ""
  {
  }

  lemma ShortCutOfOne(c: char, n: nat)
    requires 1 <= c as int < 256 && n < |EncodeChar(c)|
    ensures EncodeChar(c)[..n] == [c] <==>
      |EncodeChar(c)| == n + 2 && (EndsWith([c], "%") || EndsWith([c], "%2"))
  {
    hide Unreserved, HexDigit;
    ShortEncoding(c, c);
    assert [c][0..] == [c];
    assert n == 1 ==> EncodeChar(c)[..1] == ['%'];
  }

  lemma ShortEncoding(c: char, d: char)
    requires 1 <= c as int < 256 && 1 <= d as int < 256
    ensures |EncodeChar(c)| > 2 ==> (EncodeChar(c)[..2] == [c, d] <==> c == '%' && d == '2')
    ensures c == '%' ==> |EncodeChar(c)| == 3
    ensures (d == '2' ==> |EncodeChar(d)| == 1) && (d == '%' ==> |EncodeChar(d)| == 3)
  {
    var e := EncodeChar(c);
    if |e| > 2 {
      assert e[..2] == [e[0], e[1]];
    }
  }

  lemma DecodeShort(c: char, n: nat)
    requires 1 <= c as int < 256 && n < |EncodeChar(c)|
    ensures var v := EncodeChar(c)[..n]; Decode(v) == v
  {
    var v := EncodeChar(c)[..n];
    if n > 0 {
      var w := v[1..];
      assert Decode(v) == [v[0]] + Decode(w);
      if n == 2 {
        assert w[1..] == "" && Decode(w) == [w[0]] + "";
      }
    }
  }

  lemma OneMore(c: char, r: string)
    requires 1 <= c as int < 256 && Bytes(r) && |r| == 1
    ensures [c] + r == [c, r[0]] && Encode(r) == EncodeChar(r[0])
    ensures EndsWith([c] + r, "%2") <==> c == '%' && r == "2"
    ensures EndsWith([c] + r, "%") <==> r == "%"
  {
    assert Encode("") == "";
    hide EncodeChar;
    assert r[1..] == "" && EncodeChar(r[0]) + "" == EncodeChar(r[0]);
    assert [c] + r == [c, r[0]] && [c, r[0]][1..] == [r[0]];
    assert r == [r[0]];
  }

  lemma TwoMore(c: char, r: string)
    requires |r| >= 2
    ensures EndsWith([c] + r, "%") == EndsWith(r, "%") && EndsWith([c] + r, "%2") == EndsWith(r, "%2")
  {
    assert ([c] + r)[|r|..] == r[|r| - 1..] && ([c] + r)[|r| - 1..] == r[|r| - 2..];
  }

  lemma EndsLater(c: char, r: string, n: nat)
    requires 1 <= c as int < 256 && Bytes(r) && r != "" && |EncodeChar(c)| <= n
    ensures |EncodeChar(c)| + |Encode(r)| == n + 2 && (EndsWith([c] + r, "%") || EndsWith([c] + r, "%2"))
      <==> CutUnnoticed(r, n - |EncodeChar(c)|)
  {
    hide Encode;
    if |r| >= 2 {
      TwoMore(c, r);
    } else {
      OneMore(c, r);
      assert r == [r[0]];
    }
  }

  predicate Lacks(s: string, c: char) { forall i :: 0 <= i < |s| ==> s[i] != c }

  lemma WholeCString(s: string)
    requires Lacks(s, 0 as char)
    ensures CString(s) == s
  {
    FindIs(s, 0 as char, 0, |s|);
  }

  lemma {:induction false} CutHasNoNul(p: string, n: nat)
    requires Bytes(p) && n <= |Encode(p)|
    ensures CString(Decode(Encode(p)[..n])) == Decode(Encode(p)[..n])
  {
    DecodedCutHasNoNul(p, n);
    WholeCString(Decode(Encode(p)[..n]));
  }

  lemma {:induction false} DecodedCutHasNoNul(p: string, n: nat)
    requires Bytes(p) && n <= |Encode(p)|
    ensures Lacks(Decode(Encode(p)[..n]), 0 as char)
  {
    if p != "" {
      var e, r := EncodeChar(p[0]), p[1..];
      if n < |e| {
        assert Encode(p)[..n] == e[..n];
        DecodeShort(p[0], n);
      } else {
        assert Encode(p)[..n] == e + Encode(r)[..n - |e|];
        DecodeStep(p[0], Encode(r)[..n - |e|]);
        DecodedCutHasNoNul(r, n - |e|);
      }
    }
  }

  lemma HeaderIsSkipped(rest: string)
    ensures ReadFrom(HEADER + rest, 0) == ReadFrom(HEADER + rest, 13)
  {
    var s := HEADER + rest;
    FindIs(s, '\n', 0, 12);
    assert s[0..13] == HEADER;
    WholeCString(HEADER);
  }

  /** One fgets of a line that starts with "Path=". */
  lemma PathChunk(s: string, i: nat, e: string, rest: string)
    requires i <= |s| && s[i..] == "Path=" + e + "\n" + rest && Lacks(e, '\n')
    ensures s[i..ChunkEnd(s, i)] == if |e| < 4090 then "Path=" + e + "\n" else "Path=" + e[..4090]
  {
    var t := s[i..];
    assert forall j :: i <= j < |s| ==> s[j] == t[j - i];
    assert forall j :: 5 <= j < 5 + |e| ==> t[j] == e[j - 5];
    FindIs(s, '\n', i, i + 5 + |e|);
  }

  lemma PathValue(line: string, e: string)
    requires Lacks(e, '\n') && (line == "Path=" + e || line == "Path=" + e + "\n")
    ensures Value(line) == CString(Decode(e))
  {
    FindIs(line, '\n', 5, 5 + |e|);
    assert line[5..5 + |e|] == e;
  }

  lemma PathLine(s: string, i: nat, e: string, rest: string)
    requires i <= |s| && s[i..] == "Path=" + e + "\n" + rest
    requires Lacks(e, '\n') && Lacks(e, 0 as char)
    ensures var n := if |e| <= 4090 then |e| else 4090; ReadFrom(s, i) == Some(CString(Decode(e[..n])))
  {
    hide Decode, ReadFrom, ChunkEnd, CString, Value;
    var n := if |e| <= 4090 then |e| else 4090;
    PathChunk(s, i, e, rest);
    var line := s[i..ChunkEnd(s, i)];
    assert Lacks(e[..n], '\n');
    WholeCString(line);
    assert e[..|e|] == e;
    PathValue(line, e[..n]);
    ReadHere(s, i);
  }

  lemma ReadHere(s: string, i: nat)
    requires i < |s| && "Path=" <= CString(s[i..ChunkEnd(s, i)])
    ensures ReadFrom(s, i) == Some(Value(CString(s[i..ChunkEnd(s, i)])))
  {
    hide CString, ChunkEnd, Value;
  }

  /** Reading back what was written: exactly when the line fits the reader's buffer, or what it
      cuts off changes nothing. */
  lemma ReadsBack(p: string, date: string)
    requires Bytes(p)
    ensures ReadFrom(Text(p, date), 0) == Some(p) <==> |Encode(p)| <= 4090 || CutUnnoticed(p, 4090)
  {
    var e, tail := Encode(p), "DeletionDate=" + date + "\n";
    var rest := "Path=" + e + "\n" + tail;
    HeaderIsSkipped(rest);
    EncodedIsPlain(p);
    PathLine(HEADER + rest, 13, e, tail);
    var n := if |e| <= 4090 then |e| else 4090;
    CutHasNoNul(p, n);
    DecodeCut(p, n);
  }

}
