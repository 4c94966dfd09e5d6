/** MD5 as the thumbnail cache computes it, with its four registers shifted in every step, against the
    form of RFC 1321, sections 3.1 to 3.5, in which the operands rotate. The host is little-endian. */
module Md5 {

  type Word = bv32
  type Byte = bv8

  const T: seq<Word> := [
    0xd76aa478, 0xe8c7b756, 0x242070db, 0xc1bdceee, 0xf57c0faf, 0x4787c62a,
    0xa8304613, 0xfd469501, 0x698098d8, 0x8b44f7af, 0xffff5bb1, 0x895cd7be,
    0x6b901122, 0xfd987193, 0xa679438e, 0x49b40821, 0xf61e2562, 0xc040b340,
    0x265e5a51, 0xe9b6c7aa, 0xd62f105d, 0x02441453, 0xd8a1e681, 0xe7d3fbc8,
    0x21e1cde6, 0xc33707d6, 0xf4d50d87, 0x455a14ed, 0xa9e3e905, 0xfcefa3f8,
    0x676f02d9, 0x8d2a4c8a, 0xfffa3942, 0x8771f681, 0x6d9d6122, 0xfde5380c,
    0xa4beea44, 0x4bdecfa9, 0xf6bb4b60, 0xbebfbc70, 0x289b7ec6, 0xeaa127fa,
    0xd4ef3085, 0x04881d05, 0xd9d4d039, 0xe6db99e5, 0x1fa27cf8, 0xc4ac5665,
    0xf4292244, 0x432aff97, 0xab9423a7, 0xfc93a039, 0x655b59c3, 0x8f0ccc92,
    0xffeff47d, 0x85845dd1, 0x6fa87e4f, 0xfe2ce6e0, 0xa3014314, 0x4e0811a1,
    0xf7537e82, 0xbd3af235, 0x2ad7d2bb, 0xeb86d391]

  const SHIFTS: seq<nat> :=
    [7, 12, 17, 22, 7, 12, 17, 22, 7, 12, 17, 22, 7, 12, 17, 22] +
    [5, 9, 14, 20, 5, 9, 14, 20, 5, 9, 14, 20, 5, 9, 14, 20] +
    [4, 11, 16, 23, 4, 11, 16, 23, 4, 11, 16, 23, 4, 11, 16, 23] +
    [6, 10, 15, 21, 6, 10, 15, 21, 6, 10, 15, 21, 6, 10, 15, 21]

  // ---------- RFC 1321 ----------

  datatype Registers<W> = Regs(a: W, b: W, c: W, d: W)

  type Regs = Registers<Word>

  // The order in which the rounds of section 3.4 take the words of a block.

  function Round2(j: nat): (k: nat)
    requires j < 16
    ensures k == (5 * (16 + j) + 1) % 16
  {
    match j
    case 0 => 1 case 1 => 6 case 2 => 11 case 3 => 0
    case 4 => 5 case 5 => 10 case 6 => 15 case 7 => 4
    case 8 => 9 case 9 => 14 case 10 => 3 case 11 => 8
    case 12 => 13 case 13 => 2 case 14 => 7 case 15 => 12
  }

  function Round3(j: nat): (k: nat)
    requires j < 16
    ensures k == (3 * (32 + j) + 5) % 16
  {
    match j
    case 0 => 5 case 1 => 8 case 2 => 11 case 3 => 14
    case 4 => 1 case 5 => 4 case 6 => 7 case 7 => 10
    case 8 => 13 case 9 => 0 case 10 => 3 case 11 => 6
    case 12 => 9 case 13 => 12 case 14 => 15 case 15 => 2
  }

  function Round4(j: nat): (k: nat)
    requires j < 16
    ensures k == 7 * (48 + j) % 16
  {
    match j
    case 0 => 0 case 1 => 7 case 2 => 14 case 3 => 5
    case 4 => 12 case 5 => 3 case 6 => 10 case 7 => 1
    case 8 => 8 case 9 => 15 case 10 => 6 case 11 => 13
    case 12 => 4 case 13 => 11 case 14 => 2 case 15 => 9
  }

  /** The shift amounts of section 3.4: four for each round. */
  function RoundShift(round: nat, j: nat): (s: nat)
    requires round < 4 && j < 4
    ensures ShiftAmount(s)
  {
    match (round, j)
    case (0, 0) => 7
    case (0, 1) => 12
    case (0, 2) => 17
    case (0, 3) => 22
    case (1, 0) => 5
    case (1, 1) => 9
    case (1, 2) => 14
    case (1, 3) => 20
    case (2, 0) => 4
    case (2, 1) => 11
    case (2, 2) => 16
    case (2, 3) => 23
    case (3, 0) => 6
    case (3, 1) => 10
    case (3, 2) => 15
    case (3, 3) => 21
  }

  predicate ShiftAmount(s: nat) { s in {4, 5, 6, 7, 9, 10, 11, 12, 14, 15, 16, 17, 20, 21, 22, 23} }

  /** Circular shift to the left. */
  function Circular(x: Word, s: nat): Word
    requires ShiftAmount(s)
  {
    match s
    case 4 => x.RotateLeft(4)
    case 5 => x.RotateLeft(5)
    case 6 => x.RotateLeft(6)
    case 7 => x.RotateLeft(7)
    case 9 => x.RotateLeft(9)
    case 10 => x.RotateLeft(10)
    case 11 => x.RotateLeft(11)
    case 12 => x.RotateLeft(12)
    case 14 => x.RotateLeft(14)
    case 15 => x.RotateLeft(15)
    case 16 => x.RotateLeft(16)
    case 17 => x.RotateLeft(17)
    case 20 => x.RotateLeft(20)
    case 21 => x.RotateLeft(21)
    case 22 => x.RotateLeft(22)
    case 23 => x.RotateLeft(23)
  }

  /** Addition modulo 2^32. */
  function Add(x: Word, y: Word): Word { x + y }

  function Sum(a: Word, f: Word, x: Word, t: Word): Word { a + f + x + t }

  /** The auxiliary functions F, G, H and I, one for each round of sixteen steps. */
  function Aux(i: nat, x: Word, y: Word, z: Word): Word {
    if i < 16 then (x & y) | (!x & z)
    else if i < 32 then (x & z) | (y & !z)
    else if i < 48 then x ^ y ^ z
    else y ^ (x | !z)
  }

  /** a = b + ((a + F(b,c,d) + X[k] + T[i]) <<< s) */
  function Operation(i: nat, a: Word, b: Word, c: Word, d: Word, x: Word, t: Word, s: nat): Word
    requires ShiftAmount(s)
  {
    Add(b, Circular(Sum(a, Aux(i, b, c, d), x, t), s))
  }

  function Sine(i: nat): Word
    requires i < 64
  {
    T[i]
  }

  function OrderAt(i: nat): (k: nat)
    requires i < 64
    ensures k < 16 && k == Index(i)
  {
    if i < 16 then i else if i < 32 then Round2(i - 16) else if i < 48 then Round3(i - 32) else Round4(i - 48)
  }

  /** Which word of the block the program takes in step `i`. */
  function Index(i: nat): nat {
    if i < 16 then i else if i < 32 then (5 * i + 1) % 16 else if i < 48 then (3 * i + 5) % 16 else 7 * i % 16
  }

  /** The program's table of shifts. */
  function ShiftAt(i: nat): (s: nat)
    requires i < 64
  {
    SHIFTS[i]
  }

  lemma SameShift(i: nat)
    requires i < 64
    ensures ShiftAt(i) == RoundShift(i / 16, i % 4)
  {
    match i
    case 0 => case 1 => case 2 => case 3 => case 4 => case 5 => case 6 => case 7 =>
    case 8 => case 9 => case 10 => case 11 => case 12 => case 13 => case 14 => case 15 =>
    case 16 => case 17 => case 18 => case 19 => case 20 => case 21 => case 22 => case 23 =>
    case 24 => case 25 => case 26 => case 27 => case 28 => case 29 => case 30 => case 31 =>
    case 32 => case 33 => case 34 => case 35 => case 36 => case 37 => case 38 => case 39 =>
    case 40 => case 41 => case 42 => case 43 => case 44 => case 45 => case 46 => case 47 =>
    case 48 => case 49 => case 50 => case 51 => case 52 => case 53 => case 54 => case 55 =>
    case 56 => case 57 => case 58 => case 59 => case 60 => case 61 => case 62 => case 63 =>
  }

  /** md5_left_rotate */
  function LeftRotate(x: Word, c: nat): Word
    requires c < 32
  {
    (x << c) | (x >> (32 - c))
  }

  lemma Rotate4(x: Word)
    ensures LeftRotate(x, 4) == x.RotateLeft(4)
  {
    assert LeftRotate(x, 4) == (x << 4) | (x >> 28);
  }

  lemma Rotate5(x: Word)
    ensures LeftRotate(x, 5) == x.RotateLeft(5)
  {
    assert LeftRotate(x, 5) == (x << 5) | (x >> 27);
  }

  lemma Rotate6(x: Word)
    ensures LeftRotate(x, 6) == x.RotateLeft(6)
  {
    assert LeftRotate(x, 6) == (x << 6) | (x >> 26);
  }

  lemma Rotate7(x: Word)
    ensures LeftRotate(x, 7) == x.RotateLeft(7)
  {
    assert LeftRotate(x, 7) == (x << 7) | (x >> 25);
  }

  lemma Rotate9(x: Word)
    ensures LeftRotate(x, 9) == x.RotateLeft(9)
  {
    assert LeftRotate(x, 9) == (x << 9) | (x >> 23);
  }

  lemma Rotate10(x: Word)
    ensures LeftRotate(x, 10) == x.RotateLeft(10)
  {
    assert LeftRotate(x, 10) == (x << 10) | (x >> 22);
  }

  lemma Rotate11(x: Word)
    ensures LeftRotate(x, 11) == x.RotateLeft(11)
  {
    assert LeftRotate(x, 11) == (x << 11) | (x >> 21);
  }

  lemma Rotate12(x: Word)
    ensures LeftRotate(x, 12) == x.RotateLeft(12)
  {
    assert LeftRotate(x, 12) == (x << 12) | (x >> 20);
  }

  lemma Rotate14(x: Word)
    ensures LeftRotate(x, 14) == x.RotateLeft(14)
  {
    assert LeftRotate(x, 14) == (x << 14) | (x >> 18);
  }

  lemma Rotate15(x: Word)
    ensures LeftRotate(x, 15) == x.RotateLeft(15)
  {
    assert LeftRotate(x, 15) == (x << 15) | (x >> 17);
  }

  lemma Rotate16(x: Word)
    ensures LeftRotate(x, 16) == x.RotateLeft(16)
  {
    assert LeftRotate(x, 16) == (x << 16) | (x >> 16);
  }

  lemma Rotate17(x: Word)
    ensures LeftRotate(x, 17) == x.RotateLeft(17)
  {
    assert LeftRotate(x, 17) == (x << 17) | (x >> 15);
  }

  lemma Rotate20(x: Word)
    ensures LeftRotate(x, 20) == x.RotateLeft(20)
  {
    assert LeftRotate(x, 20) == (x << 20) | (x >> 12);
  }

  lemma Rotate21(x: Word)
    ensures LeftRotate(x, 21) == x.RotateLeft(21)
  {
    assert LeftRotate(x, 21) == (x << 21) | (x >> 11);
  }

  lemma Rotate22(x: Word)
    ensures LeftRotate(x, 22) == x.RotateLeft(22)
  {
    assert LeftRotate(x, 22) == (x << 22) | (x >> 10);
  }

  lemma Rotate23(x: Word)
    ensures LeftRotate(x, 23) == x.RotateLeft(23)
  {
    assert LeftRotate(x, 23) == (x << 23) | (x >> 9);
  }

  lemma SameRotation(x: Word, c: nat)
    requires ShiftAmount(c)
    ensures LeftRotate(x, c) == Circular(x, c)
  {
    hide LeftRotate;
    match c
    case 4 => Rotate4(x);
    case 5 => Rotate5(x);
    case 6 => Rotate6(x);
    case 7 => Rotate7(x);
    case 9 => Rotate9(x);
    case 10 => Rotate10(x);
    case 11 => Rotate11(x);
    case 12 => Rotate12(x);
    case 14 => Rotate14(x);
    case 15 => Rotate15(x);
    case 16 => Rotate16(x);
    case 17 => Rotate17(x);
    case 20 => Rotate20(x);
    case 21 => Rotate21(x);
    case 22 => Rotate22(x);
    case 23 => Rotate23(x);
  }

  lemma SameAux(x: Word, y: Word, z: Word)
    ensures (z & x) | (!z & y) == (x & z) | (y & !z)
  {
  }

  /** Step `i` of section 3.4: [ABCD], [DABC], [CDAB], [BCDA] in turn. */
  function Turn<W>(r: Registers<W>, i: nat, op: (W, W, W, W) -> W): Registers<W> {
    if i % 4 == 0 then r.(a := op(r.a, r.b, r.c, r.d))
    else if i % 4 == 1 then r.(d := op(r.d, r.a, r.b, r.c))
    else if i % 4 == 2 then r.(c := op(r.c, r.d, r.a, r.b))
    else r.(b := op(r.b, r.c, r.d, r.a))
  }

  function Op(i: nat, x: seq<Word>): (Word, Word, Word, Word) -> Word
    requires i < 64 && |x| == 16
  {
    (a, b, c, d) => Operation(i, a, b, c, d, x[OrderAt(i)], Sine(i), RoundShift(i / 16, i % 4))
  }

  function RfcStep(r: Regs, i: nat, x: seq<Word>): Regs
    requires i < 64 && |x| == 16
  {
    Turn(r, i, Op(i, x))
  }

  function RfcSteps(r: Regs, n: nat, x: seq<Word>): Regs
    requires n <= 64 && |x| == 16
  {
    if n == 0 then r else RfcStep(RfcSteps(r, n - 1, x), n - 1, x)
  }

  function RfcBlock(r: Regs, x: seq<Word>): Regs
    requires |x| == 16
  {
    var s := RfcSteps(r, 64, x);
    Regs(Add(r.a, s.a), Add(r.b, s.b), Add(r.c, s.c), Add(r.d, s.d))
  }

  /** Low-order byte first. */
  function LittleEndian(b: seq<Byte>): Word
    requires |b| == 4
  {
    b[0] as Word | (b[1] as Word << 8) | (b[2] as Word << 16) | (b[3] as Word << 24)
  }

  function Words(block: seq<Byte>): (x: seq<Word>)
    requires |block| == 64
    ensures |x| == 16
  {
    seq(16, i requires 0 <= i < 16 => LittleEndian(block[4 * i..4 * i + 4]))
  }

  function RfcBlocks(r: Regs, m: seq<Byte>): Regs
    requires |m| % 64 == 0
    decreases |m|
  {
    if m == [] then r else RfcBlock(RfcBlocks(r, m[..|m| - 64]), Words(m[|m| - 64..]))
  }

  function WordBytes(w: Word): seq<Byte> {
    [(w & 0xff) as Byte, ((w >> 8) & 0xff) as Byte, ((w >> 16) & 0xff) as Byte, ((w >> 24) & 0xff) as Byte]
  }

  function LowWord(bits: bv64): Word { (bits & 0xffff_ffff) as Word }

  function HighWord(bits: bv64): Word { (bits >> 32) as Word }

  function BitCount(n: nat): bv64 { (8 * n % 0x1_0000_0000_0000_0000) as bv64 }

  /** The low-order 64 bits of the length in bits, as two words, the low-order one first. */
  function LengthBytes(n: nat): (bytes: seq<Byte>)
    ensures |bytes| == 8
  {
    WordBytes(LowWord(BitCount(n))) + WordBytes(HighWord(BitCount(n)))
  }

  predicate LeavesEight(n: nat, z: nat) { (n + 1 + z) % 64 == 56 }

  /** Zero bytes after the 0x80 of section 3.1: as few as make the length 56 modulo 64. */
  function ZerosFrom(n: nat, z: nat): (r: nat)
    requires z <= 64
    ensures z <= r <= 64
    decreases 64 - z
  {
    if z == 64 || LeavesEight(n, z) then z else ZerosFrom(n, z + 1)
  }

  function Zeros(n: nat): nat { ZerosFrom(n, 0) }

  function Padded(data: seq<Byte>): seq<Byte> {
    data + [0x80] + seq(Zeros(|data|), _ => 0 as Byte) + LengthBytes(|data|)
  }

  const INITIAL: Regs := Regs(0x67452301, 0xefcdab89, 0x98badcfe, 0x10325476)

  function Digest(data: seq<Byte>): seq<Byte> {
    PaddedLength(data);
    var r := RfcBlocks(INITIAL, Padded(data));
    WordBytes(r.a) + WordBytes(r.b) + WordBytes(r.c) + WordBytes(r.d)
  }

  lemma BytesOfWord(w: Word)
    ensures LittleEndian(WordBytes(w)) == w
  {
  }

  function Joined(low: Word, high: Word): bv64 { low as bv64 | (high as bv64 << 32) }

  /** The last eight bytes are the number of bits, eight for each byte of the message, modulo 2^64: the low-order word first,
      and in each word the low-order byte first. */
  lemma LengthInBits(n: nat)
    ensures var l := LengthBytes(n); Joined(LittleEndian(l[..4]), LittleEndian(l[4..])) == (8 * n % 0x1_0000_0000_0000_0000) as bv64
  {
    hide WordBytes, LittleEndian, LowWord, HighWord, LengthBytes, Joined;
    WordsOfCount(n);
  }

  lemma WordsOfCount(n: nat)
    ensures Joined(LittleEndian(LengthBytes(n)[..4]), LittleEndian(LengthBytes(n)[4..])) == BitCount(n)
  {
    hide WordBytes, LittleEndian, LowWord, HighWord, BitCount, LengthBytes, Joined;
    Halves(n);
    BytesOfWord(LowWord(BitCount(n)));
    BytesOfWord(HighWord(BitCount(n)));
    TwoWords(BitCount(n));
  }

  lemma Halves(n: nat)
    ensures LengthBytes(n)[..4] == WordBytes(LowWord(BitCount(n))) && LengthBytes(n)[4..] == WordBytes(HighWord(BitCount(n)))
  {
    hide WordBytes, LowWord, HighWord, BitCount;
    FourBytes(LowWord(BitCount(n)));
    FourBytes(HighWord(BitCount(n)));
  }

  lemma FourBytes(w: Word)
    ensures |WordBytes(w)| == 4
  {
  }

  lemma TwoWords(bits: bv64)
    ensures Joined(LowWord(bits), HighWord(bits)) == bits
  {
  }

  /** The registers start with the bytes 01 23 45 67 89 ab cd ef fe dc ba 98 76 54 32 10 of section 3.3. */
  lemma InitialBytes()
    ensures WordBytes(INITIAL.a) + WordBytes(INITIAL.b) + WordBytes(INITIAL.c) + WordBytes(INITIAL.d) ==
      [0x01, 0x23, 0x45, 0x67, 0x89, 0xab, 0xcd, 0xef, 0xfe, 0xdc, 0xba, 0x98, 0x76, 0x54, 0x32, 0x10]
  {
    assert WordBytes(INITIAL.a) == [0x01, 0x23, 0x45, 0x67];
    assert WordBytes(INITIAL.b) == [0x89, 0xab, 0xcd, 0xef];
    assert WordBytes(INITIAL.c) == [0xfe, 0xdc, 0xba, 0x98];
    assert WordBytes(INITIAL.d) == [0x76, 0x54, 0x32, 0x10];
  }

  // ---------- padding ----------

  function ProgramLength(n: nat): nat { ((n + 8) / 64 + 1) * 64 }

  lemma {:induction false} ZerosAre(n: nat, z: nat, w: nat)
    requires z <= w < 64 && LeavesEight(n, w) && forall v :: z <= v < w ==> !LeavesEight(n, v)
    ensures ZerosFrom(n, z) == w
    decreases w - z
  {
    if z < w {
      ZerosAre(n, z + 1, w);
    }
  }

  lemma ZerosFill(n: nat)
    ensures Zeros(n) < 64 && n + 1 + Zeros(n) + 8 == ProgramLength(n)
  {
    var q, w := (n + 8) / 64, 64 - 9 + 64 * ((n + 8) / 64) - n;
    assert 0 <= w < 64 && n + 1 + w == 64 * q + 56;
    forall v | 0 <= v < w
      ensures !LeavesEight(n, v)
    {
      NotCongruent(n + 1 + v, q, w - v);
    }
    ZerosAre(n, 0, w);
  }

  lemma NotCongruent(m: nat, q: int, d: nat)
    requires 0 < d < 64 && m + d == 64 * q + 56
    ensures m % 64 != 56
  {
    if d <= 56 {
      assert m == 64 * q + (56 - d);
    } else {
      assert m == 64 * (q - 1) + (120 - d);
    }
  }

  lemma PaddedLength(data: seq<Byte>)
    ensures |Padded(data)| == ProgramLength(|data|) && |Padded(data)| % 64 == 0
  {
    hide Zeros, LengthBytes;
    ZerosFill(|data|);
  }

  /** The message, one byte and the length need nine bytes more; no shorter multiple of 64 has room. */
  lemma LeastMultiple(n: nat, m: nat)
    requires m % 64 == 0
    ensures ProgramLength(n) >= n + 9 && (m >= n + 9 ==> m >= ProgramLength(n))
  {
    assert m == 64 * (m / 64);
  }

  // ---------- the program ----------

  /** The registers of the program after `i` steps: it shifts what RFC 1321 names anew. */
  function Shifted<W>(r: Registers<W>, i: nat): Registers<W> {
    if i % 4 == 0 then r
    else if i % 4 == 1 then Regs(r.d, r.a, r.b, r.c)
    else if i % 4 == 2 then Regs(r.c, r.d, r.a, r.b)
    else Regs(r.b, r.c, r.d, r.a)
  }

  function Mix(i: nat, B: Word, C: Word, D: Word): Word {
    if i < 16 then (B & C) | (!B & D)
    else if i < 32 then (D & B) | (!D & C)
    else if i < 48 then B ^ C ^ D
    else C ^ (B | !D)
  }

  lemma MixIsAux(i: nat, B: Word, C: Word, D: Word)
    ensures Mix(i, B, C, D) == Aux(i, B, C, D)
  {
    SameAux(B, C, D);
  }

  /** F += A + T[i] + M[g] */
  function Increased(f: Word, a: Word, t: Word, m: Word): Word { f + (a + t + m) }

  lemma SameSum(f: Word, a: Word, t: Word, m: Word)
    ensures Increased(f, a, t, m) == Sum(a, f, m, t)
  {
  }

  lemma SameOperation(i: nat, A: Word, B: Word, C: Word, D: Word, x: Word, t: Word, s: nat)
    requires ShiftAmount(s)
    ensures Add(B, LeftRotate(Increased(Mix(i, B, C, D), A, t, x), s)) == Operation(i, A, B, C, D, x, t, s)
  {
    hide LeftRotate, Mix, Aux, Circular, Add, Sum, Increased;
    MixIsAux(i, B, C, D);
    SameSum(Mix(i, B, C, D), A, t, x);
    SameRotation(Sum(A, Aux(i, B, C, D), x, t), s);
  }

  /** One turn, seen from the shifted registers. */
  lemma TurnShifts<W>(r: Registers<W>, i: nat, op: (W, W, W, W) -> W)
    ensures var p := Shifted(r, i); Shifted(Turn(r, i, op), i + 1) == Regs(p.d, op(p.a, p.b, p.c, p.d), p.b, p.c)
  {
    assert (i + 1) % 4 == if i % 4 == 3 then 0 else i % 4 + 1;
  }

  lemma StepShifts(r: Regs, i: nat, x: seq<Word>)
    requires i < 64 && |x| == 16
    ensures ShiftAt(i) < 32
    ensures var p := Shifted(r, i);
      Shifted(RfcStep(r, i, x), i + 1) ==
        Regs(p.d, Add(p.b, LeftRotate(Increased(Mix(i, p.b, p.c, p.d), p.a, Sine(i), x[OrderAt(i)]), ShiftAt(i))), p.b, p.c)
  {
    hide Add, Increased, Operation, LeftRotate, Mix, Sine, ShiftAt, RoundShift, OrderAt, Shifted, Turn;
    var p, s := Shifted(r, i), RoundShift(i / 16, i % 4);
    SameShift(i);
    SameOperation(i, p.a, p.b, p.c, p.d, x[OrderAt(i)], Sine(i), s);
    TurnShifts(r, i, Op(i, x));
  }

  /** The 64 steps on one block. */
  method Steps(x: seq<Word>, r: Regs) returns (A: Word, B: Word, C: Word, D: Word)
    requires |x| == 16
    ensures Regs(A, B, C, D) == RfcSteps(r, 64, x)
  {
    A, B, C, D := r.a, r.b, r.c, r.d;
    hide Add, Increased, LeftRotate, Mix, RfcStep, Sine, ShiftAt, OrderAt;
    for i := 0 to 64
      invariant Regs(A, B, C, D) == Shifted(RfcSteps(r, i, x), i)
    {
      StepShifts(RfcSteps(r, i, x), i, x);
      A, B, C, D := OneStep(i, x, A, B, C, D);
    }
  }

  method OneStep(i: nat, x: seq<Word>, A0: Word, B0: Word, C0: Word, D0: Word) returns (A: Word, B: Word, C: Word, D: Word)
    requires i < 64 && |x| == 16 && ShiftAt(i) < 32
    ensures A == D0 && C == B0 && D == C0
    ensures B == Add(B0, LeftRotate(Increased(Mix(i, B0, C0, D0), A0, Sine(i), x[OrderAt(i)]), ShiftAt(i)))
  {
    hide Add, Increased, LeftRotate, Mix, Sine, ShiftAt, OrderAt;
    A, B, C, D := A0, B0, C0, D0;
    var F, g := Mix(i, B, C, D), Index(i);
    assert g == OrderAt(i);
    F := Increased(F, A, Sine(i), x[g]);
    A := D;
    D := C;
    C := B;
    B := Add(B, LeftRotate(F, ShiftAt(i)));
  }

  method Block(x: seq<Word>, r0: Regs) returns (r: Regs)
    requires |x| == 16
    ensures r == RfcBlock(r0, x)
  {
    hide RfcSteps, Add;
    var A, B, C, D := Steps(x, r0);
    r := Regs(Add(r0.a, A), Add(r0.b, B), Add(r0.c, C), Add(r0.d, D));
  }

  /** md5_hash */
  method Hash(data: seq<Byte>) returns (out: seq<Byte>)
    ensures out == Digest(data)
  {
    hide Padded, RfcBlock, Words, WordBytes;
    PaddedLength(data);
    var msg := Pad(data);
    var r := INITIAL;
    var offset := 0;
    while offset < msg.Length
      invariant offset <= msg.Length && offset % 64 == 0 && msg[..] == Padded(data)
      invariant r == RfcBlocks(INITIAL, msg[..offset])
    {
      assert msg[..offset + 64][..offset] == msg[..offset] && msg[..offset + 64][offset..] == msg[offset..offset + 64];
      var x := Words(msg[offset..offset + 64]);
      r := Block(x, r);
      offset := offset + 64;
    }
    assert msg[..offset] == msg[..];
    out := WordBytes(r.a) + WordBytes(r.b) + WordBytes(r.c) + WordBytes(r.d);
  }

  /** The message, the byte 0x80, zeros, and the length in bits, in a buffer of the program's size. */
  method Pad(data: seq<Byte>) returns (msg: array<Byte>)
    ensures fresh(msg) && msg[..] == Padded(data)
  {
    hide Zeros, LengthBytes;
    var len := |data|;
    ZerosFill(len);
    msg := new Byte[ProgramLength(len)](_ => 0);
    forall i | 0 <= i < len {
      msg[i] := data[i];
    }
    msg[len] := 0x80;
    var bytes := LengthBytes(len);
    forall i | 0 <= i < 8 {
      msg[msg.Length - 8 + i] := bytes[i];
    }
    assert forall i :: 0 <= i < msg.Length ==> msg[i] == Padded(data)[i];
  }
}
