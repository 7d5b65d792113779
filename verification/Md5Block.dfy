/** The block function of md5.c, and section 3.4 of RFC 1321, which says what it is. */
module Md5Block {
  /** Bytes that become parts of words. */
  type Octet = bv8

  type Word = bv32

  datatype State = State(a: Word, b: Word, c: Word, d: Word)

  // -------- words --------

  /** Section 2 of RFC 1321: the low-order byte of a word comes first. */
  function Loaded(s: seq<Octet>): Word
    requires |s| == 4
  {
    (s[0] as Word) | ((s[1] as Word) << 8) | ((s[2] as Word) << 16) | ((s[3] as Word) << 24)
  }

  function LowByte(w: Word): Octet {
    (w & 0xff) as Octet
  }

  function Stored(w: Word): (s: seq<Octet>)
    ensures |s| == 4
  {
    [LowByte(w), LowByte(w >> 8), LowByte(w >> 16), LowByte(w >> 24)]
  }

  lemma LoadStored(w: Word)
    ensures Loaded(Stored(w)) == w
  {
  }

  // -------- section 3.4 of RFC 1321 --------

  function F(x: Word, y: Word, z: Word): Word {
    (x & y) | (!x & z)
  }

  function G(x: Word, y: Word, z: Word): Word {
    (x & z) | (y & !z)
  }

  function H(x: Word, y: Word, z: Word): Word {
    x ^ y ^ z
  }

  function I(x: Word, y: Word, z: Word): Word {
    y ^ (x | !z)
  }

  /** The word that operation number `i` takes. */
  function WordOf(i: nat): (k: nat)
    ensures k < 16
  {
    if i < 16 then i else if i < 32 then WordOf2(i) else if i < 48 then WordOf3(i) else WordOf4(i)
  }

  function WordOf2(i: nat): (k: nat)
    ensures k < 16
  {
    if i < 20 then
      (if i == 16 then 1 else if i == 17 then 6 else if i == 18 then 11 else 0)
    else if i < 24 then
      (if i == 20 then 5 else if i == 21 then 10 else if i == 22 then 15 else 4)
    else if i < 28 then
      (if i == 24 then 9 else if i == 25 then 14 else if i == 26 then 3 else 8)
    else if i == 28 then 13 else if i == 29 then 2 else if i == 30 then 7 else 12
  }

  function WordOf3(i: nat): (k: nat)
    ensures k < 16
  {
    if i < 36 then
      (if i == 32 then 5 else if i == 33 then 8 else if i == 34 then 11 else 14)
    else if i < 40 then
      (if i == 36 then 1 else if i == 37 then 4 else if i == 38 then 7 else 10)
    else if i < 44 then
      (if i == 40 then 13 else if i == 41 then 0 else if i == 42 then 3 else 6)
    else if i == 44 then 9 else if i == 45 then 12 else if i == 46 then 15 else 2
  }

  function WordOf4(i: nat): (k: nat)
    ensures k < 16
  {
    if i < 52 then
      (if i == 48 then 0 else if i == 49 then 7 else if i == 50 then 14 else 5)
    else if i < 56 then
      (if i == 52 then 12 else if i == 53 then 3 else if i == 54 then 10 else 1)
    else if i < 60 then
      (if i == 56 then 8 else if i == 57 then 15 else if i == 58 then 6 else 13)
    else if i == 60 then 4 else if i == 61 then 11 else if i == 62 then 2 else 9
  }

  /** The words are taken in steps of 1, 5, 3 and 7. */
  lemma WordSteps(i: nat)
    requires i < 64
    ensures WordOf(i) == (if i < 16 then i else if i < 32 then 5 * i + 1 else if i < 48 then 3 * i + 5 else 7 * i) % 16
  {
  }

  /** By how many bits it rotates. */
  function Shift(i: nat): (s: nat)
    ensures s <= 32
  {
    var j := i % 4;
    if i < 16 then (if j == 0 then 7 else if j == 1 then 12 else if j == 2 then 17 else 22)
    else if i < 32 then (if j == 0 then 5 else if j == 1 then 9 else if j == 2 then 14 else 20)
    else if i < 48 then (if j == 0 then 4 else if j == 1 then 11 else if j == 2 then 16 else 23)
    else (if j == 0 then 6 else if j == 1 then 10 else if j == 2 then 15 else 21)
  }

  /** The table of the integer parts of 2^32 times the absolute value of sin(i + 1). */
  function T(i: nat): Word {
    if i < 16 then T1(i) else if i < 32 then T2(i) else if i < 48 then T3(i) else T4(i)
  }

  function T1(i: nat): Word {
    if i < 4 then
      (if i == 0 then 0xd76aa478 else if i == 1 then 0xe8c7b756 else if i == 2 then 0x242070db else 0xc1bdceee)
    else if i < 8 then
      (if i == 4 then 0xf57c0faf else if i == 5 then 0x4787c62a else if i == 6 then 0xa8304613 else 0xfd469501)
    else if i < 12 then
      (if i == 8 then 0x698098d8 else if i == 9 then 0x8b44f7af else if i == 10 then 0xffff5bb1 else 0x895cd7be)
    else
      if i == 12 then 0x6b901122 else if i == 13 then 0xfd987193 else if i == 14 then 0xa679438e else 0x49b40821
  }

  function T2(i: nat): Word {
    if i < 20 then
      (if i == 16 then 0xf61e2562 else if i == 17 then 0xc040b340 else if i == 18 then 0x265e5a51 else 0xe9b6c7aa)
    else if i < 24 then
      (if i == 20 then 0xd62f105d else if i == 21 then 0x02441453 else if i == 22 then 0xd8a1e681 else 0xe7d3fbc8)
    else if i < 28 then
      (if i == 24 then 0x21e1cde6 else if i == 25 then 0xc33707d6 else if i == 26 then 0xf4d50d87 else 0x455a14ed)
    else
      if i == 28 then 0xa9e3e905 else if i == 29 then 0xfcefa3f8 else if i == 30 then 0x676f02d9 else 0x8d2a4c8a
  }

  function T3(i: nat): Word {
    if i < 36 then
      (if i == 32 then 0xfffa3942 else if i == 33 then 0x8771f681 else if i == 34 then 0x6d9d6122 else 0xfde5380c)
    else if i < 40 then
      (if i == 36 then 0xa4beea44 else if i == 37 then 0x4bdecfa9 else if i == 38 then 0xf6bb4b60 else 0xbebfbc70)
    else if i < 44 then
      (if i == 40 then 0x289b7ec6 else if i == 41 then 0xeaa127fa else if i == 42 then 0xd4ef3085 else 0x04881d05)
    else
      if i == 44 then 0xd9d4d039 else if i == 45 then 0xe6db99e5 else if i == 46 then 0x1fa27cf8 else 0xc4ac5665
  }

  function T4(i: nat): Word {
    if i < 52 then
      (if i == 48 then 0xf4292244 else if i == 49 then 0x432aff97 else if i == 50 then 0xab9423a7 else 0xfc93a039)
    else if i < 56 then
      (if i == 52 then 0x655b59c3 else if i == 53 then 0x8f0ccc92 else if i == 54 then 0xffeff47d else 0x85845dd1)
    else if i < 60 then
      (if i == 56 then 0x6fa87e4f else if i == 57 then 0xfe2ce6e0 else if i == 58 then 0xa3014314 else 0x4e0811a1)
    else
      if i == 60 then 0xf7537e82 else if i == 61 then 0xbd3af235 else if i == 62 then 0x2ad7d2bb else 0xeb86d391
  }

  // Operations on words are sealed: a function takes the one word that its predicate allows, and the
  // lemmas whose names end in `Is` say which one that is.  Where the 64 operations are put together,
  // no bits are looked at.

  function Chosen(round: nat, x: Word, y: Word, z: Word): Word {
    if round == 0 then F(x, y, z) else if round == 1 then G(x, y, z) else if round == 2 then H(x, y, z) else I(x, y, z)
  }

  ghost predicate IsAuxiliary(round: nat, x: Word, y: Word, z: Word, w: Word) {
    forall u: nat {:trigger OpenWord(u)} :: w == Chosen(round, x, y, z)
  }

  ghost predicate IsRotated(x: Word, s: nat, w: Word)
    requires s <= 32
  {
    forall u: nat {:trigger OpenWord(u)} :: w == (x << s) | (x >> (32 - s))
  }

  ghost predicate IsSum(a: Word, f: Word, x: Word, t: Word, w: Word) {
    forall u: nat {:trigger OpenWord(u)} :: w == a + f + x + t
  }

  ghost predicate IsAdded(b: Word, x: Word, w: Word) {
    forall u: nat {:trigger OpenWord(u)} :: w == b + x
  }

  ghost predicate OpenWord(u: nat) {
    true
  }

  /** The function of each round. */
  ghost function Auxiliary(round: nat, x: Word, y: Word, z: Word): Word {
    assert IsAuxiliary(round, x, y, z, Chosen(round, x, y, z));
    var w :| IsAuxiliary(round, x, y, z, w);
    w
  }

  /** X <<< s */
  ghost function Rotated(x: Word, s: nat): Word
    requires s <= 32
  {
    assert IsRotated(x, s, (x << s) | (x >> (32 - s)));
    var w :| IsRotated(x, s, w);
    w
  }

  ghost function Summed(a: Word, f: Word, x: Word, t: Word): Word {
    assert IsSum(a, f, x, t, a + f + x + t);
    var w :| IsSum(a, f, x, t, w);
    w
  }

  ghost function Added(b: Word, x: Word): Word {
    assert IsAdded(b, x, b + x);
    var w :| IsAdded(b, x, w);
    w
  }

  /** b + ((a + f + x + t) <<< s), what operation [abcd k s i] stores. */
  ghost function Mixed(f: Word, a: Word, b: Word, x: Word, t: Word, s: nat): Word
    requires s <= 32
  {
    Added(b, Rotated(Summed(a, f, x, t), s))
  }

  lemma SummedOnce(a: Word, f: Word, x: Word, t: Word, w: Word)
    requires IsSum(a, f, x, t, w)
    ensures w == Summed(a, f, x, t)
  {
    assert IsSum(a, f, x, t, Summed(a, f, x, t));
    assert OpenWord(0);
  }

  lemma AddedOnce(b: Word, x: Word, w: Word)
    requires IsAdded(b, x, w)
    ensures w == Added(b, x)
  {
    assert IsAdded(b, x, Added(b, x));
    assert OpenWord(0);
  }

  lemma RotatedOnce(x: Word, s: nat, w: Word)
    requires s <= 32 && IsRotated(x, s, w)
    ensures w == Rotated(x, s)
  {
    assert IsRotated(x, s, Rotated(x, s));
    assert OpenWord(0);
  }

  lemma SummedIs(a: Word, f: Word, x: Word, t: Word)
    ensures Summed(a, f, x, t) == a + f + x + t
  {
    assert IsSum(a, f, x, t, a + f + x + t);
    SummedOnce(a, f, x, t, a + f + x + t);
  }

  lemma AddedIs(b: Word, x: Word)
    ensures Added(b, x) == b + x
  {
    assert IsAdded(b, x, b + x);
    AddedOnce(b, x, b + x);
  }

  lemma RotatedIs(x: Word, s: nat)
    requires s <= 32
    ensures Rotated(x, s) == (x << s) | (x >> (32 - s))
  {
    assert IsRotated(x, s, (x << s) | (x >> (32 - s)));
    RotatedOnce(x, s, (x << s) | (x >> (32 - s)));
  }

  lemma AuxiliaryOnce(round: nat, x: Word, y: Word, z: Word, w: Word)
    requires IsAuxiliary(round, x, y, z, w)
    ensures w == Auxiliary(round, x, y, z)
  {
    assert IsAuxiliary(round, x, y, z, Auxiliary(round, x, y, z));
    assert OpenWord(0);
  }

  lemma AuxiliaryIs(round: nat, x: Word, y: Word, z: Word)
    ensures Auxiliary(round, x, y, z) == Chosen(round, x, y, z)
  {
    assert IsAuxiliary(round, x, y, z, Chosen(round, x, y, z));
    AuxiliaryOnce(round, x, y, z, Chosen(round, x, y, z));
  }

  /** What operation [abcd k s i] stores. */
  lemma MixedIs(f: Word, a: Word, b: Word, x: Word, t: Word, s: nat)
    requires s <= 32
    ensures Mixed(f, a, b, x, t, s) == b + Rotated(a + f + x + t, s)
  {
    SummedIs(a, f, x, t);
    AddedIs(b, Rotated(Summed(a, f, x, t), s));
  }

  /** Operation number `i`.  The registers change places, so that each one is the first in turn. */
  ghost function Turn(s: State, x: seq<Word>, i: nat): State
    requires |x| == 16
  {
    State(s.d, Mixed(Auxiliary(i / 16, s.b, s.c, s.d), s.a, s.b, x[WordOf(i)], T(i), Shift(i)), s.b, s.c)
  }

  /** The first `n` operations. */
  ghost function Turns(s: State, x: seq<Word>, n: nat): State
    requires |x| == 16
  {
    if n == 0 then s else Turn(Turns(s, x, n - 1), x, n - 1)
  }

  function Words(block: seq<Octet>): (x: seq<Word>)
    requires |block| == 64
    ensures |x| == 16
  {
    seq(16, n requires 0 <= n < 16 => Loaded(block[4 * n..4 * n + 4]))
  }

  function Plus(s: State, t: State): State {
    State(s.a + t.a, s.b + t.b, s.c + t.c, s.d + t.d)
  }

  /** What a block makes of the registers. */
  ghost function Compressed(s: State, block: seq<Octet>): State
    requires |block| == 64
  {
    assert IsCompressed(s, block, Plus(s, Turns(s, Words(block), 64)));
    var r :| IsCompressed(s, block, r);
    r
  }

  ghost predicate IsCompressed(s: State, block: seq<Octet>, r: State)
    requires |block| == 64
  {
    forall u: nat {:trigger OpenWord(u)} :: r == Plus(s, Turns(s, Words(block), 64))
  }

  // -------- the block function of md5.c --------

  /** The macros; F and G do without an and-not, and H2 is H in another order. */
  datatype Macro = MF | MG | MH | MH2 | MI

  function RoundOf(g: Macro): nat {
    match g
    case MF => 0
    case MG => 1
    case MH => 2
    case MH2 => 2
    case MI => 3
  }

  function MacroF(x: Word, y: Word, z: Word): Word {
    z ^ (x & (y ^ z))
  }

  function MacroG(x: Word, y: Word, z: Word): Word {
    y ^ (z & (x ^ y))
  }

  function MacroH2(x: Word, y: Word, z: Word): Word {
    x ^ (y ^ z)
  }

  lemma FIsF(x: Word, y: Word, z: Word)
    ensures MacroF(x, y, z) == F(x, y, z)
  {
    FAgain(x, y, z);
  }

  lemma FAgain(x: Word, y: Word, z: Word)
    ensures z ^ (x & (y ^ z)) == (x & y) | (!x & z)
  {
  }

  lemma GIsG(x: Word, y: Word, z: Word)
    ensures MacroG(x, y, z) == G(x, y, z)
  {
    GAgain(x, y, z);
  }

  lemma GAgain(x: Word, y: Word, z: Word)
    ensures y ^ (z & (x ^ y)) == (x & z) | (y & !z)
  {
  }

  lemma H2IsH(x: Word, y: Word, z: Word)
    ensures MacroH2(x, y, z) == H(x, y, z)
  {
  }

  method CallF(x: Word, y: Word, z: Word) returns (w: Word)
    ensures IsAuxiliary(0, x, y, z, w)
  {
    w := MacroF(x, y, z);
    FIsF(x, y, z);
  }

  method CallG(x: Word, y: Word, z: Word) returns (w: Word)
    ensures IsAuxiliary(1, x, y, z, w)
  {
    w := MacroG(x, y, z);
    GIsG(x, y, z);
  }

  method CallH(x: Word, y: Word, z: Word) returns (w: Word)
    ensures IsAuxiliary(2, x, y, z, w)
  {
    w := H(x, y, z);
  }

  method CallH2(x: Word, y: Word, z: Word) returns (w: Word)
    ensures IsAuxiliary(2, x, y, z, w)
  {
    w := MacroH2(x, y, z);
    H2IsH(x, y, z);
  }

  method CallI(x: Word, y: Word, z: Word) returns (w: Word)
    ensures IsAuxiliary(3, x, y, z, w)
  {
    w := I(x, y, z);
  }

  method Call(g: Macro, x: Word, y: Word, z: Word) returns (w: Word)
    ensures IsAuxiliary(RoundOf(g), x, y, z, w)
  {
    match g {
      case MF => w := CallF(x, y, z);
      case MG => w := CallG(x, y, z);
      case MH => w := CallH(x, y, z);
      case MH2 => w := CallH2(x, y, z);
      case MI => w := CallI(x, y, z);
    }
  }

  /** The statements of STEP, for the value `f` of the macro. */
  method Mix(f: Word, a: Word, b: Word, x: Word, t: Word, s: nat) returns (r: Word)
    requires s <= 32
    ensures r == Mixed(f, a, b, x, t, s)
  {
    r := Sum(f, a, x, t);
    r := Rotate(r, s);
    r := Add(r, b);
  }

  /** (a) += f + (x) + (t) */
  method Sum(f: Word, a: Word, x: Word, t: Word) returns (r: Word)
    ensures r == Summed(a, f, x, t)
  {
    r := SumOnce(f, a, x, t);
    SummedOnce(a, f, x, t, r);
  }

  method SumOnce(f: Word, a: Word, x: Word, t: Word) returns (r: Word)
    ensures IsSum(a, f, x, t, r)
  {
    SumAgain(a, f, x, t);
    r := a + (f + x + t);
  }

  lemma SumAgain(a: Word, f: Word, x: Word, t: Word)
    ensures a + (f + x + t) == a + f + x + t
  {
  }

  method Rotate(w: Word, s: nat) returns (r: Word)
    requires s <= 32
    ensures r == Rotated(w, s)
  {
    r := RotateOnce(w, s);
    RotatedOnce(w, s, r);
  }

  method RotateOnce(w: Word, s: nat) returns (r: Word)
    requires s <= 32
    ensures IsRotated(w, s, r)
  {
    Masked(w);
    r := (w << s) | ((w & 0xffff_ffff) >> (32 - s));
  }

  lemma Masked(w: Word)
    ensures w & 0xffff_ffff == w
  {
  }

  method Add(a: Word, b: Word) returns (r: Word)
    ensures r == Added(b, a)
  {
    r := AddOnce(a, b);
    AddedOnce(b, a, r);
  }

  method AddOnce(a: Word, b: Word) returns (r: Word)
    ensures IsAdded(b, a, r)
  {
    AddAgain(a, b);
    r := a + b;
  }

  lemma AddAgain(a: Word, b: Word)
    ensures a + b == b + a
  {
  }

  /** STEP; the result goes to `a`. */
  method Step(g: Macro, a: Word, b: Word, c: Word, d: Word, x: Word, t: Word, s: nat) returns (r: Word)
    requires s <= 32
    ensures r == Mixed(Auxiliary(RoundOf(g), b, c, d), a, b, x, t, s)
  {
    var f := Call(g, b, c, d);
    AuxiliaryOnce(RoundOf(g), b, c, d, f);
    r := Mix(f, a, b, x, t, s);
  }

  ghost function FourTurns(s: State, x: seq<Word>, i: nat): State
    requires |x| == 16
  {
    Turn(Turn(Turn(Turn(s, x, i), x, i + 1), x, i + 2), x, i + 3)
  }

  ghost function EightOf(s: State, x: seq<Word>, i: nat): State
    requires |x| == 16
  {
    FourTurns(FourTurns(s, x, i), x, i + 4)
  }

  /** Round 1: four lines bring all registers back to their places. */
  method Round1Begin(s: State, x: seq<Word>) returns (r: State)
    requires |x| == 16
    ensures r == EightOf(s, x, 0)
  {
    var State(a, b, c, d) := s;
    a := Step(MF, a, b, c, d, x[0], 0xd76aa478, 7);
    d := Step(MF, d, a, b, c, x[1], 0xe8c7b756, 12);
    c := Step(MF, c, d, a, b, x[2], 0x242070db, 17);
    b := Step(MF, b, c, d, a, x[3], 0xc1bdceee, 22);
    assert State(a, b, c, d) == FourTurns(s, x, 0);
    a := Step(MF, a, b, c, d, x[4], 0xf57c0faf, 7);
    d := Step(MF, d, a, b, c, x[5], 0x4787c62a, 12);
    c := Step(MF, c, d, a, b, x[6], 0xa8304613, 17);
    b := Step(MF, b, c, d, a, x[7], 0xfd469501, 22);
    r := State(a, b, c, d);
  }

  method Round1End(s: State, x: seq<Word>) returns (r: State)
    requires |x| == 16
    ensures r == EightOf(s, x, 8)
  {
    var State(a, b, c, d) := s;
    a := Step(MF, a, b, c, d, x[8], 0x698098d8, 7);
    d := Step(MF, d, a, b, c, x[9], 0x8b44f7af, 12);
    c := Step(MF, c, d, a, b, x[10], 0xffff5bb1, 17);
    b := Step(MF, b, c, d, a, x[11], 0x895cd7be, 22);
    assert State(a, b, c, d) == FourTurns(s, x, 8);
    a := Step(MF, a, b, c, d, x[12], 0x6b901122, 7);
    d := Step(MF, d, a, b, c, x[13], 0xfd987193, 12);
    c := Step(MF, c, d, a, b, x[14], 0xa679438e, 17);
    b := Step(MF, b, c, d, a, x[15], 0x49b40821, 22);
    r := State(a, b, c, d);
  }

  method Round2Begin(s: State, x: seq<Word>) returns (r: State)
    requires |x| == 16
    ensures r == EightOf(s, x, 16)
  {
    var State(a, b, c, d) := s;
    a := Step(MG, a, b, c, d, x[1], 0xf61e2562, 5);
    d := Step(MG, d, a, b, c, x[6], 0xc040b340, 9);
    c := Step(MG, c, d, a, b, x[11], 0x265e5a51, 14);
    b := Step(MG, b, c, d, a, x[0], 0xe9b6c7aa, 20);
    assert State(a, b, c, d) == FourTurns(s, x, 16);
    a := Step(MG, a, b, c, d, x[5], 0xd62f105d, 5);
    d := Step(MG, d, a, b, c, x[10], 0x02441453, 9);
    c := Step(MG, c, d, a, b, x[15], 0xd8a1e681, 14);
    b := Step(MG, b, c, d, a, x[4], 0xe7d3fbc8, 20);
    r := State(a, b, c, d);
  }

  method Round2End(s: State, x: seq<Word>) returns (r: State)
    requires |x| == 16
    ensures r == EightOf(s, x, 24)
  {
    var State(a, b, c, d) := s;
    a := Step(MG, a, b, c, d, x[9], 0x21e1cde6, 5);
    d := Step(MG, d, a, b, c, x[14], 0xc33707d6, 9);
    c := Step(MG, c, d, a, b, x[3], 0xf4d50d87, 14);
    b := Step(MG, b, c, d, a, x[8], 0x455a14ed, 20);
    assert State(a, b, c, d) == FourTurns(s, x, 24);
    a := Step(MG, a, b, c, d, x[13], 0xa9e3e905, 5);
    d := Step(MG, d, a, b, c, x[2], 0xfcefa3f8, 9);
    c := Step(MG, c, d, a, b, x[7], 0x676f02d9, 14);
    b := Step(MG, b, c, d, a, x[12], 0x8d2a4c8a, 20);
    r := State(a, b, c, d);
  }

  method Round3Begin(s: State, x: seq<Word>) returns (r: State)
    requires |x| == 16
    ensures r == EightOf(s, x, 32)
  {
    var State(a, b, c, d) := s;
    a := Step(MH, a, b, c, d, x[5], 0xfffa3942, 4);
    d := Step(MH2, d, a, b, c, x[8], 0x8771f681, 11);
    c := Step(MH, c, d, a, b, x[11], 0x6d9d6122, 16);
    b := Step(MH2, b, c, d, a, x[14], 0xfde5380c, 23);
    assert State(a, b, c, d) == FourTurns(s, x, 32);
    a := Step(MH, a, b, c, d, x[1], 0xa4beea44, 4);
    d := Step(MH2, d, a, b, c, x[4], 0x4bdecfa9, 11);
    c := Step(MH, c, d, a, b, x[7], 0xf6bb4b60, 16);
    b := Step(MH2, b, c, d, a, x[10], 0xbebfbc70, 23);
    r := State(a, b, c, d);
  }

  method Round3End(s: State, x: seq<Word>) returns (r: State)
    requires |x| == 16
    ensures r == EightOf(s, x, 40)
  {
    var State(a, b, c, d) := s;
    a := Step(MH, a, b, c, d, x[13], 0x289b7ec6, 4);
    d := Step(MH2, d, a, b, c, x[0], 0xeaa127fa, 11);
    c := Step(MH, c, d, a, b, x[3], 0xd4ef3085, 16);
    b := Step(MH2, b, c, d, a, x[6], 0x04881d05, 23);
    assert State(a, b, c, d) == FourTurns(s, x, 40);
    a := Step(MH, a, b, c, d, x[9], 0xd9d4d039, 4);
    d := Step(MH2, d, a, b, c, x[12], 0xe6db99e5, 11);
    c := Step(MH, c, d, a, b, x[15], 0x1fa27cf8, 16);
    b := Step(MH2, b, c, d, a, x[2], 0xc4ac5665, 23);
    r := State(a, b, c, d);
  }

  method Round4Begin(s: State, x: seq<Word>) returns (r: State)
    requires |x| == 16
    ensures r == EightOf(s, x, 48)
  {
    var State(a, b, c, d) := s;
    a := Step(MI, a, b, c, d, x[0], 0xf4292244, 6);
    d := Step(MI, d, a, b, c, x[7], 0x432aff97, 10);
    c := Step(MI, c, d, a, b, x[14], 0xab9423a7, 15);
    b := Step(MI, b, c, d, a, x[5], 0xfc93a039, 21);
    assert State(a, b, c, d) == FourTurns(s, x, 48);
    a := Step(MI, a, b, c, d, x[12], 0x655b59c3, 6);
    d := Step(MI, d, a, b, c, x[3], 0x8f0ccc92, 10);
    c := Step(MI, c, d, a, b, x[10], 0xffeff47d, 15);
    b := Step(MI, b, c, d, a, x[1], 0x85845dd1, 21);
    r := State(a, b, c, d);
  }

  method Round4End(s: State, x: seq<Word>) returns (r: State)
    requires |x| == 16
    ensures r == EightOf(s, x, 56)
  {
    var State(a, b, c, d) := s;
    a := Step(MI, a, b, c, d, x[8], 0x6fa87e4f, 6);
    d := Step(MI, d, a, b, c, x[15], 0xfe2ce6e0, 10);
    c := Step(MI, c, d, a, b, x[6], 0xa3014314, 15);
    b := Step(MI, b, c, d, a, x[13], 0x4e0811a1, 21);
    assert State(a, b, c, d) == FourTurns(s, x, 56);
    a := Step(MI, a, b, c, d, x[4], 0xf7537e82, 6);
    d := Step(MI, d, a, b, c, x[11], 0xbd3af235, 10);
    c := Step(MI, c, d, a, b, x[2], 0x2ad7d2bb, 15);
    b := Step(MI, b, c, d, a, x[9], 0xeb86d391, 21);
    r := State(a, b, c, d);
  }

  lemma EightTurns(s: State, x: seq<Word>, n: nat)
    requires |x| == 16
    ensures Turns(s, x, n + 8) == EightOf(Turns(s, x, n), x, n)
  {
    FourMore(s, x, n);
    FourMore(s, x, n + 4);
  }

  lemma FourMore(s: State, x: seq<Word>, n: nat)
    requires |x| == 16
    ensures Turns(s, x, n + 4) == FourTurns(Turns(s, x, n), x, n)
  {
    assert Turns(s, x, n + 1) == Turn(Turns(s, x, n), x, n);
    assert Turns(s, x, n + 2) == Turn(Turns(s, x, n + 1), x, n + 1);
    assert Turns(s, x, n + 3) == Turn(Turns(s, x, n + 2), x, n + 2);
  }

  /** One round of the loop of body. */
  method Compress(s: State, block: seq<Octet>) returns (r: State)
    requires |block| == 64
    ensures r == Compressed(s, block)
  {
    var x := Words(block);
    var t := Round1Begin(s, x);
    t := Round1End(t, x);
    t := Round2Begin(t, x);
    t := Round2End(t, x);
    t := Round3Begin(t, x);
    t := Round3End(t, x);
    t := Round4Begin(t, x);
    t := Round4End(t, x);
    r := Plus(s, t);
    AllCompressed(s, block);
  }

  ghost function HalfOf(s: State, x: seq<Word>, i: nat): State
    requires |x| == 16
  {
    EightOf(EightOf(EightOf(EightOf(s, x, i), x, i + 8), x, i + 16), x, i + 24)
  }

  /** All operations. */
  ghost function AllOf(s: State, x: seq<Word>): State
    requires |x| == 16
  {
    HalfOf(HalfOf(s, x, 0), x, 32)
  }

  lemma AllTurns(s: State, x: seq<Word>, n: nat)
    requires |x| == 16 && n == 0
    ensures Turns(s, x, n + 64) == AllOf(s, x)
  {
    HalfTurns(s, x, n);
    HalfTurns(s, x, n + 32);
  }

  lemma HalfTurns(s: State, x: seq<Word>, n: nat)
    requires |x| == 16
    ensures Turns(s, x, n + 32) == HalfOf(Turns(s, x, n), x, n)
  {
    EightTurns(s, x, n);
    EightTurns(s, x, n + 8);
    EightTurns(s, x, n + 16);
    EightTurns(s, x, n + 24);
  }

  lemma AllCompressed(s: State, block: seq<Octet>)
    requires |block| == 64
    ensures Plus(s, AllOf(s, Words(block))) == Compressed(s, block)
  {
    AllTurns(s, Words(block), 0);
    CompressedIs(s, block);
  }

  lemma CompressedIs(s: State, block: seq<Octet>)
    requires |block| == 64
    ensures Compressed(s, block) == Plus(s, Turns(s, Words(block), 64))
  {
    assert IsCompressed(s, block, Compressed(s, block));
    assert OpenWord(0);
  }
}
