/** base64.c: encoding, decoding, and that each undoes the other. */
module Base64 {
  import opened Sequences

  const PAD := '=' as int

  // -------- the alphabet --------

  /** The character for a digit: A to Z, a to z, 0 to 9, + and /. */
  function Letter(v: nat): (c: Byte)
    requires v < 64
    ensures c != PAD && c != 0 && !Space(c)
  {
    if v < 26 then 65 + v
    else if v < 52 then 71 + v
    else if v < 62 then v - 4
    else if v == 62 then 43
    else 47
  }

  function Digit(c: Byte): (v: Option<nat>)
    ensures v.Some? ==> v.value < 64
    ensures v.Some? <==> exists d: nat :: d < 64 && Letter(d) == c
    ensures v.Some? ==> Letter(v.value) == c
  {
    if 65 <= c <= 90 then assert Letter(c - 65) == c; Some(c - 65)
    else if 97 <= c <= 122 then assert Letter(c - 71) == c; Some(c - 71)
    else if 48 <= c <= 57 then assert Letter(c + 4) == c; Some(c + 4)
    else if c == 43 then assert Letter(62) == c; Some(62)
    else if c == 47 then assert Letter(63) == c; Some(63)
    else None
  }

  predicate IsDigit(c: Byte) {
    Digit(c).Some?
  }

  lemma LettersDiffer(v: nat, w: nat)
    requires v < 64 && w < 64 && Letter(v) == Letter(w)
    ensures v == w
  {
  }

  /** isspace in the C locale */
  predicate Space(c: Byte) {
    c == 32 || 9 <= c <= 13
  }

  /** What is left without whitespace. */
  function Strip(s: seq<Byte>): (r: seq<Byte>) {
    if s == [] then [] else (if Space(s[0]) then [] else [s[0]]) + Strip(s[1..])
  }

  // -------- section 4 of RFC 4648 --------

  /** The digit of six bits that has `j` digits behind it. */
  function Sextet(n: nat, j: nat): (v: nat)
    ensures v < 64
    decreases j
  {
    if j == 0 then n % 64 else Sextet(n / 64, j - 1)
  }

  /** 24 bits as four digits, the most significant one first. */
  function Quad(n: nat): (q: seq<Byte>)
    ensures |q| == 4
  {
    seq(4, i requires 0 <= i < 4 => Letter(Sextet(n, 3 - i)))
  }

  function Group(a: Byte, b: Byte, c: Byte): (n: nat) {
    a * 0x1_0000 + b * 0x100 + c
  }

  /** Groups of three bytes become four characters; missing bits are zero, and what holds none of
      the data becomes padding. */
  function Encoded(x: seq<Byte>): (s: seq<Byte>)
    ensures |s| == 4 * ((|x| + 2) / 3)
  {
    if x == [] then []
    else if |x| == 1 then Quad(Group(x[0], 0, 0))[..2] + [PAD, PAD]
    else if |x| == 2 then Quad(Group(x[0], x[1], 0))[..3] + [PAD]
    else Quad(Group(x[0], x[1], x[2])) + Encoded(x[3..])
  }

  // -------- decoding --------

  predicate Digits(s: seq<Byte>, n: nat)
    requires n <= |s|
  {
    forall i :: 0 <= i < n ==> IsDigit(s[i])
  }

  function V(c: Byte): (v: nat)
    requires IsDigit(c)
    ensures v < 64
  {
    Digit(c).value
  }

  function Byte0(s: seq<Byte>): (b: Byte)
    requires |s| >= 2 && Digits(s, 2)
  {
    V(s[0]) * 4 + V(s[1]) / 16
  }

  function Byte1(s: seq<Byte>): (b: Byte)
    requires |s| >= 3 && Digits(s, 3)
  {
    V(s[1]) % 16 * 16 + V(s[2]) / 4
  }

  function Byte2(s: seq<Byte>): (b: Byte)
    requires |s| >= 4 && Digits(s, 4)
  {
    V(s[2]) % 4 * 64 + V(s[3])
  }

  function Behind(a: seq<Byte>, b: Option<seq<Byte>>): Option<seq<Byte>> {
    if b.None? then None else Some(a + b.value)
  }

  /** What a text without whitespace stands for.  Bits that hold none of the data have to be
      zero. */
  function Decoded(s: seq<Byte>): (x: Option<seq<Byte>>) {
    if s == [] then Some([])
    else if |s| < 4 then None
    else if Digits(s, 4) then Behind([Byte0(s), Byte1(s), Byte2(s)], Decoded(s[4..]))
    else if |s| > 4 then None
    else if Digits(s, 3) && s[3] == PAD && V(s[2]) % 4 == 0 then Some([Byte0(s), Byte1(s)])
    else if Digits(s, 2) && s[2] == PAD && s[3] == PAD && V(s[1]) % 16 == 0 then Some([Byte0(s)])
    else None
  }

  lemma ByConstants(q: nat, r: nat)
    ensures r < 4 ==> (q * 4 + r) / 4 == q && (q * 4 + r) % 4 == r
    ensures r < 16 ==> (q * 16 + r) / 16 == q && (q * 16 + r) % 16 == r
    ensures r < 64 ==> (q * 64 + r) / 64 == q && (q * 64 + r) % 64 == r
  {
  }

  lemma SextetsOf(n: nat, m: nat, p: nat, v0: nat, v1: nat, v2: nat, v3: nat)
    requires v0 < 64 && v1 < 64 && v2 < 64 && v3 < 64
    requires n == m * 64 + v3 && m == p * 64 + v2 && p == v0 * 64 + v1
    ensures Sextet(n, 0) == v3 && Sextet(n, 1) == v2 && Sextet(n, 2) == v1 && Sextet(n, 3) == v0
  {
    ByConstants(m, v3);
    ByConstants(p, v2);
    ByConstants(v0, v1);
    assert Sextet(m, 0) == v2 && Sextet(p, 0) == v1 && Sextet(v0, 0) == v0;
    assert Sextet(p, 1) == Sextet(v0, 0) && Sextet(m, 1) == Sextet(p, 0) && Sextet(m, 2) == Sextet(p, 1);
  }

  lemma QuadDigits(a: Byte, b: Byte, c: Byte)
    ensures var q := Quad(Group(a, b, c));
            && q[0] == Letter(a / 4) && q[1] == Letter(a % 4 * 16 + b / 16)
            && q[2] == Letter(b % 16 * 4 + c / 64) && q[3] == Letter(c % 64)
  {
    var a1, a2, b1, b2, c1, c2 := a / 4, a % 4, b / 16, b % 16, c / 64, c % 64;
    assert a == a1 * 4 + a2 && b == b1 * 16 + b2 && c == c1 * 64 + c2;
    SextetsOf(Group(a, b, c), a * 1024 + b * 4 + c1, a * 16 + b1, a1, a2 * 16 + b1, b2 * 4 + c1, c2);
  }

  /** Reading a group back. */
  lemma QuadRead(a: Byte, b: Byte, c: Byte)
    ensures var q := Quad(Group(a, b, c));
            && Digits(q, 4) && Byte0(q) == a && Byte1(q) == b && Byte2(q) == c
            && V(q[1]) % 16 == b / 16 && V(q[2]) % 4 == c / 64
  {
    QuadDigits(a, b, c);
    var q := Quad(Group(a, b, c));
    LettersDiffer(V(q[0]), a / 4);
    LettersDiffer(V(q[1]), a % 4 * 16 + b / 16);
    LettersDiffer(V(q[2]), b % 16 * 4 + c / 64);
    LettersDiffer(V(q[3]), c % 64);
  }

  /** Four digits as three bytes and back. */
  lemma Regrouped(v0: nat, v1: nat, v2: nat, v3: nat)
    requires v0 < 64 && v1 < 64 && v2 < 64 && v3 < 64
    ensures var a, b, c := v0 * 4 + v1 / 16, v1 % 16 * 16 + v2 / 4, v2 % 4 * 64 + v3;
            a / 4 == v0 && a % 4 * 16 + b / 16 == v1 && b % 16 * 4 + c / 64 == v2 && c % 64 == v3
  {
    ByConstants(v0, v1 / 16);
    ByConstants(v1 % 16, v2 / 4);
    ByConstants(v2 % 4, v3);
  }

  lemma RegroupedPair(v0: nat, v1: nat)
    requires v0 < 64 && v1 < 64 && v1 % 16 == 0
    ensures var a := v0 * 4 + v1 / 16;
            a / 4 == v0 && a % 4 * 16 == v1
  {
    ByConstants(v0, v1 / 16);
  }

  lemma RegroupedTriple(v0: nat, v1: nat, v2: nat)
    requires v0 < 64 && v1 < 64 && v2 < 64 && v2 % 4 == 0
    ensures var a, b := v0 * 4 + v1 / 16, v1 % 16 * 16 + v2 / 4;
            a / 4 == v0 && a % 4 * 16 + b / 16 == v1 && b % 16 * 4 == v2
  {
    ByConstants(v0, v1 / 16);
    ByConstants(v1 % 16, v2 / 4);
  }

  lemma QuadFrom(a: Byte, b: Byte, c: Byte, v0: nat, v1: nat, v2: nat, v3: nat)
    requires v0 < 64 && v1 < 64 && v2 < 64 && v3 < 64
    requires a / 4 == v0 && a % 4 * 16 + b / 16 == v1 && b % 16 * 4 + c / 64 == v2 && c % 64 == v3
    ensures Quad(Group(a, b, c)) == [Letter(v0), Letter(v1), Letter(v2), Letter(v3)]
  {
    QuadDigits(a, b, c);
  }

  /** Writing a group again. */
  lemma QuadWritten(s: seq<Byte>)
    requires |s| == 4 && Digits(s, 4)
    ensures Quad(Group(Byte0(s), Byte1(s), Byte2(s))) == s
  {
    Regrouped(V(s[0]), V(s[1]), V(s[2]), V(s[3]));
    QuadFrom(Byte0(s), Byte1(s), Byte2(s), V(s[0]), V(s[1]), V(s[2]), V(s[3]));
  }

  /** Two digits with padding. */
  lemma PairWritten(s: seq<Byte>)
    requires |s| == 4 && Digits(s, 2) && V(s[1]) % 16 == 0
    ensures Quad(Group(Byte0(s), 0, 0))[..2] == s[..2]
  {
    RegroupedPair(V(s[0]), V(s[1]));
    QuadFrom(Byte0(s), 0, 0, V(s[0]), V(s[1]), 0, 0);
  }

  /** Three digits with padding. */
  lemma TripleWritten(s: seq<Byte>)
    requires |s| == 4 && Digits(s, 3) && V(s[2]) % 4 == 0
    ensures Quad(Group(Byte0(s), Byte1(s), 0))[..3] == s[..3]
  {
    RegroupedTriple(V(s[0]), V(s[1]), V(s[2]));
    QuadFrom(Byte0(s), Byte1(s), 0, V(s[0]), V(s[1]), V(s[2]), 0);
  }

  lemma OnePadded(q: seq<Byte>)
    requires |q| == 4 && Digits(q, 4) && V(q[1]) % 16 == 0
    ensures Decoded(q[..2] + [PAD, PAD]) == Some([Byte0(q)])
  {
    var s := q[..2] + [PAD, PAD];
    assert s[0] == q[0] && s[1] == q[1] && !IsDigit(s[2]);
  }

  lemma TwoPadded(q: seq<Byte>)
    requires |q| == 4 && Digits(q, 4) && V(q[2]) % 4 == 0
    ensures Decoded(q[..3] + [PAD]) == Some([Byte0(q), Byte1(q)])
  {
    var s := q[..3] + [PAD];
    assert s[0] == q[0] && s[1] == q[1] && s[2] == q[2] && !IsDigit(s[3]);
  }

  lemma DecodedOne(a: Byte)
    ensures Decoded(Quad(Group(a, 0, 0))[..2] + [PAD, PAD]) == Some([a])
  {
    QuadRead(a, 0, 0);
    OnePadded(Quad(Group(a, 0, 0)));
  }

  lemma DecodedTwo(a: Byte, b: Byte)
    ensures Decoded(Quad(Group(a, b, 0))[..3] + [PAD]) == Some([a, b])
  {
    QuadRead(a, b, 0);
    TwoPadded(Quad(Group(a, b, 0)));
  }

  lemma DecodedThree(a: Byte, b: Byte, c: Byte, rest: seq<Byte>)
    ensures Decoded(Quad(Group(a, b, c)) + rest) == Behind([a, b, c], Decoded(rest))
  {
    QuadRead(a, b, c);
    assert (Quad(Group(a, b, c)) + rest)[..4] == Quad(Group(a, b, c));
    assert (Quad(Group(a, b, c)) + rest)[4..] == rest;
  }

  lemma {:induction false} DecodedEncoded(x: seq<Byte>)
    ensures Decoded(Encoded(x)) == Some(x)
  {
    if x == [] {
    } else if |x| == 1 {
      DecodedOne(x[0]);
      assert x == [x[0]];
    } else if |x| == 2 {
      DecodedTwo(x[0], x[1]);
      assert x == [x[0], x[1]];
    } else {
      DecodedThree(x[0], x[1], x[2], Encoded(x[3..]));
      DecodedEncoded(x[3..]);
      assert x == [x[0], x[1], x[2]] + x[3..];
    }
  }

  lemma EncodedThree(s: seq<Byte>, y: seq<Byte>)
    requires |s| >= 4 && Digits(s, 4)
    ensures Encoded([Byte0(s), Byte1(s), Byte2(s)] + y) == s[..4] + Encoded(y)
  {
    QuadWritten(s[..4]);
    assert ([Byte0(s), Byte1(s), Byte2(s)] + y)[3..] == y;
  }

  lemma EncodedTwo(s: seq<Byte>)
    requires |s| == 4 && Digits(s, 3) && s[3] == PAD && V(s[2]) % 4 == 0
    ensures Encoded([Byte0(s), Byte1(s)]) == s
  {
    TripleWritten(s);
    assert s == s[..3] + [PAD];
  }

  lemma EncodedOne(s: seq<Byte>)
    requires |s| == 4 && Digits(s, 2) && s[2] == PAD && s[3] == PAD && V(s[1]) % 16 == 0
    ensures Encoded([Byte0(s)]) == s
  {
    PairWritten(s);
    assert s == s[..2] + [PAD, PAD];
  }

  lemma {:induction false} EncodedDecoded(s: seq<Byte>)
    requires Decoded(s).Some?
    ensures Encoded(Decoded(s).value) == s
    decreases |s|
  {
    if s == [] {
    } else if Digits(s, 4) {
      EncodedDecoded(s[4..]);
      EncodedThree(s, Decoded(s[4..]).value);
      assert s == s[..4] + s[4..];
    } else if Digits(s, 3) {
      EncodedTwo(s);
    } else {
      EncodedOne(s);
    }
  }

  /** Decoding and encoding are inverse to each other: a text stands for data just when it is the
      encoding of the data. */
  lemma CanonicalText(s: seq<Byte>, x: seq<Byte>)
    ensures Decoded(s) == Some(x) <==> s == Encoded(x)
  {
    DecodedEncoded(x);
    if Decoded(s).Some? {
      EncodedDecoded(s);
    }
  }

  // -------- b64_encode --------

  /** Three bytes as four digits, by shifts and masks. */
  method Sextets(a: Byte, b: Byte, c: Byte) returns (o0: nat, o1: nat, o2: nat, o3: nat)
    ensures o0 < 64 && o1 < 64 && o2 < 64 && o3 < 64
    ensures Quad(Group(a, b, c)) == [Letter(o0), Letter(o1), Letter(o2), Letter(o3)]
  {
    o0 := a / 4;
    o1 := a % 4 * 16 + b / 16;
    o2 := b % 16 * 4 + c / 64;
    o3 := c % 64;
    QuadFrom(a, b, c, o0, o1, o2, o3);
  }

  /** Four characters at once. */
  method PutFour(target: array<Byte>, d: nat, c0: Byte, c1: Byte, c2: Byte, c3: Byte)
    requires d + 4 <= target.Length
    modifies target
    ensures target[..d] == old(target[..d])
    ensures target[..d + 4] == old(target[..d]) + [c0, c1, c2, c3]
  {
    target[d] := c0;
    target[d + 1] := c1;
    target[d + 2] := c2;
    target[d + 3] := c3;
  }

  /** b64_encode succeeds just when the target has room for the text and a NUL. */
  method Encode(src: seq<Byte>, target: array<Byte>) returns (r: int)
    requires target.Length > 0
    modifies target
    ensures r >= 0 <==> target.Length >= 4 * ((|src| + 2) / 3) + 1
    ensures r >= 0 ==> r == |Encoded(src)| < target.Length && target[..r] == Encoded(src) && target[r] == 0
    ensures r >= -1
  {
    var k, d: nat := 0, 0;
    while |src| - k > 2
      invariant k <= |src| && d <= target.Length
      invariant Encoded(src) == target[..d] + Encoded(src[k..])
      decreases |src| - k
    {
      ghost var x, before := src[k..], target[..d];
      var o0, o1, o2, o3 := Sextets(src[k], src[k + 1], src[k + 2]);
      if d + 4 > target.Length {
        return -1;
      }
      PutFour(target, d, Letter(o0), Letter(o1), Letter(o2), Letter(o3));
      assert x[3..] == src[k + 3..];
      Associate(before, [Letter(o0), Letter(o1), Letter(o2), Letter(o3)], Encoded(src[k + 3..]));
      k, d := k + 3, d + 4;
    }
    if k != |src| {
      var ok := EncodeRest(src[k..], target, d);
      if !ok {
        return -1;
      }
      d := d + 4;
    }
    if d >= target.Length {
      return -1;
    }
    target[d] := 0;
    r := d;
  }

  /** The group with padding at the end. */
  method EncodeRest(x: seq<Byte>, target: array<Byte>, d: nat) returns (ok: bool)
    requires |x| == 1 || |x| == 2
    modifies target
    ensures ok <==> d + 4 <= target.Length
    ensures ok ==> target[..d + 4] == old(target[..d]) + Encoded(x)
  {
    var b: Byte := if |x| == 1 then 0 else x[1];
    var o0, o1, o2, o3 := Sextets(x[0], b, 0);
    if d + 4 > target.Length {
      return false;
    }
    PutFour(target, d, Letter(o0), Letter(o1), if |x| == 1 then PAD else Letter(o2), PAD);
    ok := true;
  }

  // -------- b64_decode --------

  /** What the bits of the last digit come to that the byte before has no room for. */
  function Extra(g: seq<Byte>, state: nat): (b: Byte)
    requires state <= |g| && Digits(g, state)
  {
    if state == 2 then V(g[1]) % 16 * 16 else if state == 3 then V(g[2]) % 4 * 64 else 0
  }

  /** How many bytes of a group are complete. */
  function Done(state: nat): nat {
    if state == 0 then 0 else state - 1
  }

  /** b64_decode has taken the groups before `g`, for which the first `b` bytes of the target `t`
      stand, and `state` digits of `g`.  The last byte may be incomplete, or missing when it is
      zero.  The whole text stands for `d`. */
  ghost predicate Going(d: Option<seq<Byte>>, b: nat, g: seq<Byte>, state: nat, t: seq<Byte>) {
    && state < 4 && state <= |g| && b + Done(state) <= |t| && Digits(g, state)
    && SealedGoing(d, b, g, state, t) == true
  }

  /** Sealed as in `BlobFrames.At`. */
  ghost predicate SealedGoing(d: Option<seq<Byte>>, b: nat, g: seq<Byte>, state: nat, t: seq<Byte>)
    requires state < 4 && state <= |g| && b + Done(state) <= |t| && Digits(g, state)
  {
    forall u: nat {:trigger OpenGoing(u)} ::
      && d == Behind(t[..b], Decoded(g))
      && (state == 1 ==> b < |t| && t[b] == V(g[0]) * 4)
      && (state >= 2 ==> t[b] == Byte0(g))
      && (state == 3 ==> t[b + 1] == Byte1(g))
      && (state >= 2 ==> if b + Done(state) < |t| then t[b + Done(state)] == Extra(g, state) else Extra(g, state) == 0)
  }

  ghost predicate OpenGoing(u: nat) {
    true
  }

  /** The text stands for no data, or for more than the target can hold. */
  ghost predicate Fails(d: Option<seq<Byte>>, room: nat) {
    d.None? || |d.value| > room
  }

  lemma BadCharacter(d: Option<seq<Byte>>, b: nat, g: seq<Byte>, state: nat, t: seq<Byte>)
    requires Going(d, b, g, state, t) && state < |g| && !IsDigit(g[state]) && g[state] != PAD
    ensures d.None?
  {
    assert OpenGoing(0);
  }

  lemma Starts(g: seq<Byte>, t: seq<Byte>)
    ensures Going(Decoded(g), 0, g, 0, t)
  {
    assert t[..0] == [];
    assert Decoded(g).Some? ==> [] + Decoded(g).value == Decoded(g).value;
  }

  /** The digit that is taken in each of the states; `n` is where its bits go. */
  method Take0(target: array<Byte>, n: nat, v: nat, ghost d: Option<seq<Byte>>, ghost g: seq<Byte>) returns (ok: bool)
    requires Going(d, n, g, 0, target[..]) && g != [] && IsDigit(g[0]) && v == V(g[0])
    modifies target
    ensures ok ==> Going(d, n, g, 1, target[..])
    ensures !ok ==> Fails(d, target.Length)
  {
    assert OpenGoing(0);
    if n >= target.Length {
      return false;
    }
    ghost var t := target[..];
    target[n] := v * 4;
    assert target[..n] == t[..n];
    ok := true;
  }

  method Take1(target: array<Byte>, n: nat, v: nat, ghost d: Option<seq<Byte>>, ghost g: seq<Byte>) returns (ok: bool)
    requires Going(d, n, g, 1, target[..]) && |g| > 1 && IsDigit(g[1]) && v == V(g[1])
    modifies target
    ensures ok ==> Going(d, n, g, 2, target[..])
    ensures !ok ==> Fails(d, target.Length)
  {
    assert OpenGoing(0);
    ghost var t := target[..];
    target[n] := target[n] + v / 16;
    var next := v % 16 * 16;
    if n + 1 < target.Length {
      target[n + 1] := next;
    } else if next != 0 {
      return false;
    }
    assert target[..n] == t[..n];
    ok := true;
  }

  method Take2(target: array<Byte>, n: nat, v: nat, ghost d: Option<seq<Byte>>, ghost b: nat, ghost g: seq<Byte>)
    returns (ok: bool)
    requires Going(d, b, g, 2, target[..]) && n == b + 1 && |g| > 2 && IsDigit(g[2]) && v == V(g[2])
    modifies target
    ensures ok ==> Going(d, b, g, 3, target[..])
    ensures !ok ==> Fails(d, target.Length)
  {
    assert OpenGoing(0);
    if n >= target.Length {
      return false;
    }
    ghost var t := target[..];
    target[n] := target[n] + v / 4;
    var next := v % 4 * 64;
    if n + 1 < target.Length {
      target[n + 1] := next;
    } else if next != 0 {
      return false;
    }
    assert target[..b] == t[..b];
    ok := true;
  }

  method Take3(target: array<Byte>, n: nat, v: nat, ghost d: Option<seq<Byte>>, ghost b: nat, ghost g: seq<Byte>)
    returns (ok: bool)
    requires Going(d, b, g, 3, target[..]) && n == b + 2 && |g| > 3 && IsDigit(g[3]) && v == V(g[3])
    modifies target
    ensures ok ==> Going(d, b + 3, g[4..], 0, target[..])
    ensures !ok ==> Fails(d, target.Length)
  {
    assert OpenGoing(0);
    if n >= target.Length {
      return false;
    }
    ghost var t := target[..];
    target[n] := target[n] + v;
    assert target[..b + 3] == t[..b] + [Byte0(g), Byte1(g), Byte2(g)];
    BehindBehind(t[..b], [Byte0(g), Byte1(g), Byte2(g)], Decoded(g[4..]));
    ok := true;
  }

  lemma BehindBehind(a: seq<Byte>, b: seq<Byte>, c: Option<seq<Byte>>)
    ensures Behind(a, Behind(b, c)) == Behind(a + b, c)
  {
    if c.Some? {
      Associate(a, b, c.value);
    }
  }

  /** What has to follow the first padding character. */
  ghost predicate Trails(rest: seq<Byte>, state: nat) {
    (state == 2 && rest == [PAD]) || (state == 3 && rest == [])
  }

  lemma EndsAtPad(d: Option<seq<Byte>>, b: nat, g: seq<Byte>, state: nat, t: seq<Byte>)
    requires Going(d, b, g, state, t) && state < |g| && g[state] == PAD
    ensures if Trails(g[state + 1..], state) && (b + Done(state) < |t| ==> t[b + Done(state)] == 0)
            then d == Some(t[..b + Done(state)]) else d.None?
  {
    assert OpenGoing(0);
    if Trails(g[state + 1..], state) {
      assert state == 2 ==> g[3] == g[state + 1..][0];
      assert |g| == 4;
      assert t[..b + 1] == t[..b] + [t[b]];
      assert state == 3 ==> t[..b + 2] == t[..b] + [t[b], t[b + 1]];
    } else if |g| == 4 {
      assert state == 2 ==> g[state + 1..] == [g[3]];
    }
  }

  lemma EndsAtNul(d: Option<seq<Byte>>, b: nat, g: seq<Byte>, state: nat, t: seq<Byte>)
    requires Going(d, b, g, state, t) && |g| == state
    ensures if state == 0 then d == Some(t[..b]) else d.None?
  {
    assert OpenGoing(0);
    assert t[..b] + [] == t[..b];
  }

  lemma StripNext(s: seq<Byte>, i: nat)
    requires i < |s|
    ensures Strip(s[i..]) == (if Space(s[i]) then [] else [s[i]]) + Strip(s[i + 1..])
  {
    assert s[i..][1..] == s[i + 1..];
  }

  lemma Ahead(g: seq<Byte>, state: nat, ch: Byte, rest: seq<Byte>)
    requires state <= |g| && g[state..] == [ch] + rest
    ensures state < |g| && g[state] == ch && g[state + 1..] == rest
    ensures state == 3 ==> g[4..] == rest && g[4..][0..] == rest
  {
    assert g[state] == g[state..][0];
    assert g[state + 1..] == g[state..][1..];
  }

  /** Only whitespace is left. */
  method OnlySpace(src: seq<Byte>, i0: nat) returns (ok: bool)
    requires i0 <= |src|
    ensures ok <==> Strip(src[i0..]) == []
  {
    var i := i0;
    while i < |src|
      invariant i0 <= i <= |src| && Strip(src[i..]) == Strip(src[i0..])
    {
      StripNext(src, i);
      if !Space(src[i]) {
        return false;
      }
      i := i + 1;
    }
    ok := true;
  }

  /** What b64_decode does behind the first padding character. */
  method Trailing(src: seq<Byte>, i0: nat, state: nat) returns (ok: bool)
    requires i0 <= |src| && state < 4
    ensures ok <==> Trails(Strip(src[i0..]), state)
  {
    if state == 0 || state == 1 {
      return false;
    }
    var i := i0;
    if state == 2 {
      while i < |src| && Space(src[i])
        invariant i0 <= i <= |src| && Strip(src[i..]) == Strip(src[i0..])
      {
        StripNext(src, i);
        i := i + 1;
      }
      if i == |src| {
        assert src[i..] == [] && Strip(src[i..]) == [];
        return false;
      }
      StripNext(src, i);
      assert Strip(src[i..])[0] == src[i];
      if src[i] != PAD {
        return false;
      }
      i := i + 1;
    }
    ok := OnlySpace(src, i);
  }

  /** b64_decode.  `src` is a C string without its NUL.  It succeeds just when the text, without
      whitespace, is the encoding of data that the target has room for, and then returns that. */
  method Decode(src: seq<Byte>, target: array<Byte>) returns (r: int)
    requires target.Length > 0
    modifies target
    ensures r >= -1 && (r >= 0 <==> !Fails(Decoded(Strip(src)), target.Length))
    ensures r >= 0 ==> r <= target.Length && Strip(src) == Encoded(target[..r])
    ensures 0 <= r < target.Length ==> target[r] == 0
  {
    ghost var d, b: nat, g := Decoded(Strip(src)), 0, Strip(src);
    var i, n, state: nat := 0, 0, 0;
    var pad := false;
    assert src[0..] == src && g[0..] == g;
    Starts(g, target[..]);
    while i < |src| && !pad
      invariant i <= |src| && Going(d, b, g, state, target[..]) && n == b + Done(state)
      invariant if pad then state < |g| && g[state] == PAD && Strip(src[i..]) == g[state + 1..] else Strip(src[i..]) == g[state..]
      decreases |src| - i
    {
      var ch := src[i];
      StripNext(src, i);
      i := i + 1;
      if !Space(ch) {
        Ahead(g, state, ch, Strip(src[i..]));
        if ch == PAD {
          pad := true;
        } else {
          var pos := Digit(ch);
          if pos.None? {
            BadCharacter(d, b, g, state, target[..]);
            return -1;
          }
          var ok := Take(target, n, pos.value, state, d, b, g);
          if !ok {
            return -1;
          }
          n := if state == 0 then n else n + 1;
          if state == 3 {
            b, g := b + 3, g[4..];
          }
          state := if state == 3 then 0 else state + 1;
        }
      }
    }
    r := DecodeEnd(src, i, target, n, state, pad, d, b, g);
    if r >= 0 {
      EncodedDecoded(Strip(src));
    }
  }

  /** The switch of b64_decode. */
  method Take(target: array<Byte>, n: nat, v: nat, state: nat, ghost d: Option<seq<Byte>>, ghost b: nat, ghost g: seq<Byte>)
    returns (ok: bool)
    requires Going(d, b, g, state, target[..]) && n == b + Done(state)
    requires state < |g| && IsDigit(g[state]) && v == V(g[state])
    modifies target
    ensures ok ==> if state == 3 then |g| > 3 && Going(d, b + 3, g[4..], 0, target[..]) else Going(d, b, g, state + 1, target[..])
    ensures !ok ==> Fails(d, target.Length)
  {
    if state == 0 {
      ok := Take0(target, n, v, d, g);
    } else if state == 1 {
      ok := Take1(target, n, v, d, g);
    } else if state == 2 {
      ok := Take2(target, n, v, d, b, g);
    } else {
      ok := Take3(target, n, v, d, b, g);
    }
  }

  /** The part of b64_decode behind its loop. */
  method DecodeEnd(src: seq<Byte>, i: nat, target: array<Byte>, n: nat, state: nat, pad: bool,
                   ghost d: Option<seq<Byte>>, ghost b: nat, ghost g: seq<Byte>)
    returns (r: int)
    requires i <= |src| && Going(d, b, g, state, target[..]) && n == b + Done(state)
    requires if pad then state < |g| && g[state] == PAD && Strip(src[i..]) == g[state + 1..] else |g| == state
    modifies target
    ensures r >= -1 && (r >= 0 <==> !Fails(d, target.Length))
    ensures r >= 0 ==> r <= target.Length && d == Some(target[..r])
    ensures 0 <= r < target.Length ==> target[r] == 0
  {
    ghost var t := target[..];
    if pad {
      EndsAtPad(d, b, g, state, t);
      var ok := Trailing(src, i, state);
      if !ok || (n < target.Length && target[n] != 0) {
        return -1;
      }
    } else {
      EndsAtNul(d, b, g, state, t);
      if state != 0 {
        return -1;
      }
    }
    if n < target.Length {
      target[n] := 0;
    }
    assert target[..n] == t[..n];
    r := n;
  }

  /** Encoding and decoding again gives back the data, for any target that has room for it. */
  method RoundTrip(x: seq<Byte>, room: nat) returns (r: int, y: array<Byte>)
    requires 0 < room && |x| <= room
    ensures r == |x| <= y.Length && y[..r] == x
  {
    var text := new Byte[4 * ((|x| + 2) / 3) + 1];
    var n := Encode(x, text);
    y := new Byte[room];
    CanonicalText(text[..n], x);
    EncodedPlain(x);
    r := Decode(text[..n], y);
    CanonicalText(text[..n], y[..r]);
  }

  /** Encodings have no whitespace. */
  lemma {:induction false} EncodedPlain(x: seq<Byte>)
    ensures Strip(Encoded(x)) == Encoded(x)
  {
    if |x| > 2 {
      EncodedPlain(x[3..]);
      StripPlain(Quad(Group(x[0], x[1], x[2])), Encoded(x[3..]));
    } else if x != [] {
      StripPlain(Encoded(x), []);
      assert Encoded(x) + [] == Encoded(x);
    }
  }

  lemma {:induction false} StripPlain(a: seq<Byte>, b: seq<Byte>)
    requires forall i :: 0 <= i < |a| ==> !Space(a[i])
    ensures Strip(a + b) == a + Strip(b)
  {
    if a == [] {
      assert a + b == b;
    } else {
      assert (a + b)[1..] == a[1..] + b;
      StripPlain(a[1..], b);
    }
  }
}
