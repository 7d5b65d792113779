/** Attribute headers and padding as bytes (blob.h). */
module BlobBytes {
  import opened Numbers
  import opened Sequences

  const LEN_RANGE := 0x100_0000
  const ATTR_HEADER := 4
  /** size_t is 64 bits wide. */
  const SIZE_RANGE := 0x1_0000_0000_0000_0000

  /* Shifts and remainders are written by subtraction here, and Pad is picked by what it is, so that
     no division comes into proofs that only handle lengths; HighAndLow and PadIsMask say that they
     are the usual ones. */

  /** n >> 8, by subtraction. */
  function High(n: nat): (q: nat) {
    if n < 256 then 0 else 1 + High(n - 256)
  }

  /** n & 0xff, by subtraction. */
  function Low(n: nat): (r: nat)
    ensures r < 256
  {
    if n < 256 then n else Low(n - 256)
  }

  lemma {:induction false} HighAndLow(n: nat)
    ensures High(n) == n / 256 && Low(n) == n % 256 && n == High(n) * 256 + Low(n)
  {
    if n >= 256 {
      HighAndLow(n - 256);
    }
  }

  /** The digit of a number that has `j` digits behind it. */
  function Digit(n: nat, j: nat): (d: nat)
    ensures d < 256
    decreases j
  {
    if j == 0 then Low(n) else Digit(High(n), j - 1)
  }

  function Digits(n: nat, k: nat): (s: seq<Byte>)
    ensures |s| == k
  {
    seq(k, i requires 0 <= i < k => Digit(n, k - 1 - i))
  }

  /** The last `k` bytes of a number, the most significant one first. */
  ghost function BigEndian(n: nat, k: nat): (s: seq<Byte>)
    ensures |s| == k && BytesOf(n, k, s)
  {
    assert OpenGap(0);
    assert BytesOf(n, k, Digits(n, k));
    var s: seq<Byte> :| |s| == k && BytesOf(n, k, s);
    s
  }

  ghost predicate BytesOf(n: nat, k: nat, s: seq<Byte>) {
    forall u: nat {:trigger OpenGap(u)} | u < 1 :: s == Digits(n, k)
  }

  method NumberBytes(n: nat, k: nat) returns (s: seq<Byte>)
    ensures s == BigEndian(n, k)
  {
    assert OpenGap(0);
    s := Digits(n, k);
  }

  function Number(s: seq<Byte>): (n: nat) {
    if s == [] then 0 else Number(s[..|s| - 1]) * 256 + s[|s| - 1]
  }

  /** Reading the bytes of a number gives it back, but for what they have no room for. */
  lemma {:induction false} NumberOfBytes(n: nat, k: nat)
    ensures Number(BigEndian(n, k)) == n % Pow256(k)
    ensures n < Pow256(k) ==> Number(BigEndian(n, k)) == n
    decreases k
  {
    if k > 0 {
      assert OpenGap(0);
      var s, t := Digits(n, k), Digits(High(n), k - 1);
      forall i | 0 <= i < k - 1
        ensures s[i] == t[i]
      {
        assert Digit(n, k - 1 - i) == Digit(High(n), k - 2 - i);
      }
      assert s[..k - 1] == t && s[k - 1] == Digit(n, 0);
      HighAndLow(n);
      NumberOfBytes(High(n), k - 1);
      ModOfDigits(High(n), Low(n), Pow256(k - 1));
    }
  }

  /** A length of 24 bits or more is stored with its high bits cut off: 2^24 becomes 0. */
  lemma LengthKept(n: nat)
    ensures Number(BigEndian(n, 3)) == n <==> n < LEN_RANGE
    ensures Number(BigEndian(LEN_RANGE, 3)) == 0
  {
    assert Pow256(3) == LEN_RANGE;
    NumberOfBytes(n, 3);
    NumberOfBytes(LEN_RANGE, 3);
  }

  lemma ModOfDigits(q: nat, r: nat, p: nat)
    requires r < 256 && p > 0
    ensures (q * 256 + r) % (256 * p) == (q % p) * 256 + r
  {
    var m := q / p;
    assert q == m * p + q % p;
    assert q * 256 + r == m * (256 * p) + ((q % p) * 256 + r);
    assert (q % p) * 256 + r < 256 * p;
    DivModUnique(q * 256 + r, 256 * p, m, (q % p) * 256 + r);
  }

  /** The header of an attribute, id_len in network order: one bit for attributes with a name,
      7 bits for the id, and 24 bits for the length with the header. */
  ghost function Header(id: nat, extended: bool, len: nat): (h: seq<Byte>)
    requires id < 128
    ensures |h| == 4
  {
    [if extended then 128 + id else id] + BigEndian(len, 3)
  }

  /** blob_raw_len */
  function RawLen(s: seq<Byte>): (n: nat)
    requires |s| >= 4
  {
    Number(s[1..4])
  }

  /** blob_id */
  function Id(s: seq<Byte>): (id: nat)
    requires |s| >= 4
    ensures id < 128
  {
    var b: int := s[0];
    if b >= 128 then b - 128 else b
  }

  /** blob_is_extended */
  predicate Extended(s: seq<Byte>)
    requires |s| >= 4
  {
    s[0] >= 128
  }

  lemma HeaderParts(id: nat, extended: bool, len: nat, rest: seq<Byte>)
    requires id < 128 && len < LEN_RANGE
    ensures var s := Header(id, extended, len) + rest;
            RawLen(s) == len && Id(s) == id && (Extended(s) <==> extended)
  {
    var s := Header(id, extended, len) + rest;
    assert s[1..4] == BigEndian(len, 3);
    assert Pow256(3) == LEN_RANGE;
    NumberOfBytes(len, 3);
  }

  /** How much is missing to a multiple of BLOB_ATTR_ALIGN, which is 4. */
  function Gap(n: nat): (g: nat)
    ensures g < 4
  {
    if n >= 4 then Gap(n - 4) else if n == 0 then 0 else 4 - n
  }

  ghost predicate Aligned(n: nat) {
    forall u: nat {:trigger OpenGap(u)} :: Gap(n) == 0
  }

  predicate OpenGap(u: nat) {
    true
  }

  /** blob_pad_len rounds up. */
  function Pad(n: nat): (p: nat)
    ensures n <= p < n + 4 && Aligned(p) && Rounded(n, p)
    ensures Aligned(n) ==> p == n
  {
    GapClosed(n);
    assert OpenGap(0);
    assert Rounded(n, n + Gap(n));
    var p: nat :| n <= p < n + 4 && Rounded(n, p);
    p
  }

  predicate Rounded(n: nat, p: nat) {
    forall u: nat {:trigger OpenGap(u)} | u < 1 :: p == n + Gap(n)
  }

  lemma {:induction false} GapClosed(n: nat)
    ensures Gap(n + Gap(n)) == 0
  {
    if n >= 4 {
      GapClosed(n - 4);
    }
  }

  /** The rounding that the source does with a mask. */
  lemma {:induction false} PadIsMask(n: nat)
    ensures Pad(n) == (n + 3) / 4 * 4
  {
    assert OpenGap(0);
    if n >= 4 {
      PadIsMask(n - 4);
      assert (n - 4 + 3) / 4 + 1 == (n + 3) / 4;
    }
  }

  lemma {:induction false} SumAligned(a: nat, b: nat)
    requires Aligned(a) && Aligned(b)
    ensures Aligned(a + b)
  {
    assert OpenGap(0);
    if a >= 4 {
      SumAligned(a - 4, b);
    }
  }

  /** blob_len is a size_t: the header is subtracted even from a length that is shorter. */
  function BlobLen(s: seq<Byte>): (n: nat)
    requires |s| >= 4
  {
    if RawLen(s) >= ATTR_HEADER then RawLen(s) - ATTR_HEADER else RawLen(s) + SIZE_RANGE - ATTR_HEADER
  }

  // enum of blob.h
  const BLOB_STRING := 3
  const BLOB_INT8 := 4
  const BLOB_INT64 := 7
  const BLOB_LAST := 9

  /** blob_type_minlen */
  function MinLen(kind: nat): nat {
    if kind == BLOB_STRING || kind == BLOB_INT8 then 1
    else if kind == 5 then 2
    else if kind == 6 then 4
    else if kind == BLOB_INT64 || kind == 8 then 8
    else 0
  }

  /** blob_check_type */
  predicate CheckType(kind: nat, data: seq<Byte>) {
    if kind >= BLOB_LAST then false
    else if BLOB_INT8 <= kind <= BLOB_INT64 && |data| != MinLen(kind) then false
    else if |data| < MinLen(kind) then false
    else if kind == BLOB_STRING && data[|data| - 1] != 0 then false
    else true
  }

  function Zeros(n: nat): (s: seq<Byte>)
    ensures |s| == n && forall i :: 0 <= i < n ==> s[i] == 0
  {
    seq(n, i => 0)
  }

  /** Bytes `b` are written over `s` from `off` on. */
  function Write(s: seq<Byte>, off: nat, b: seq<Byte>): (r: seq<Byte>)
    requires off + |b| <= |s|
    ensures |r| == |s|
  {
    s[..off] + b + s[off + |b|..]
  }
}
