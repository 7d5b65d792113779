/** md5.c: hashing a message in pieces, after RFC 1321. */
module Md5 {
  import opened Numbers
  import opened Md5Block
  import opened Sequences

  /** Section 3.3 of RFC 1321. */
  const INIT := State(0x67452301, 0xefcdab89, 0x98badcfe, 0x10325476)

  const LO_RANGE := 0x2000_0000
  const WORD_RANGE := 0x1_0000_0000

  // -------- section 3 of RFC 1321 --------

  ghost function Blocks(s: State, data: seq<Octet>): (r: State)
    decreases |data|
  {
    if |data| < 64 then s else Blocks(Compressed(s, data[..64]), data[64..])
  }

  /** How many zeros are missing between a message with its 0x80 and the last eight bytes of a
      block. */
  function Fill(len: nat): (n: nat)
    ensures n < 64 && (len + 1 + n + 8) % 64 == 0
  {
    if len % 64 <= 55 then 55 - len % 64 else 119 - len % 64
  }

  function Zeros(n: nat): (s: seq<Octet>)
    ensures |s| == n
  {
    seq(n, i => 0)
  }

  /** The low-order `k` bytes of a number, the least significant one first. */
  function LittleEndian(n: nat, k: nat): (s: seq<Byte>)
    ensures |s| == k
    decreases k
  {
    if k == 0 then [] else [n % 256] + LittleEndian(n / 256, k - 1)
  }

  function Octets(s: seq<Byte>): (o: seq<Octet>)
    ensures |o| == |s|
  {
    seq(|s|, i requires 0 <= i < |s| => s[i] as Octet)
  }

  /** Sections 3.1 and 3.2: a one bit, zeros, and the length in bits, of which the low-order 64
      count. */
  function Padded(m: seq<Octet>): (p: seq<Octet>)
    ensures |p| % 64 == 0
  {
    m + ([0x80] + Zeros(Fill(|m|)) + Octets(LittleEndian(8 * |m|, 8)))
  }

  /** The registers after a whole message. */
  ghost function Digest(m: seq<Octet>): State {
    Blocks(INIT, Padded(m))
  }

  /** Section 3.5: the low-order byte of the first register comes first. */
  function Output(s: State): (bytes: seq<Octet>)
    ensures |bytes| == 16
  {
    Stored(s.a) + Stored(s.b) + Stored(s.c) + Stored(s.d)
  }

  /** The digest of RFC 1321. */
  ghost function Md5Of(m: seq<Octet>): seq<Octet> {
    Output(Digest(m))
  }

  /** The registers can be read in the output. */
  lemma OutputRead(s: State)
    ensures Loaded(Output(s)[..4]) == s.a && Loaded(Output(s)[4..8]) == s.b
    ensures Loaded(Output(s)[8..12]) == s.c && Loaded(Output(s)[12..]) == s.d
  {
    var o := Output(s);
    assert o[..4] == Stored(s.a) && o[4..8] == Stored(s.b) && o[8..12] == Stored(s.c) && o[12..] == Stored(s.d);
    LoadStored(s.a);
    LoadStored(s.b);
    LoadStored(s.c);
    LoadStored(s.d);
  }

  // -------- blocks --------

  lemma {:induction false} BlocksJoined(s: State, a: seq<Octet>, b: seq<Octet>)
    requires |a| % 64 == 0
    ensures Blocks(s, a + b) == Blocks(Blocks(s, a), b)
    decreases |a|
  {
    if a == [] {
      assert a + b == b;
    } else {
      assert (a + b)[..64] == a[..64] && (a + b)[64..] == a[64..] + b;
      BlocksJoined(Compressed(s, a[..64]), a[64..], b);
    }
  }

  /** Working `data` into the registers `s` gives `r`.  Sealed as in `BlobFrames.At`. */
  ghost predicate Worked(s: State, data: seq<Octet>, r: State) {
    forall u: nat {:trigger OpenWorked(u)} :: r == Blocks(s, data)
  }

  ghost predicate OpenWorked(u: nat) {
    true
  }

  lemma WorkedNothing(s: State)
    ensures Worked(s, [], s)
  {
  }

  lemma WorkedOne(s: State, b: seq<Octet>)
    requires |b| == 64
    ensures Worked(s, b, Compressed(s, b))
  {
    assert b[..64] == b && b[64..] == [];
  }

  lemma WorkedJoined(s: State, a: seq<Octet>, t: State, b: seq<Octet>, r: State)
    requires |a| % 64 == 0 && Worked(s, a, t) && Worked(t, b, r)
    ensures Worked(s, a + b, r)
  {
    assert OpenWorked(0);
    BlocksJoined(s, a, b);
  }

  // -------- the counters --------

  /** `lo` counts bytes up to 2^29, and `hi` how often they were full: together the length in bits,
      of which 64 bits are kept. */
  ghost predicate Counts(len: nat, lo: nat, hi: nat) {
    lo == len % LO_RANGE && hi == len / LO_RANGE % WORD_RANGE
  }

  lemma CountsMore(len: nat, lo: nat, hi: nat, n: nat)
    requires Counts(len, lo, hi)
    ensures var lo' := (lo + n) % LO_RANGE;
            Counts(len + n, lo', (hi + (if lo' < lo then 1 else 0) + n / LO_RANGE) % WORD_RANGE)
  {
    var q, p, r := len / LO_RANGE, n / LO_RANGE, n % LO_RANGE;
    var carry := if lo + r >= LO_RANGE then 1 else 0;
    var rest := lo + r - carry * LO_RANGE;
    assert len + n == (q + p + carry) * LO_RANGE + rest;
    DivModUnique(len + n, LO_RANGE, q + p + carry, rest);
    assert lo + n == (p + carry) * LO_RANGE + rest;
    DivModUnique(lo + n, LO_RANGE, p + carry, rest);
    ModAdd(q, p + carry);
  }

  lemma ModAdd(q: nat, n: nat)
    ensures (q % WORD_RANGE + n) % WORD_RANGE == (q + n) % WORD_RANGE
  {
    var a := q % WORD_RANGE + n;
    DivModUnique(q + n, WORD_RANGE, q / WORD_RANGE + a / WORD_RANGE, a % WORD_RANGE);
  }

  /** What md5_end puts behind all else. */
  function Length(lo: nat, hi: nat): (t: seq<Octet>)
    ensures |t| == 8
  {
    Octets(LittleEndian(8 * lo, 4) + LittleEndian(hi, 4))
  }

  /** The last eight bytes of a message: `lo` shifted by three bits, and `hi`. */
  lemma CountsLength(len: nat, lo: nat, hi: nat)
    requires Counts(len, lo, hi)
    ensures Tail(len, Length(lo, hi))
  {
    BytesOfCounts(len, lo, hi, 4);
  }

  lemma BytesOfCounts(len: nat, lo: nat, hi: nat, k: nat)
    requires Counts(len, lo, hi) && k == 4
    ensures LittleEndian(8 * lo, k) + LittleEndian(hi, k) == LittleEndian(8 * len, k + k)
  {
    var q := len / LO_RANGE;
    assert len == q * LO_RANGE + lo;
    assert Pow256(4) == WORD_RANGE;
    BytesSplit(8 * lo, q, k, k);
    BytesLow(q, k);
  }

  lemma {:induction false} BytesSplit(low: nat, high: nat, k: nat, j: nat)
    requires low < Pow256(k)
    ensures LittleEndian(high * Pow256(k) + low, k + j) == LittleEndian(low, k) + LittleEndian(high, j)
    decreases k
  {
    if k > 0 {
      var p, n := Pow256(k - 1), high * Pow256(k) + low;
      var q, r := low / 256, low % 256;
      assert n == (high * p + q) * 256 + r;
      DivModUnique(n, 256, high * p + q, r);
      BytesSplit(q, high, k - 1, j);
    }
  }

  /** Only the low-order bytes count. */
  lemma {:induction false} BytesLow(n: nat, k: nat)
    ensures LittleEndian(n % Pow256(k), k) == LittleEndian(n, k)
    decreases k
  {
    if k > 0 {
      var p := Pow256(k - 1);
      var q, r := n / 256, n % 256;
      var m, t := q / p, q % p;
      assert n == (m * p + t) * 256 + r;
      assert n == m * (256 * p) + (t * 256 + r);
      DivModUnique(n, 256 * p, m, t * 256 + r);
      DivModUnique(t * 256 + r, 256, t, r);
      BytesLow(q, k - 1);
    }
  }

  // -------- the state between two pieces --------

  /** After the pieces of `m`: whole blocks are worked into `s`, and `buf` is what is left.  The
      body is sealed as in `BlobFrames.At`. */
  ghost predicate Held(m: seq<Octet>, s: State, buf: seq<Octet>) {
    |buf| <= |m| && SealedHeld(m, s, buf) == true
  }

  ghost predicate SealedHeld(m: seq<Octet>, s: State, buf: seq<Octet>)
    requires |buf| <= |m|
  {
    forall u: nat {:trigger OpenHeld(u)} ::
      && |buf| == |m| % 64 && buf == m[|m| - |buf|..]
      && Worked(INIT, m[..|m| - |buf|], s)
  }

  ghost predicate OpenHeld(u: nat) {
    true
  }

  lemma HeldLength(m: seq<Octet>, s: State, buf: seq<Octet>)
    requires Held(m, s, buf)
    ensures |buf| == |m| % 64
  {
    assert OpenHeld(0);
  }

  lemma HeldMore(m: seq<Octet>, s: State, buf: seq<Octet>, data: seq<Octet>)
    requires Held(m, s, buf) && |buf| + |data| < 64
    ensures Held(m + data, s, buf + data)
  {
    assert OpenHeld(0);
    var k := |m| - |buf|;
    RestUnique(|m|, |buf|, |data|);
    assert (m + data)[..k] == m[..k] && (m + data)[k..] == m[k..] + data;
  }

  lemma HeldBlock(m: seq<Octet>, s: State, buf: seq<Octet>, data: seq<Octet>)
    requires Held(m, s, buf) && |buf| + |data| == 64
    ensures Held(m + data, Compressed(s, buf + data), [])
  {
    WorkedOne(s, buf + data);
    HeldWorked(m, s, buf, data, Compressed(s, buf + data));
  }

  /** The bytes that complete a number of blocks. */
  lemma HeldWorked(m: seq<Octet>, s: State, buf: seq<Octet>, data: seq<Octet>, r: State)
    requires Held(m, s, buf) && (|buf| + |data|) % 64 == 0 && Worked(s, buf + data, r)
    ensures |m + data| % 64 == 0 && Worked(INIT, m + data, r) && Held(m + data, r, [])
  {
    var k := |m| - |buf|;
    assert m == m[..k] + buf && Worked(INIT, m[..k], s) by {
      assert OpenHeld(0);
    }
    WholeBlocks(|m|);
    HeldLength(m, s, buf);
    WorkedJoined(INIT, m[..k], s, buf + data, r);
    assert m + data == m[..k] + (buf + data);
    Mod64(k, |buf| + |data|);
    assert (m + data)[..|m + data|] == m + data;
  }

  /** `n` more bytes behind `r`, which may be less than none. */
  lemma RestUnique(len: nat, r: nat, n: int)
    requires r == len % 64 && 0 <= r + n < 64
    ensures len + n >= 0 && (len + n) % 64 == r + n && (len + n + 64) % 64 == r + n
  {
    var q := len / 64;
    assert len + n == q * 64 + (r + n);
    DivModUnique(len + n, 64, q, r + n);
    DivModUnique(len + n + 64, 64, q + 1, r + n);
  }

  lemma Mod64(a: nat, b: nat)
    requires a % 64 == 0
    ensures (a + b) % 64 == b % 64
  {
    DivModUnique(a + b, 64, a / 64 + b / 64, b % 64);
  }

  lemma FillFits(len: nat)
    ensures len % 64 <= 55 ==> Fill(len) == 55 - len % 64
    ensures len % 64 > 55 ==> Fill(len) == (63 - len % 64) + 56
  {
  }

  /** What md5_end puts behind the message, when it fits into the block that was begun. */
  lemma HeldPadded(m: seq<Octet>, s: State, buf: seq<Octet>, tail: seq<Octet>)
    requires Held(m, s, buf) && |buf| <= 55 && Tail(|m|, tail)
    ensures DigestIs(m, Compressed(s, buf + [0x80] + Zeros(55 - |buf|) + tail))
  {
    HeldLength(m, s, buf);
    FillFits(|m|);
    var b := buf + [0x80] + Zeros(55 - |buf|) + tail;
    Regroup(buf, [0x80], Zeros(55 - |buf|), tail);
    WorkedOne(s, b);
    HeldDigest(m, s, buf, tail, Compressed(s, b));
  }

  /** And when it takes another block. */
  lemma HeldPaddedTwice(m: seq<Octet>, s: State, buf: seq<Octet>, available: nat, tail: seq<Octet>)
    requires Held(m, s, buf) && |buf| + 1 + available == 64 && available < 8 && Tail(|m|, tail)
    ensures DigestIs(m, Compressed(Compressed(s, buf + [0x80] + Zeros(available)), [] + Zeros(64 - 8) + tail))
  {
    HeldLength(m, s, buf);
    FillFits(|m|);
    PadSplits(buf, available, tail);
    assert [] + Zeros(56) == Zeros(56);
    HeldTwice(m, s, buf, tail, buf + [0x80] + Zeros(available), [] + Zeros(56) + tail);
  }

  lemma HeldTwice(m: seq<Octet>, s: State, buf: seq<Octet>, tail: seq<Octet>, b: seq<Octet>, c: seq<Octet>)
    requires Held(m, s, buf) && Tail(|m|, tail) && |b| == |c| == 64
    requires buf + ([0x80] + Zeros(Fill(|m|)) + tail) == b + c
    ensures DigestIs(m, Compressed(Compressed(s, b), c))
  {
    var t := Compressed(s, b);
    WorkedOne(s, b);
    WorkedOne(t, c);
    WorkedJoined(s, b, t, c, Compressed(t, c));
    HeldDigest(m, s, buf, tail, Compressed(t, c));
  }

  lemma HeldDigest(m: seq<Octet>, s: State, buf: seq<Octet>, tail: seq<Octet>, r: State)
    requires Held(m, s, buf) && Tail(|m|, tail) && Worked(s, buf + ([0x80] + Zeros(Fill(|m|)) + tail), r)
    ensures DigestIs(m, r)
  {
    var pad := [0x80] + Zeros(Fill(|m|)) + tail;
    HeldLength(m, s, buf);
    PadLength(|m|, |buf|);
    HeldWorked(m, s, buf, pad, r);
    Digested(m, tail, r);
  }

  lemma PadLength(len: nat, used: nat)
    requires used == len % 64
    ensures (used + 1 + Fill(len) + 8) % 64 == 0
  {
  }

  lemma PadSplits(buf: seq<Octet>, n: nat, tail: seq<Octet>)
    ensures buf + ([0x80] + Zeros(n + 56) + tail) == buf + [0x80] + Zeros(n) + (Zeros(56) + tail)
  {
    ZerosJoined(n, 56);
    Regrouped(buf, [0x80], Zeros(n), Zeros(56), tail);
  }

  /** `t` is the length that ends a padded message. */
  ghost predicate Tail(len: nat, t: seq<Octet>) {
    |t| == 8 && SealedTail(len, t) == true
  }

  ghost predicate SealedTail(len: nat, t: seq<Octet>) {
    forall u: nat {:trigger OpenTail(u)} :: t == Octets(LittleEndian(8 * len, 8))
  }

  ghost predicate OpenTail(u: nat) {
    true
  }

  ghost predicate DigestIs(m: seq<Octet>, digest: State) {
    SealedDigest(m, digest) == true
  }

  ghost predicate SealedDigest(m: seq<Octet>, digest: State) {
    forall u: nat {:trigger OpenTail(u)} :: digest == Digest(m)
  }

  lemma Digested(m: seq<Octet>, tail: seq<Octet>, r: State)
    requires Tail(|m|, tail) && Worked(INIT, m + ([0x80] + Zeros(Fill(|m|)) + tail), r)
    ensures DigestIs(m, r)
  {
    assert OpenTail(0) && OpenWorked(0);
  }

  lemma ZerosJoined(a: nat, b: nat)
    ensures Zeros(a + b) == Zeros(a) + Zeros(b)
  {
  }

  lemma Regroup(a: seq<Octet>, b: seq<Octet>, c: seq<Octet>, d: seq<Octet>)
    ensures a + (b + c + d) == a + b + c + d
  {
  }

  lemma Regrouped(a: seq<Octet>, b: seq<Octet>, c: seq<Octet>, d: seq<Octet>, e: seq<Octet>)
    ensures a + (b + (c + d) + e) == (a + b + c) + (d + e)
  {
  }

  /** Two pieces, one behind the other. */
  lemma Split(data: seq<Octet>, n: nat)
    requires n <= |data|
    ensures forall m: seq<Octet> :: m + data[..n] + data[n..] == m + data
  {
  }

  lemma WholeBlocks(len: nat)
    ensures (len - len % 64) % 64 == 0
  {
    DivModUnique(len - len % 64, 64, len / 64, 0);
  }

  lemma UsedBytes(len: nat)
    ensures len % LO_RANGE % 64 == len % 64
  {
    var q, r := len / LO_RANGE, len % LO_RANGE;
    assert len == q * LO_RANGE + r && r == r / 64 * 64 + r % 64;
    assert len == (q * 0x80_0000 + r / 64) * 64 + r % 64;
    DivModUnique(len, 64, q * 0x80_0000 + r / 64, r % 64);
  }

  class Md5 {
    var lo: nat
    var hi: nat
    var s: State
    const buffer: array<Octet>
    /** All that has been hashed. */
    ghost var m: seq<Octet>

    ghost predicate Valid()
      reads this, buffer
    {
      && buffer.Length == 64 && Counts(|m|, lo, hi)
      && Held(m, s, buffer[..|m| % 64])
    }

    /** md5_begin */
    constructor ()
      ensures Valid() && m == [] && fresh(buffer)
    {
      lo, hi, s, m := 0, 0, INIT, [];
      buffer := new Octet[64](_ => 0 as Octet);
      new;
      assert m[..0] == [];
    }

    /** memcpy into the buffer */
    method Copy(off: nat, data: seq<Octet>)
      requires off + |data| <= buffer.Length
      modifies buffer
      ensures buffer[..] == old(buffer[..off]) + data + old(buffer[off + |data|..])
    {
      forall i | 0 <= i < |data| {
        buffer[off + i] := data[i];
      }
    }

    /** The loop of body. */
    method Body(data: seq<Octet>)
      requires |data| > 0 && |data| % 64 == 0
      modifies this`s
      ensures Worked(old(s), data, s)
    {
      var ptr := data;
      ghost var done, k, n: nat := [], 0, |data| / 64;
      WorkedNothing(s);
      while ptr != []
        invariant |done| == 64 * k && |ptr| == 64 * n && done + ptr == data && Worked(old(s), done, s)
        decreases n
      {
        ghost var was := s;
        WorkedOne(s, ptr[..64]);
        s := Compress(s, ptr[..64]);
        WorkedJoined(old(s), done, was, ptr[..64], s);
        done, ptr := done + ptr[..64], ptr[64..];
        k, n := k + 1, n - 1;
      }
      assert done == data;
    }

    /** The same for one block. */
    method BodyOnce(block: seq<Octet>)
      requires |block| == 64
      modifies this`s
      ensures s == Compressed(old(s), block)
    {
      WorkedOne(s, block);
      ghost var was := s;
      Body(block);
      assert OpenWorked(0);
    }

    /** The counters in md5_hash. */
    method Count(n: nat)
      requires Counts(|m|, lo, hi)
      modifies this`lo, this`hi
      ensures Counts(|m| + n, lo, hi)
    {
      CountsMore(|m|, lo, hi, n);
      ghost var hi0 := hi;
      var saved := lo;
      lo := (saved + n) % LO_RANGE;
      if lo < saved {
        hi := (hi + 1) % WORD_RANGE;
      }
      ModAdd(hi0 + (if lo < saved then 1 else 0), n / LO_RANGE);
      hi := (hi + n / LO_RANGE) % WORD_RANGE;
    }

    /** md5_hash */
    method Hash(data: seq<Octet>)
      requires Valid()
      modifies this`lo, this`hi, this`s, this`m, buffer
      ensures Valid() && m == old(m) + data
    {
      UsedBytes(|m|);
      ghost var len := |m| + |data|;
      var used := lo % 64;
      Count(|data|);
      var rest := data;
      if used != 0 {
        var available := 64 - used;
        if |data| < available {
          Keep(used, data);
          return;
        }
        Split(data, available);
        FinishBlock(used, data[..available]);
        rest := data[available..];
        used := 0;
      }
      assert buffer[..0] == [];
      HashRest(rest);
    }

    /** The last bytes stay in the buffer. */
    method Keep(used: nat, data: seq<Octet>)
      requires buffer.Length == 64 && used + |data| < 64 && Held(m, s, buffer[..used])
      modifies this`m, buffer
      ensures m == old(m) + data && Held(m, s, buffer[..|m| % 64])
    {
      ghost var buf := buffer[..used];
      HeldMore(m, s, buf, data);
      Copy(used, data);
      assert buffer[..used + |data|] == buf + data;
      m := m + data;
      HeldLength(m, s, buf + data);
    }

    /** The part of md5_hash that fills the buffer up and works it in. */
    method FinishBlock(used: nat, data: seq<Octet>)
      requires buffer.Length == 64 && used + |data| == 64 && Held(m, s, buffer[..used])
      modifies this`s, this`m, buffer
      ensures Held(m, s, []) && m == old(m) + data
    {
      HeldBlock(m, s, buffer[..used], data);
      ghost var buf := buffer[..used];
      Copy(used, data);
      assert buffer[..] == buf + data;
      BodyOnce(buffer[..]);
      m := m + data;
    }

    /** The part of md5_hash behind the first block. */
    method HashRest(data: seq<Octet>)
      requires buffer.Length == 64 && Held(m, s, [])
      modifies this`s, this`m, buffer
      ensures m == old(m) + data && Held(m, s, buffer[..|m| % 64])
    {
      var rest := data;
      if |data| >= 64 {
        var size := |data| - |data| % 64;
        WholeBlocks(|data|);
        Split(data, size);
        ghost var was := s;
        Body(data[..size]);
        assert [] + data[..size] == data[..size];
        HeldWorked(m, was, [], data[..size], s);
        m := m + data[..size];
        rest := data[size..];
      }
      assert buffer[..0] == [];
      Keep(0, rest);
    }

    /** md5_end: the digest of all pieces together; the context is cleared. */
    method End() returns (result: seq<Octet>)
      requires Valid()
      modifies this`lo, this`hi, this`s, buffer
      ensures result == Md5Of(m)
      ensures lo == hi == 0 && s == State(0, 0, 0, 0) && forall i :: 0 <= i < buffer.Length ==> buffer[i] == 0
    {
      var digest := Finish();
      assert digest == Digest(m) by {
        assert OpenTail(0);
      }
      result := Output(digest);
      Clear();
    }

    method Clear()
      modifies this`lo, this`hi, this`s, buffer
      ensures lo == hi == 0 && s == State(0, 0, 0, 0) && forall i :: 0 <= i < buffer.Length ==> buffer[i] == 0
    {
      lo, hi, s := 0, 0, State(0, 0, 0, 0);
      forall i | 0 <= i < buffer.Length {
        buffer[i] := 0;
      }
    }

    method Finish() returns (digest: State)
      requires Valid()
      modifies this`s, buffer
      ensures DigestIs(m, digest)
    {
      HeldLength(m, s, buffer[..|m| % 64]);
      UsedBytes(|m|);
      CountsLength(|m|, lo, hi);
      var used := lo % 64;
      ghost var buf := buffer[..used];
      Copy(used, [0x80]);
      used := used + 1;
      assert buffer[..used] == buf + [0x80];
      var available := 64 - used;
      if available < 8 {
        HeldPaddedTwice(m, s, buf, available, Length(lo, hi));
        FinishTwice(buf + [0x80], available);
      } else {
        HeldPadded(m, s, buf, Length(lo, hi));
        LastBlock(buf + [0x80], available);
      }
      digest := s;
    }

    method FinishTwice(ghost front: seq<Octet>, available: nat)
      requires buffer.Length == 64 && |front| + available == 64 && buffer[..|front|] == front
      modifies this`s, buffer
      ensures s == Compressed(Compressed(old(s), front + Zeros(available)), [] + Zeros(64 - 8) + Length(lo, hi))
    {
      FirstBlock(front, available);
      LastBlock([], 64);
    }

    /** No room for the length: the block is filled up with zeros and worked in. */
    method FirstBlock(ghost front: seq<Octet>, available: nat)
      requires buffer.Length == 64 && |front| + available == 64 && buffer[..|front|] == front
      modifies this`s, buffer
      ensures s == Compressed(old(s), front + Zeros(available))
    {
      Copy(64 - available, Zeros(available));
      assert buffer[..] == front + Zeros(available);
      BodyOnce(buffer[..]);
    }

    /** Zeros and the length end a block. */
    method LastBlock(ghost front: seq<Octet>, available: nat)
      requires buffer.Length == 64 && |front| + available == 64 && available >= 8
      requires buffer[..|front|] == front
      modifies this`s, buffer
      ensures s == Compressed(old(s), front + Zeros(available - 8) + Length(lo, hi))
    {
      Copy(64 - available, Zeros(available - 8));
      ghost var block := front + Zeros(available - 8);
      assert buffer[..56] == block;
      LengthBytes();
      assert buffer[..] == block + Length(lo, hi);
      BodyOnce(buffer[..]);
    }

    method LengthBytes()
      requires buffer.Length == 64
      modifies buffer
      ensures buffer[..] == old(buffer[..56]) + Length(lo, hi)
    {
      var bytes := Length(lo, hi);
      Copy(56, bytes);
    }
  }

  /** Cutting does not matter: the digest of any pieces is that of the message they make up. */
  method HashAll(pieces: seq<seq<Octet>>) returns (result: seq<Octet>)
    ensures result == Md5Of(Flatten(pieces))
  {
    var ctx := new Md5();
    var i := 0;
    while i < |pieces|
      invariant 0 <= i <= |pieces| && ctx.Valid() && ctx.m == Flatten(pieces[..i]) && fresh(ctx) && fresh(ctx.buffer)
    {
      ctx.Hash(pieces[i]);
      assert pieces[..i + 1][..i] == pieces[..i];
      i := i + 1;
    }
    assert pieces[..i] == pieces;
    result := ctx.End();
  }

  function Flatten(pieces: seq<seq<Octet>>): (m: seq<Octet>) {
    if pieces == [] then [] else Flatten(pieces[..|pieces| - 1]) + pieces[|pieces| - 1]
  }
}
