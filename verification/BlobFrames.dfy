/** What a buffer holds while containers are open in it: the bytes of blob.c and blobmsg.c as
    regions, and the containers from the outermost one to the innermost one. */
module BlobFrames {
  import opened Sequences
  import opened BlobBytes
  import opened Blobmsg

  // -------- regions of a buffer --------

  /** The bytes `b` stand in `s` from `off` on. */
  ghost predicate At(s: seq<Byte>, off: nat, b: seq<Byte>) {
    off + |b| <= |s| && SealedAt(s, off, b) == true
  }

  ghost predicate SealedAt(s: seq<Byte>, off: nat, b: seq<Byte>)
    requires off + |b| <= |s|
  {
    forall u: nat {:trigger OpenBytes(u)} :: s[off..off + |b|] == b
  }

  ghost predicate OpenBytes(u: nat) {
    true
  }

  ghost predicate SameUpTo(s: seq<Byte>, t: seq<Byte>, n: nat) {
    n <= |s| && n <= |t| && SealedSame(s, t, n) == true
  }

  ghost predicate SealedSame(s: seq<Byte>, t: seq<Byte>, n: nat)
    requires n <= |s| && n <= |t|
  {
    forall u: nat {:trigger OpenBytes(u)} :: s[..n] == t[..n]
  }

  ghost predicate SameFrom(s: seq<Byte>, t: seq<Byte>, n: nat) {
    n <= |s| == |t| && SealedFrom(s, t, n) == true
  }

  ghost predicate SealedFrom(s: seq<Byte>, t: seq<Byte>, n: nat)
    requires n <= |s| == |t|
  {
    forall u: nat {:trigger OpenBytes(u)} :: s[n..] == t[n..]
  }

  /** A write of `b` from `off` on makes `t` out of `s`. */
  ghost predicate Stored(s: seq<Byte>, off: nat, b: seq<Byte>, t: seq<Byte>) {
    && off + |b| <= |s| == |t|
    && SameUpTo(s, t, off) && At(t, off, b) && SameFrom(s, t, off + |b|)
  }

  lemma Stores(s: seq<Byte>, off: nat, b: seq<Byte>)
    requires off + |b| <= |s|
    ensures Stored(s, off, b, Write(s, off, b))
  {
    assert OpenBytes(0);
  }

  lemma StoredOnce(s: seq<Byte>, off: nat, b: seq<Byte>, t: seq<Byte>)
    requires Stored(s, off, b, t)
    ensures t == Write(s, off, b)
  {
    assert OpenBytes(0);
    assert t == t[..off] + t[off..off + |b|] + t[off + |b|..];
  }

  lemma Join(s: seq<Byte>, off: nat, a: seq<Byte>, next: nat, b: seq<Byte>)
    requires At(s, off, a) && At(s, next, b) && next == off + |a|
    ensures At(s, off, a + b)
  {
    assert OpenBytes(0);
    assert s[off..next + |b|] == s[off..next] + s[next..next + |b|];
  }

  lemma Split(s: seq<Byte>, off: nat, a: seq<Byte>, next: nat, b: seq<Byte>)
    requires At(s, off, a + b) && next == off + |a|
    ensures At(s, off, a) && At(s, next, b)
  {
    assert OpenBytes(0);
    assert s[off..next] == s[off..off + |a + b|][..|a|];
    assert s[next..next + |b|] == s[off..off + |a + b|][|a|..];
  }

  lemma SliceUpTo(s: seq<Byte>, n: nat, i: nat, j: nat)
    requires i <= j <= n <= |s|
    ensures s[..n][i..j] == s[i..j]
  {
  }

  lemma SliceFrom(s: seq<Byte>, n: nat, i: nat, j: nat)
    requires n <= i <= j <= |s|
    ensures s[n..][i - n..j - n] == s[i..j]
  {
  }

  lemma AtKept(s: seq<Byte>, t: seq<Byte>, n: nat, off: nat, b: seq<Byte>)
    requires SameUpTo(s, t, n) && At(s, off, b) && off + |b| <= n
    ensures At(t, off, b)
  {
    assert OpenBytes(0);
    SliceUpTo(s, n, off, off + |b|);
    SliceUpTo(t, n, off, off + |b|);
  }

  lemma AtStays(s: seq<Byte>, t: seq<Byte>, n: nat, off: nat, b: seq<Byte>)
    requires SameFrom(s, t, n) && At(s, off, b) && n <= off
    ensures At(t, off, b)
  {
    assert OpenBytes(0);
    SliceFrom(s, n, off, off + |b|);
    SliceFrom(t, n, off, off + |b|);
  }

  lemma SameLess(s: seq<Byte>, t: seq<Byte>, n: nat, k: nat)
    requires SameUpTo(s, t, n) && k <= n
    ensures SameUpTo(s, t, k)
  {
    assert OpenBytes(0);
    assert s[..k] == s[..n][..k] && t[..k] == t[..n][..k];
  }

  lemma SameThrough(r: seq<Byte>, s: seq<Byte>, t: seq<Byte>, n: nat)
    requires SameUpTo(r, s, n) && SameUpTo(s, t, n)
    ensures SameUpTo(r, t, n)
  {
    assert OpenBytes(0);
  }

  lemma SameLonger(s: seq<Byte>, b: seq<Byte>, n: nat)
    requires n <= |s|
    ensures SameUpTo(s, s + b, n)
  {
    assert OpenBytes(0);
    assert s[..n] == (s + b)[..n];
  }

  lemma SameItself(s: seq<Byte>, n: nat)
    requires n <= |s|
    ensures SameUpTo(s, s, n)
  {
    assert OpenBytes(0);
  }

  /** blob_raw_len of the attribute at an offset. */
  ghost predicate LenIs(s: seq<Byte>, off: nat, len: nat) {
    off + 4 <= |s| && SealedLen(s, off, len) == true
  }

  ghost predicate SealedLen(s: seq<Byte>, off: nat, len: nat)
    requires off + 4 <= |s|
  {
    forall u: nat {:trigger OpenBytes(u)} :: RawLen(s[off..]) == len
  }

  lemma LenRead(s: seq<Byte>, off: nat)
    requires off + 4 <= |s|
    ensures LenIs(s, off, RawLen(s[off..]))
  {
    assert OpenBytes(0);
  }

  lemma LenOnce(s: seq<Byte>, off: nat, a: nat, b: nat)
    requires LenIs(s, off, a) && LenIs(s, off, b)
    ensures a == b
  {
    assert OpenBytes(0);
  }

  lemma HeaderLen(s: seq<Byte>, off: nat, id: nat, extended: bool, len: nat)
    requires id < 128 && len < LEN_RANGE && At(s, off, Header(id, extended, len))
    ensures LenIs(s, off, len)
  {
    assert OpenBytes(0);
    var h := Header(id, extended, len);
    assert s[off..] == h + s[off + 4..];
    HeaderParts(id, extended, len, s[off + 4..]);
  }

  /** blob_set_raw_len changes the length in a header and leaves the rest of it. */
  lemma HeaderSet(s: seq<Byte>, off: nat, id: nat, extended: bool, len: nat, len': nat, t: seq<Byte>)
    requires id < 128 && len < LEN_RANGE && At(s, off, Header(id, extended, len))
    requires len' < LEN_RANGE && Stored(s, off + 1, BigEndian(len', 3), t)
    ensures At(t, off, Header(id, extended, len')) && SameUpTo(s, t, off) && SameFrom(s, t, off + 4)
  {
    var first: seq<Byte> := [if extended then 128 + id else id];
    Split(s, off, first, off + 1, BigEndian(len, 3));
    AtKept(s, t, off + 1, off, first);
    Join(t, off, first, off + 1, BigEndian(len', 3));
    SameLess(s, t, off + 1, off);
  }

  // -------- sizes --------

  /** What an attribute with this payload takes in a buffer. */
  function Extent(payload: nat): (n: nat)
    ensures payload + ATTR_HEADER <= n && Aligned(n)
  {
    Pad(payload + ATTR_HEADER)
  }

  lemma HeadSize(n: nat)
    ensures Extent(HdrLen(n)) == HdrLen(n) + ATTR_HEADER
  {
    assert Aligned(ATTR_HEADER) by { assert OpenGap(0); }
    SumAligned(HdrLen(n), ATTR_HEADER);
  }

  lemma ValueSize(m: Msg)
    requires m.Value?
    ensures Size(m) == HdrLen(|m.name|) + |m.bytes| + ATTR_HEADER
    ensures Extent(HdrLen(|m.name|) + |m.bytes|) == Pad(Size(m))
  {
    assert BodyLen(m) == |m.bytes|;
  }

  lemma NestedSize(m: Msg)
    requires m.Nested?
    ensures Pad(Size(m)) == ATTR_HEADER + HdrLen(|m.name|) + Total(m.items)
  {
    assert BodyLen(m) == Total(m.items);
    HeadSize(|m.name|);
    SumAligned(Extent(HdrLen(|m.name|)), Total(m.items));
  }

  lemma {:induction false} TotalGrows(ms: seq<Msg>, i: nat)
    requires i <= |ms|
    ensures Total(ms[..i]) <= Total(ms)
  {
    if i < |ms| {
      TotalGrows(ms[..|ms| - 1], i);
      assert ms[..|ms| - 1][..i] == ms[..i];
    } else {
      assert ms[..i] == ms;
    }
  }

  lemma TotalLast(ms: seq<Msg>, m: Msg)
    ensures Total(ms + [m]) == Total(ms) + Pad(Size(m))
  {
    var t := ms + [m];
    assert t[..|t| - 1] == ms && t[|t| - 1] == m;
  }

  lemma TotalNext(ms: seq<Msg>, i: nat)
    requires i < |ms|
    ensures ms[..i + 1] == ms[..i] + [ms[i]]
    ensures Total(ms[..i] + [ms[i]]) == Total(ms[..i]) + Pad(Size(ms[i]))
  {
    TotalLast(ms[..i], ms[i]);
  }

  /** Offsets and buffer sizes are multiples of 4, so padding stays inside. */
  lemma {:induction false} PadStaysInside(pos: nat, len: nat, size: nat)
    requires Aligned(pos) && Aligned(size) && pos + len <= size
    ensures pos + Pad(len) <= size
    decreases size
  {
    assert OpenGap(0);
    if pos >= 4 {
      PadStaysInside(pos - 4, len, size - 4);
    } else if len >= 4 {
      PadStaysInside(pos, len - 4, size - 4);
    }
  }

  ghost predicate WholeBlocks(n: nat) {
    forall u: nat {:trigger OpenBytes(u)} :: n % 256 == 0
  }

  lemma {:induction false} BlocksAligned(n: nat)
    requires WholeBlocks(n)
    ensures Aligned(n)
    decreases n
  {
    assert OpenBytes(0);
    PadIsMask(n);
    assert n == 4 * (n / 256 * 64);
  }

  /** Whole blocks of 256 bytes that begin in a buffer of 24-bit size end in it. */
  lemma BlocksStayInside(size: nat, required: nat)
    requires WholeBlocks(size) && size + required < LEN_RANGE
    ensures WholeBlocks(size + (required / 256 + 1) * 256)
    ensures size + required < size + (required / 256 + 1) * 256 <= LEN_RANGE
  {
    assert OpenBytes(0);
    var a, q := size / 256, required / 256;
    assert size == 256 * a && required == 256 * q + required % 256;
    assert size + (required / 256 + 1) * 256 == 256 * (a + q + 1);
    Block(a + q + 1);
  }

  lemma Block(m: nat)
    ensures 256 * m % 256 == 0
  {
  }

  // -------- attributes that are being written --------

  /** The header of an attribute, and zeros behind its payload. */
  ghost predicate AttrAt(s: seq<Byte>, pos: nat, id: nat, payload: nat)
    requires id < 128
  {
    && At(s, pos, Header(id, false, payload + ATTR_HEADER))
    && At(s, pos + payload + ATTR_HEADER, Zeros(Extent(payload) - payload - ATTR_HEADER))
  }

  /** Header and name of an attribute, and zeros behind its data. */
  ghost predicate FieldAt(s: seq<Byte>, pos: nat, kind: nat, name: seq<Byte>, payload: nat)
    requires kind < 128 && |name| < 0x1_0000
  {
    var n := HdrLen(|name|) + payload;
    && At(s, pos, Header(kind, true, n + ATTR_HEADER))
    && At(s, pos + ATTR_HEADER, NameHeader(name))
    && At(s, pos + n + ATTR_HEADER, Zeros(Extent(n) - n - ATTR_HEADER))
  }

  /** What blob_add writes. */
  lemma AttrStored(s: seq<Byte>, s1: seq<Byte>, t: seq<Byte>, pos: nat, id: nat, payload: nat)
    requires id < 128 && Stored(s, pos, Header(id, false, payload + ATTR_HEADER), s1)
    requires Stored(s1, pos + payload + ATTR_HEADER, Zeros(Extent(payload) - payload - ATTR_HEADER), t)
    ensures AttrAt(t, pos, id, payload) && SameUpTo(s, t, pos)
  {
    AtKept(s1, t, pos + payload + ATTR_HEADER, pos, Header(id, false, payload + ATTR_HEADER));
    SameLess(s1, t, pos + payload + ATTR_HEADER, pos);
    SameThrough(s, s1, t, pos);
  }

  lemma AttrLen(s: seq<Byte>, pos: nat, id: nat, payload: nat)
    requires id < 128 && payload + ATTR_HEADER < LEN_RANGE && AttrAt(s, pos, id, payload)
    ensures LenIs(s, pos, payload + ATTR_HEADER) && s[pos] == id
  {
    HeaderLen(s, pos, id, false, payload + ATTR_HEADER);
    assert OpenBytes(0);
    assert s[pos] == s[pos..pos + 4][0];
  }

  lemma WrittenNext(s: seq<Byte>, off: nat, a: seq<Byte>, next: nat, b: seq<Byte>)
    requires next == off + |a| && next + |b| <= |s|
    ensures Write(Write(s, off, a), next, b) == Write(s, off, a + b)
  {
  }

  lemma WrittenAgain(s: seq<Byte>, off: nat, a: seq<Byte>, b: seq<Byte>)
    requires off + |b| <= |s| && |a| <= |b|
    ensures Write(Write(s, off, a), off, b) == Write(s, off, b)
  {
  }

  lemma AttrStays(s: seq<Byte>, t: seq<Byte>, n: nat, pos: nat, id: nat, payload: nat)
    requires id < 128 && SameFrom(s, t, n) && n <= pos && AttrAt(s, pos, id, payload)
    ensures AttrAt(t, pos, id, payload)
  {
    AtStays(s, t, n, pos, Header(id, false, payload + ATTR_HEADER));
    AtStays(s, t, n, pos + payload + ATTR_HEADER, Zeros(Extent(payload) - payload - ATTR_HEADER));
  }

  /** The four writes to blobmsg_hdr; the last one begins over the NUL behind the name. */
  lemma NameStored(s: seq<Byte>, s1: seq<Byte>, s2: seq<Byte>, s3: seq<Byte>, t: seq<Byte>, off: nat, name: seq<Byte>)
    requires |name| < 0x1_0000 && off + HdrLen(|name|) <= |s|
    requires Stored(s, off, BigEndian(|name|, 2), s1) && Stored(s1, off + 2, name, s2)
    requires Stored(s2, off + 2 + |name|, [0], s3)
    requires Stored(s3, off + 2 + |name|, Zeros(HdrLen(|name|) - 2 - |name|), t)
    ensures Stored(s, off, NameHeader(name), t)
  {
    var n := |name|;
    StoredOnce(s, off, BigEndian(n, 2), s1);
    StoredOnce(s1, off + 2, name, s2);
    StoredOnce(s2, off + 2 + n, [0], s3);
    StoredOnce(s3, off + 2 + n, Zeros(HdrLen(n) - 2 - n), t);
    WrittenNext(s, off, BigEndian(n, 2), off + 2, name);
    WrittenAgain(s2, off + 2 + n, [0], Zeros(HdrLen(n) - 2 - n));
    WrittenNext(s, off, BigEndian(n, 2) + name, off + 2 + n, Zeros(HdrLen(n) - 2 - n));
    Stores(s, off, NameHeader(name));
  }

  /** What blobmsg_new writes over an attribute: BLOB_ATTR_EXTENDED and the name. */
  lemma FieldStored(s: seq<Byte>, s1: seq<Byte>, t: seq<Byte>, pos: nat, kind: nat, name: seq<Byte>, payload: nat)
    requires kind < 128 && |name| < 0x1_0000 && AttrAt(s, pos, kind, HdrLen(|name|) + payload)
    requires Stored(s, pos, [kind + 128], s1) && Stored(s1, pos + ATTR_HEADER, NameHeader(name), t)
    ensures FieldAt(t, pos, kind, name, payload) && SameUpTo(s, t, pos)
  {
    var n := HdrLen(|name|) + payload;
    var len, z := BigEndian(n + ATTR_HEADER, 3), Zeros(Extent(n) - n - ATTR_HEADER);
    Split(s, pos, [kind], pos + 1, len);
    AtStays(s, s1, pos + 1, pos + 1, len);
    Join(s1, pos, [kind + 128], pos + 1, len);
    AtKept(s1, t, pos + ATTR_HEADER, pos, Header(kind, true, n + ATTR_HEADER));
    AtStays(s, s1, pos + 1, pos + n + ATTR_HEADER, z);
    AtStays(s1, t, pos + ATTR_HEADER + HdrLen(|name|), pos + n + ATTR_HEADER, z);
    SameLess(s1, t, pos + ATTR_HEADER, pos);
    SameThrough(s, s1, t, pos);
  }

  // -------- open containers --------

  /** A container that is still open, with what it holds so far. */
  datatype Frame = Frame(id: nat, extended: bool, name: seq<Byte>, done: seq<Msg>)

  ghost predicate FrameFits(f: Frame) {
    && f.id < 128
    && forall u: nat {:trigger OpenFits(u)} ::
      && (f.extended ==> f.id == ARRAY || f.id == TABLE)
      && |f.name| < 0x1_0000 && 0 !in f.name && AllFit(f.done)
      && FrameLen(f) < LEN_RANGE
  }

  ghost predicate OpenFits(u: nat) {
    true
  }

  function HeadLen(f: Frame): (n: nat)
    ensures Aligned(n)
  {
    assert Aligned(ATTR_HEADER) && Aligned(0) by { assert OpenGap(0); }
    SumAligned(ATTR_HEADER, if f.extended then HdrLen(|f.name|) else 0);
    ATTR_HEADER + if f.extended then HdrLen(|f.name|) else 0
  }

  ghost function FrameLen(f: Frame): (n: nat)
    ensures Aligned(n) && n >= 4 && LenOfFrame(f, n)
  {
    SumAligned(HeadLen(f), Total(f.done));
    assert OpenFits(0);
    assert LenOfFrame(f, HeadLen(f) + Total(f.done));
    var n: nat :| Aligned(n) && n >= 4 && LenOfFrame(f, n);
    n
  }

  ghost predicate LenOfFrame(f: Frame, n: nat) {
    forall u: nat {:trigger OpenFits(u)} | u < 1 :: n == HeadLen(f) + Total(f.done)
  }

  /** What follows the header: the name, and the messages in order. */
  ghost function FrameRest(f: Frame): (s: seq<Byte>)
    requires FrameFits(f)
    ensures |s| == FrameLen(f) - 4 && RestOfFrame(f, s)
  {
    assert OpenFits(0);
    var r := (if f.extended then NameHeader(f.name) else []) + EncodeAll(f.done);
    assert RestOfFrame(f, r);
    var s: seq<Byte> :| |s| == FrameLen(f) - 4 && RestOfFrame(f, s);
    s
  }

  ghost predicate RestOfFrame(f: Frame, s: seq<Byte>)
    requires FrameFits(f)
  {
    forall u: nat {:trigger OpenFits(u)} | u < 1 ::
      && AllFit(f.done) && |f.name| < 0x1_0000
      && s == (if f.extended then NameHeader(f.name) else []) + EncodeAll(f.done)
  }

  /** The containers around an innermost one. */
  datatype Stack = Outermost | In(below: Stack, top: Frame)

  ghost predicate AllFrames(fs: Stack) {
    fs.In? ==> AllFrames(fs.below) && FrameFits(fs.top)
  }

  /** The length of each of them ends at the header of the container that is open in it. */
  ghost function Around(fs: Stack): (s: seq<Byte>)
    requires AllFrames(fs)
  {
    match fs
    case Outermost => []
    case In(below, f) => Around(below) + Header(f.id, f.extended, FrameLen(f) + ATTR_HEADER) + FrameRest(f)
  }

  ghost function EndOf(fs: Stack, f: Frame): nat
    requires AllFrames(fs) && FrameFits(f)
  {
    |Around(fs)| + FrameLen(f)
  }

  /** The buffer `s` begins with the open containers; the innermost one has the length `len` in
      its header. */
  ghost predicate Holds(s: seq<Byte>, fs: Stack, f: Frame, len: nat)
    requires AllFrames(fs) && FrameFits(f)
  {
    forall u: nat {:trigger OpenHolds(u)} ::
      && len < LEN_RANGE
      && At(s, 0, Around(fs))
      && At(s, |Around(fs)|, Header(f.id, f.extended, len))
      && At(s, |Around(fs)| + ATTR_HEADER, FrameRest(f))
  }

  ghost predicate OpenHolds(u: nat) {
    true
  }

  /** All containers but the outermost one have a name. */
  ghost predicate Nestings(fs: Stack, f: Frame) {
    match fs
    case Outermost => !f.extended
    case In(below, top) => f.extended && Nestings(below, top)
  }

  /** The buffer begins with the open containers, each with the length that it has to have;
      `head` is the innermost one. */
  ghost predicate State(s: seq<Byte>, head: nat, fs: Stack, f: Frame)
    requires AllFrames(fs) && FrameFits(f)
  {
    forall u: nat {:trigger OpenState(u)} ::
      && Holds(s, fs, f, FrameLen(f))
      && EndOf(fs, f) < LEN_RANGE
      && head == |Around(fs)|
      && Nestings(fs, f)
  }

  ghost predicate OpenState(u: nat) {
    true
  }

  lemma HoldsLen(s: seq<Byte>, fs: Stack, f: Frame, len: nat)
    requires AllFrames(fs) && FrameFits(f) && Holds(s, fs, f, len)
    ensures LenIs(s, |Around(fs)|, len)
    ensures Aligned(EndOf(fs, f))
  {
    assert OpenHolds(0);
    HeaderLen(s, |Around(fs)|, f.id, f.extended, len);
    AroundAligned(fs);
    SumAligned(|Around(fs)|, FrameLen(f));
  }

  lemma {:induction false} AroundAligned(fs: Stack)
    requires AllFrames(fs)
    ensures Aligned(|Around(fs)|)
  {
    match fs
    case Outermost =>
      assert Aligned(0) by { assert OpenGap(0); }
    case In(below, f) =>
      AroundAligned(below);
      SumAligned(|Around(below)|, FrameLen(f));
  }

  lemma HoldsEnds(s: seq<Byte>, fs: Stack, f: Frame, len: nat)
    requires AllFrames(fs) && FrameFits(f) && Holds(s, fs, f, len)
    ensures EndOf(fs, f) <= |s|
  {
    assert OpenHolds(0);
  }

  lemma HoldsKept(s: seq<Byte>, t: seq<Byte>, n: nat, fs: Stack, f: Frame, len: nat)
    requires AllFrames(fs) && FrameFits(f) && Holds(s, fs, f, len) && SameUpTo(s, t, n) && EndOf(fs, f) <= n
    ensures Holds(t, fs, f, len)
  {
    assert OpenHolds(0);
    AtKept(s, t, n, 0, Around(fs));
    AtKept(s, t, n, |Around(fs)|, Header(f.id, f.extended, len));
    AtKept(s, t, n, |Around(fs)| + ATTR_HEADER, FrameRest(f));
  }

  /** blob_set_raw_len on the innermost container; what is behind stays. */
  lemma HoldsSet(s: seq<Byte>, fs: Stack, f: Frame, len: nat, head: nat, len': nat, t: seq<Byte>)
    requires AllFrames(fs) && FrameFits(f) && Holds(s, fs, f, len) && len' < LEN_RANGE && head == |Around(fs)|
    requires Stored(s, head + 1, BigEndian(len', 3), t)
    ensures Holds(t, fs, f, len') && SameFrom(s, t, head + ATTR_HEADER)
  {
    assert OpenHolds(0);
    HeaderSet(s, head, f.id, f.extended, len, len', t);
    AtKept(s, t, head, 0, Around(fs));
    AtStays(s, t, head + 4, head + ATTR_HEADER, FrameRest(f));
  }

  // -------- messages in open containers --------

  ghost function With(f: Frame, m: Msg): Frame {
    f.(done := f.done + [m])
  }

  lemma Grown(f: Frame, m: Msg)
    requires FrameFits(f) && Fits(m) && FrameLen(f) + Pad(Size(m)) < LEN_RANGE
    ensures FrameFits(With(f, m)) && FrameLen(With(f, m)) == FrameLen(f) + Pad(Size(m))
    ensures FrameRest(With(f, m)) == FrameRest(f) + Encode(m)
  {
    assert OpenFits(0);
    var all := f.done + [m];
    assert all[..|all| - 1] == f.done && all[|all| - 1] == m;
    assert forall i :: 0 <= i < |all| ==> all[i] == m || all[i] == f.done[i];
    Associate(if f.extended then NameHeader(f.name) else [], EncodeAll(f.done), Encode(m));
  }

  /** A message that stands behind the innermost container becomes a part of it. */
  lemma TakenIn(s: seq<Byte>, fs: Stack, f: Frame, len: nat, e: nat, m: Msg)
    requires AllFrames(fs) && FrameFits(f) && Holds(s, fs, f, len) && Fits(m) && e == EndOf(fs, f)
    requires e + Pad(Size(m)) < LEN_RANGE && At(s, e, Encode(m))
    ensures FrameFits(With(f, m)) && FrameLen(With(f, m)) == FrameLen(f) + Pad(Size(m))
    ensures Holds(s, fs, With(f, m), len)
  {
    assert OpenHolds(0);
    Grown(f, m);
    Join(s, |Around(fs)| + ATTR_HEADER, FrameRest(f), e, Encode(m));
  }

  /** The data behind the name completes an attribute. */
  lemma Completed(s: seq<Byte>, pos: nat, m: Msg, off: nat, t: seq<Byte>)
    requires Fits(m) && m.Value? && FieldAt(s, pos, m.kind, m.name, |m.bytes|)
    requires off == pos + ATTR_HEADER + HdrLen(|m.name|) && Stored(s, off, m.bytes, t)
    ensures At(t, pos, Encode(m)) && SameUpTo(s, t, pos)
  {
    ValueSize(m);
    var h, nh, z := Header(m.kind, true, Size(m)), NameHeader(m.name), Zeros(Pad(Size(m)) - Size(m));
    Join(s, pos, h, pos + ATTR_HEADER, nh);
    AtKept(s, t, off, pos, h + nh);
    Join(t, pos, h + nh, off, m.bytes);
    AtStays(s, t, off + |m.bytes|, pos + Size(m), z);
    Join(t, pos, h + nh + m.bytes, pos + Size(m), z);
    SameLess(s, t, off, pos);
  }

  /** The whole of blobmsg_add_field. */
  lemma FieldAdded(s: seq<Byte>, head: nat, fs: Stack, f: Frame, len: nat, m: Msg, pos: nat, off: nat, t: seq<Byte>)
    requires AllFrames(fs) && FrameFits(f) && Holds(s, fs, f, len) && Nestings(fs, f) && head == |Around(fs)|
    requires pos == EndOf(fs, f) && Fits(m) && m.Value? && pos + Pad(Size(m)) < LEN_RANGE
    requires len == FrameLen(f) + Pad(Size(m)) && FieldAt(s, pos, m.kind, m.name, |m.bytes|)
    requires off == pos + ATTR_HEADER + HdrLen(|m.name|) && Stored(s, off, m.bytes, t)
    ensures FrameFits(With(f, m)) && State(t, head, fs, With(f, m))
    ensures EndOf(fs, With(f, m)) == pos + Pad(Size(m))
  {
    NestingsWith(fs, f, m);
    Completed(s, pos, m, off, t);
    HoldsKept(s, t, pos, fs, f, len);
    TakenIn(t, fs, f, len, pos, m);
  }

  /** What blobmsg_open_nested finds as the length of the container around the new one. */
  lemma OpenedLen(s: seq<Byte>, head: nat, fs: Stack, f: Frame, len: nat, n: nat)
    requires AllFrames(fs) && FrameFits(f) && Holds(s, fs, f, len) && head == |Around(fs)|
    requires len == FrameLen(f) + Extent(HdrLen(n))
    ensures LenIs(s, head, len) && Pad(len) == len == FrameLen(f) + ATTR_HEADER + HdrLen(n)
  {
    HoldsLen(s, fs, f, len);
    HeadSize(n);
    SumAligned(FrameLen(f), Extent(HdrLen(n)));
  }

  // -------- strings that are written into the buffer --------

  /** An attribute behind the innermost container that is a string without its text so far. */
  ghost predicate StringAt(s: seq<Byte>, pos: nat, name: seq<Byte>) {
    && |name| < 0x1_0000
    && At(s, pos, Header(STRING, true, HdrLen(|name|) + ATTR_HEADER))
    && At(s, pos + ATTR_HEADER, NameHeader(name))
  }

  /** blobmsg_alloc_string_buffer takes back the lengths that blobmsg_new has set. */
  lemma StringReserved(s: seq<Byte>, head: nat, fs: Stack, f: Frame, len: nat, pos: nat, name: seq<Byte>, n: nat,
                       s1: seq<Byte>, t: seq<Byte>)
    requires AllFrames(fs) && FrameFits(f) && Holds(s, fs, f, len) && Nestings(fs, f) && head == |Around(fs)|
    requires pos == EndOf(fs, f) && pos + Extent(HdrLen(|name|) + n) < LEN_RANGE
    requires |name| < 0x1_0000 && FieldAt(s, pos, STRING, name, n)
    requires Stored(s, head + 1, BigEndian(FrameLen(f), 3), s1)
    requires Stored(s1, pos + 1, BigEndian(HdrLen(|name|) + ATTR_HEADER, 3), t)
    ensures State(t, head, fs, f) && StringAt(t, pos, name)
  {
    var h := Header(STRING, true, HdrLen(|name|) + n + ATTR_HEADER);
    HoldsSet(s, fs, f, len, head, FrameLen(f), s1);
    AtStays(s, s1, head + ATTR_HEADER, pos, h);
    AtStays(s, s1, head + ATTR_HEADER, pos + ATTR_HEADER, NameHeader(name));
    HeaderSet(s1, pos, STRING, true, HdrLen(|name|) + n + ATTR_HEADER, HdrLen(|name|) + ATTR_HEADER, t);
    AtStays(s1, t, pos + 4, pos + ATTR_HEADER, NameHeader(name));
    HoldsKept(s1, t, pos, fs, f, FrameLen(f));
  }

  /** What stands before the text is not changed by writing from the text on. */
  lemma StringKept(s: seq<Byte>, t: seq<Byte>, n: nat, head: nat, fs: Stack, f: Frame, name: seq<Byte>)
    requires AllFrames(fs) && FrameFits(f) && State(s, head, fs, f) && StringAt(s, EndOf(fs, f), name)
    requires SameUpTo(s, t, n) && EndOf(fs, f) + ATTR_HEADER + HdrLen(|name|) <= n
    ensures State(t, head, fs, f) && StringAt(t, EndOf(fs, f), name)
  {
    assert OpenState(0);
    HoldsKept(s, t, n, fs, f, FrameLen(f));
    AtKept(s, t, n, EndOf(fs, f), Header(STRING, true, HdrLen(|name|) + ATTR_HEADER));
    AtKept(s, t, n, EndOf(fs, f) + ATTR_HEADER, NameHeader(name));
  }

  lemma {:induction false} CStringStands(s: seq<Byte>)
    requires |CString(s)| < |s|
    ensures s[..|CString(s)| + 1] == CString(s) + [0] && 0 !in CString(s)
  {
    if s[0] != 0 {
      CStringStands(s[1..]);
      var r := CString(s[1..]);
      assert s[..|r| + 2] == [s[0]] + s[1..][..|r| + 1];
    }
  }

  lemma TextAt(s: seq<Byte>, off: nat)
    requires off <= |s| && |CString(s[off..])| < |s| - off
    ensures At(s, off, CString(s[off..]) + [0])
  {
    CStringStands(s[off..]);
    assert OpenBytes(0);
    SliceFrom(s, off, off, off + |CString(s[off..])| + 1);
  }

  /** The whole of blobmsg_add_string_buffer: the length of the attribute, the padding, and the
      length of the container. */
  lemma StringAdded(s: seq<Byte>, head: nat, fs: Stack, f: Frame, pos: nat, m: Msg,
                    s1: seq<Byte>, s2: seq<Byte>, t: seq<Byte>)
    requires AllFrames(fs) && FrameFits(f) && State(s, head, fs, f) && pos == EndOf(fs, f)
    requires Fits(m) && m.Value? && m.kind == STRING && pos + Pad(Size(m)) < LEN_RANGE
    requires StringAt(s, pos, m.name) && At(s, pos + ATTR_HEADER + HdrLen(|m.name|), m.bytes)
    requires Stored(s, pos + 1, BigEndian(Size(m), 3), s1)
    requires Stored(s1, pos + Size(m), Zeros(Pad(Size(m)) - Size(m)), s2)
    requires Stored(s2, head + 1, BigEndian(FrameLen(f) + Pad(Size(m)), 3), t)
    ensures FrameFits(With(f, m)) && State(t, head, fs, With(f, m))
    ensures EndOf(fs, With(f, m)) == pos + Pad(Size(m))
  {
    assert OpenState(0);
    TextEncoded(s, pos, m, s1, s2);
    HoldsKept(s, s2, pos, fs, f, FrameLen(f));
    TakenInLater(s2, head, fs, f, pos, m, t);
    NestingsWith(fs, f, m);
  }

  /** A message is taken in when the length of the container is set. */
  lemma TakenInLater(s: seq<Byte>, head: nat, fs: Stack, f: Frame, pos: nat, m: Msg, t: seq<Byte>)
    requires AllFrames(fs) && FrameFits(f) && Holds(s, fs, f, FrameLen(f)) && head == |Around(fs)|
    requires pos == EndOf(fs, f) && Fits(m) && pos + Pad(Size(m)) < LEN_RANGE && At(s, pos, Encode(m))
    requires Stored(s, head + 1, BigEndian(FrameLen(f) + Pad(Size(m)), 3), t)
    ensures FrameFits(With(f, m)) && FrameLen(With(f, m)) == FrameLen(f) + Pad(Size(m))
    ensures Holds(t, fs, With(f, m), FrameLen(With(f, m)))
  {
    HoldsSet(s, fs, f, FrameLen(f), head, FrameLen(f) + Pad(Size(m)), t);
    AtStays(s, t, head + ATTR_HEADER, pos, Encode(m));
    TakenIn(t, fs, f, FrameLen(f) + Pad(Size(m)), pos, m);
  }

  lemma TextEncoded(s: seq<Byte>, pos: nat, m: Msg, s1: seq<Byte>, s2: seq<Byte>)
    requires Fits(m) && m.Value? && m.kind == STRING
    requires StringAt(s, pos, m.name) && At(s, pos + ATTR_HEADER + HdrLen(|m.name|), m.bytes)
    requires Stored(s, pos + 1, BigEndian(Size(m), 3), s1)
    requires Stored(s1, pos + Size(m), Zeros(Pad(Size(m)) - Size(m)), s2)
    ensures At(s2, pos, Encode(m)) && SameUpTo(s, s2, pos)
  {
    ValueSize(m);
    var off := pos + ATTR_HEADER + HdrLen(|m.name|);
    HeaderSet(s, pos, STRING, true, HdrLen(|m.name|) + ATTR_HEADER, Size(m), s1);
    AtStays(s, s1, pos + 4, pos + ATTR_HEADER, NameHeader(m.name));
    AtStays(s, s1, pos + 4, off, m.bytes);
    EncodedAt(s1, s2, pos, m);
    SameLess(s1, s2, pos + Size(m), pos);
    SameThrough(s, s1, s2, pos);
  }

  lemma NameFits(n: nat)
    requires n < 0x1_0000
    ensures HdrLen(n) + ATTR_HEADER < LEN_RANGE
  {
  }

  lemma TextFits(m: Msg)
    requires m.Value? && m.kind == STRING && |m.name| < 0x1_0000 && 0 !in m.name && Size(m) < LEN_RANGE
    requires m.bytes != [] && m.bytes[|m.bytes| - 1] == 0
    ensures Fits(m)
  {
  }

  /** The length of the innermost container is still the old one. */
  lemma StringHead(s: seq<Byte>, s1: seq<Byte>, s2: seq<Byte>, fs: Stack, f: Frame, pos: nat, size: nat)
    requires AllFrames(fs) && FrameFits(f) && Holds(s, fs, f, FrameLen(f)) && pos == EndOf(fs, f) && size >= 4
    requires Stored(s, pos + 1, BigEndian(size, 3), s1)
    requires Stored(s1, pos + size, Zeros(Pad(size) - size), s2)
    ensures LenIs(s2, |Around(fs)|, FrameLen(f))
  {
    SameLess(s, s1, pos + 1, pos);
    SameLess(s1, s2, pos + size, pos);
    SameThrough(s, s1, s2, pos);
    HoldsKept(s, s2, pos, fs, f, FrameLen(f));
    HoldsLen(s2, fs, f, FrameLen(f));
  }

  lemma EncodedAt(s: seq<Byte>, t: seq<Byte>, pos: nat, m: Msg)
    requires Fits(m) && m.Value? && At(s, pos, Header(m.kind, true, Size(m)))
    requires At(s, pos + ATTR_HEADER, NameHeader(m.name)) && At(s, pos + ATTR_HEADER + HdrLen(|m.name|), m.bytes)
    requires Stored(s, pos + Size(m), Zeros(Pad(Size(m)) - Size(m)), t)
    ensures At(t, pos, Encode(m))
  {
    ValueSize(m);
    var h, nh := Header(m.kind, true, Size(m)), NameHeader(m.name);
    Join(s, pos, h, pos + ATTR_HEADER, nh);
    Join(s, pos, h + nh, pos + ATTR_HEADER + HdrLen(|m.name|), m.bytes);
    AtKept(s, t, pos + Size(m), pos, h + nh + m.bytes);
    Join(t, pos, h + nh + m.bytes, pos + Size(m), Zeros(Pad(Size(m)) - Size(m)));
  }

  // -------- opening and closing --------

  lemma EmptyFrame(g: Frame)
    requires (g.id == ARRAY || g.id == TABLE) && g.extended && g.done == [] && |g.name| < 0x1_0000 && 0 !in g.name
    ensures FrameFits(g) && FrameLen(g) == HdrLen(|g.name|) + ATTR_HEADER && FrameRest(g) == NameHeader(g.name)
  {
    assert OpenFits(0);
    assert NameHeader(g.name) + [] == NameHeader(g.name);
  }

  /** A container with a name is opened: the one around it ends at the header of the new one. */
  lemma Opened(s: seq<Byte>, head: nat, fs: Stack, f: Frame, len: nat, pos: nat, shorter: nat, g: Frame, t: seq<Byte>)
    requires AllFrames(fs) && FrameFits(f) && Holds(s, fs, f, len) && Nestings(fs, f) && head == |Around(fs)|
    requires (g.id == ARRAY || g.id == TABLE) && g.extended && g.done == [] && |g.name| < 0x1_0000 && 0 !in g.name
    requires pos == EndOf(fs, f) && FieldAt(s, pos, g.id, g.name, 0)
    requires shorter == FrameLen(f) + ATTR_HEADER && pos + ATTR_HEADER + HdrLen(|g.name|) < LEN_RANGE
    requires Stored(s, head + 1, BigEndian(shorter, 3), t)
    ensures FrameFits(g) && State(t, pos, In(fs, f), g)
    ensures |Around(In(fs, f))| == pos && FrameLen(g) == ATTR_HEADER + HdrLen(|g.name|)
    ensures CookieFor(In(fs, f)) == head + COOKIE
    ensures EndOf(In(fs, f), g) == pos + ATTR_HEADER + HdrLen(|g.name|)
  {
    EmptyFrame(g);
    HoldsSet(s, fs, f, len, head, shorter, t);
    AtStays(s, t, head + ATTR_HEADER, pos, Header(g.id, true, FrameLen(g)));
    AtStays(s, t, head + ATTR_HEADER, pos + ATTR_HEADER, NameHeader(g.name));
    Stacked(t, head, fs, f);
  }

  lemma Stacked(s: seq<Byte>, head: nat, fs: Stack, f: Frame)
    requires AllFrames(fs) && FrameFits(f) && Holds(s, fs, f, FrameLen(f) + ATTR_HEADER) && head == |Around(fs)|
    ensures At(s, 0, Around(In(fs, f))) && |Around(In(fs, f))| == EndOf(fs, f)
  {
    assert OpenHolds(0);
    var h := Header(f.id, f.extended, FrameLen(f) + ATTR_HEADER);
    Join(s, 0, Around(fs), head, h);
    Join(s, 0, Around(fs) + h, head + ATTR_HEADER, FrameRest(f));
  }

  lemma Unstacked(s: seq<Byte>, head: nat, fs: Stack, f: Frame)
    requires AllFrames(In(fs, f)) && At(s, 0, Around(In(fs, f))) && head == |Around(fs)|
    requires FrameLen(f) + ATTR_HEADER < LEN_RANGE
    ensures Holds(s, fs, f, FrameLen(f) + ATTR_HEADER) && |Around(In(fs, f))| == EndOf(fs, f)
  {
    var h := Header(f.id, f.extended, FrameLen(f) + ATTR_HEADER);
    Divide(s, Around(fs), h, FrameRest(f), head, head + ATTR_HEADER);
  }

  lemma Divide(s: seq<Byte>, a: seq<Byte>, h: seq<Byte>, r: seq<Byte>, head: nat, next: nat)
    requires At(s, 0, a + h + r) && head == |a| && next == head + |h|
    ensures At(s, 0, a) && At(s, head, h) && At(s, next, r)
  {
    Split(s, 0, a + h, next, r);
    Split(s, 0, a, head, h);
  }

  /** The message that a container becomes. */
  ghost function Closed(f: Frame): Msg {
    Nested(f.id == ARRAY, f.name, f.done)
  }

  const COOKIE := 0x0123_4567

  /** The offset of the container that is open around the innermost one, as a cookie. */
  ghost function CookieFor(fs: Stack): nat
    requires fs.In? && AllFrames(fs)
  {
    |Around(fs.below)| + COOKIE
  }

  lemma ContainerBytes(f: Frame)
    requires FrameFits(f) && f.extended
    ensures Fits(Closed(f)) && Pad(Size(Closed(f))) == FrameLen(f)
    ensures Encode(Closed(f)) == Header(f.id, true, FrameLen(f)) + FrameRest(f)
  {
    assert OpenFits(0);
    var m := Closed(f);
    assert BodyLen(m) == Total(f.done) && Size(m) == FrameLen(f);
    assert Body(m) == EncodeAll(f.done) && Zeros(0) == [];
    Associate(Header(f.id, true, FrameLen(f)), NameHeader(f.name), EncodeAll(f.done));
  }

  /** What is in the innermost container `g` becomes a message of the one around it, whose length
      is still the one for an open container in it. */
  lemma ClosedIn(s: seq<Byte>, around: Stack, f: Frame, g: Frame)
    requires AllFrames(In(around, f)) && FrameFits(g)
    requires Holds(s, In(around, f), g, FrameLen(g)) && g.extended && EndOf(In(around, f), g) < LEN_RANGE
    ensures Holds(s, around, f, FrameLen(f) + ATTR_HEADER)
    ensures FrameFits(With(f, Closed(g))) && Holds(s, around, With(f, Closed(g)), FrameLen(f) + ATTR_HEADER)
    ensures FrameLen(With(f, Closed(g))) == FrameLen(f) + FrameLen(g)
    ensures EndOf(around, With(f, Closed(g))) == EndOf(In(around, f), g)
  {
    var e := EndOf(around, f);
    assert OpenHolds(0);
    Unstacked(s, |Around(around)|, around, f);
    ContainerBytes(g);
    Join(s, e, Header(g.id, true, FrameLen(g)), e + ATTR_HEADER, FrameRest(g));
    TakenIn(s, around, f, FrameLen(f) + ATTR_HEADER, e, Closed(g));
  }

  lemma ClosedLen(s: seq<Byte>, head: nat, around: Stack, f: Frame, g: Frame)
    requires AllFrames(In(around, f)) && FrameFits(g)
    requires State(s, head, In(around, f), g)
    ensures LenIs(s, |Around(around)|, FrameLen(f) + ATTR_HEADER)
    ensures Aligned(FrameLen(f) + ATTR_HEADER)
    ensures LenIs(s, head, FrameLen(g))
  {
    assert OpenState(0);
    HoldsLen(s, In(around, f), g, FrameLen(g));
    ClosedIn(s, around, f, g);
    HoldsLen(s, around, f, FrameLen(f) + ATTR_HEADER);
    assert Aligned(ATTR_HEADER) by { assert OpenGap(0); }
    SumAligned(FrameLen(f), ATTR_HEADER);
  }

  lemma NestingsWith(fs: Stack, f: Frame, m: Msg)
    ensures Nestings(fs, With(f, m)) <==> Nestings(fs, f)
  {
  }

  /** The whole of blob_nest_end. */
  lemma ClosedState(s: seq<Byte>, head: nat, around: Stack, f: Frame, g: Frame, attr: nat, len: nat, t: seq<Byte>)
    requires AllFrames(In(around, f)) && FrameFits(g)
    requires State(s, head, In(around, f), g)
    requires attr == |Around(around)| && len == FrameLen(f) + FrameLen(g)
    requires Stored(s, attr + 1, BigEndian(len, 3), t)
    ensures FrameFits(With(f, Closed(g))) && State(t, attr, around, With(f, Closed(g)))
    ensures EndOf(around, With(f, Closed(g))) == EndOf(In(around, f), g)
  {
    assert OpenState(0);
    NestingsWith(around, f, Closed(g));
    ClosedIn(s, around, f, g);
    assert len < LEN_RANGE by { assert OpenFits(0); }
    HoldsSet(s, around, With(f, Closed(g)), FrameLen(f) + ATTR_HEADER, attr, len, t);
  }

  lemma Begun(s: seq<Byte>, id: nat)
    requires id < 128 && AttrAt(s, 0, id, 0)
    ensures FrameFits(Frame(id, false, [], [])) && State(s, 0, Outermost, Frame(id, false, [], []))
    ensures EndOf(Outermost, Frame(id, false, [], [])) == ATTR_HEADER
  {
    assert OpenHolds(0);
    var f := Frame(id, false, [], []);
    assert OpenFits(0);
    assert FrameFits(f);
    assert FrameRest(f) == [] && Around(Outermost) == [];
    assert At(s, 0, []) && At(s, 4, []) by { assert OpenBytes(0); }
  }

  /** Round trip: when all containers are closed, the buffer begins with the outermost attribute,
      and walking over its data gives back all messages in order. */
  lemma BuiltReads(s: seq<Byte>, head: nat, f: Frame)
    requires FrameFits(f) && State(s, head, Outermost, f)
    ensures head == 0 && 4 <= |s| && Id(s) == f.id && !Extended(s) && RawLen(s) == FrameLen(f) <= |s|
    ensures AllFit(f.done) && s[ATTR_HEADER..RawLen(s)] == EncodeAll(f.done)
    ensures FrameLen(f) == ATTR_HEADER + Total(f.done)
    ensures ReadAll(s[ATTR_HEADER..RawLen(s)]) == Some(f.done)
  {
    assert OpenHolds(0);
    assert OpenState(0);
    assert OpenFits(0) && OpenBytes(0);
    var e := FrameLen(f);
    assert s == Header(f.id, false, e) + s[4..];
    HeaderParts(f.id, false, e, s[4..]);
    assert s[4..e] == FrameRest(f) == EncodeAll(f.done);
    ReadAllBuilt(f.done);
  }
}
