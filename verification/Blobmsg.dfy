/** Messages of named, typed attributes: their bytes, the checks on untrusted bytes, and
    reading them back (blobmsg.c, blobmsg.h). */
module Blobmsg {
  import opened Sequences
  import opened BlobBytes

  // enum blobmsg_type
  const UNSPEC := 0
  const ARRAY := 1
  const TABLE := 2
  const STRING := 3
  const INT64 := 4
  const INT32 := 5
  const INT16 := 6
  const INT8 := 7
  const DOUBLE := 8
  const TYPE_LAST := 8

  /** A value, or a table or array of messages. */
  datatype Msg =
    | Value(kind: nat, name: seq<Byte>, bytes: seq<Byte>)
    | Nested(isArray: bool, name: seq<Byte>, items: seq<Msg>)
  {
    function Kind(): nat {
      if Value? then kind else if isArray then ARRAY else TABLE
    }
  }

  // -------- bytes of a message --------

  /** blobmsg_hdrlen: the two bytes of the length, the name and its NUL, padded. */
  function HdrLen(namelen: nat): (n: nat)
    ensures Aligned(n) && n >= namelen + 3
  {
    Pad(2 + namelen + 1)
  }

  ghost function NameHeader(name: seq<Byte>): (s: seq<Byte>)
    requires |name| < 0x1_0000
    ensures |s| == HdrLen(|name|)
  {
    BigEndian(|name|, 2) + name + Zeros(HdrLen(|name|) - 2 - |name|)
  }

  /** Length of the payload, and length with header and name but without padding. */
  function BodyLen(m: Msg): nat
    decreases m, 0
  {
    match m
    case Value(_, _, bytes) => |bytes|
    case Nested(_, _, items) => Total(items)
  }

  function Size(m: Msg): nat
    decreases m, 1
  {
    ATTR_HEADER + HdrLen(|m.name|) + BodyLen(m)
  }

  function Total(ms: seq<Msg>): (n: nat)
    ensures Aligned(n)
    decreases ms, 0
  {
    if ms == [] then 0
    else
      var before, last := Total(ms[..|ms| - 1]), Pad(Size(ms[|ms| - 1]));
      SumAligned(before, last);
      before + last
  }

  /** Names are C strings with a 16-bit length, and lengths have 24 bits. */
  predicate Fits(m: Msg) {
    && |m.name| < 0x1_0000 && 0 !in m.name
    && Size(m) < LEN_RANGE
    && m.Kind() <= TYPE_LAST
    && match m
       case Value(kind, _, bytes) => kind != ARRAY && kind != TABLE && TypeFits(kind, bytes)
       case Nested(_, _, items) => AllFit(items)
  }

  predicate AllFit(ms: seq<Msg>) {
    forall i :: 0 <= i < |ms| ==> Fits(ms[i])
  }

  /** The table blob_type of blobmsg.c; 0 is for types without a check. */
  function BlobType(kind: nat): nat {
    if kind == UNSPEC then 2
    else if kind == STRING then 3
    else if kind == INT8 then 4
    else if kind == INT16 then 5
    else if kind == INT32 then 6
    else if kind == INT64 then 7
    else if kind == DOUBLE then 8
    else 0
  }

  /** What a payload of a blobmsg type has to look like. */
  predicate TypeFits(kind: nat, bytes: seq<Byte>) {
    BlobType(kind) == 0 || CheckType(BlobType(kind), bytes)
  }

  ghost function Body(m: Msg): (s: seq<Byte>)
    requires Fits(m)
    ensures |s| == BodyLen(m)
    decreases m, 0
  {
    match m
    case Value(_, _, bytes) => bytes
    case Nested(_, _, items) => EncodeAll(items)
  }

  ghost function Encode(m: Msg): (s: seq<Byte>)
    requires Fits(m)
    ensures |s| == Pad(Size(m))
    decreases m, 1
  {
    Header(m.Kind(), true, Size(m)) + NameHeader(m.name) + Body(m) + Zeros(Pad(Size(m)) - Size(m))
  }

  ghost function EncodeAll(ms: seq<Msg>): (s: seq<Byte>)
    requires AllFit(ms)
    ensures |s| == Total(ms)
    decreases ms, 0
  {
    if ms == [] then [] else EncodeAll(ms[..|ms| - 1]) + Encode(ms[|ms| - 1])
  }

  // -------- checks on untrusted bytes: `s` is all that may be read --------

  predicate HasHeader(s: seq<Byte>) {
    |s| >= ATTR_HEADER && ATTR_HEADER <= RawLen(s) <= |s|
  }

  /** blobmsg_namelen */
  function NameLen(s: seq<Byte>): (n: nat)
    requires |s| >= 6
    ensures n < 0x1_0000
  {
    var a: int, b: int := s[4], s[5];
    a * 256 + b
  }

  /** blobmsg_check_name */
  predicate CheckName(s: seq<Byte>, named: bool)
    requires HasHeader(s)
  {
    if !Extended(s) then !named
    else if BlobLen(s) < 2 then false
    else if named && NameLen(s) == 0 then false
    else if BlobLen(s) < HdrLen(NameLen(s)) then false
    else s[6 + NameLen(s)] == 0
  }

  /** What blobmsg_data skips behind the header. */
  function Skipped(s: seq<Byte>): (n: nat)
    requires HasHeader(s) && CheckName(s, false)
    ensures ATTR_HEADER + n <= RawLen(s)
  {
    if Extended(s) then HdrLen(NameLen(s)) else 0
  }

  /** blobmsg_data and blobmsg_data_len */
  function Data(s: seq<Byte>): (d: seq<Byte>)
    requires HasHeader(s) && CheckName(s, false)
  {
    s[ATTR_HEADER + Skipped(s)..RawLen(s)]
  }

  /** blobmsg_check_attr_len */
  predicate CheckAttr(s: seq<Byte>, named: bool) {
    if |s| < ATTR_HEADER then false
    else if RawLen(s) < ATTR_HEADER || RawLen(s) > |s| then false
    else if !CheckName(s, named) then false
    else if Id(s) > TYPE_LAST then false
    else if BlobType(Id(s)) == 0 then true
    else CheckType(BlobType(Id(s)), Data(s))
  }

  // -------- reading --------

  /** The condition of the loop blobmsg_for_each_attr. */
  predicate More(s: seq<Byte>) {
    && |s| >= ATTR_HEADER
    && Pad(RawLen(s)) <= |s|
    && Pad(RawLen(s)) >= ATTR_HEADER
  }

  /** The characters of a C string. */
  function CString(s: seq<Byte>): (r: seq<Byte>)
    ensures |r| <= |s|
  {
    if s == [] || s[0] == 0 then [] else [s[0]] + CString(s[1..])
  }

  /** One attribute that has passed the checks. */
  function Read(s: seq<Byte>): (r: Option<Msg>)
    requires CheckAttr(s, false)
    decreases |s|, 0
  {
    var name := if Extended(s) then CString(s[6..]) else [];
    var kind := Id(s);
    if kind == ARRAY || kind == TABLE then
      match ReadAll(Data(s))
      case None => None
      case Some(items) => Some(Nested(kind == ARRAY, name, items))
    else
      Some(Value(kind, name, Data(s)))
  }

  /** All attributes of a list, each of them checked first. */
  function ReadAll(s: seq<Byte>): (r: Option<seq<Msg>>)
    decreases |s|, 1
  {
    if !More(s) then Some([])
    else if !CheckAttr(s, false) then None
    else
      match Read(s)
      case None => None
      case Some(m) =>
        match ReadAll(s[Pad(RawLen(s))..])
        case None => None
        case Some(ms) => Some([m] + ms)
  }

  // -------- what is built can be read --------

  lemma Layout(u: seq<Byte>, h: seq<Byte>, b: seq<Byte>, z: seq<Byte>, rest: seq<Byte>)
    requires |u| == 4 && |h| >= 2
    ensures var s := u + h + b + z + rest;
            && s == u + (h + b + z + rest)
            && s[4..4 + |h|] == h && s[4 + |h|..4 + |h| + |b|] == b && s[4 + |h| + |b| + |z|..] == rest
  {
  }

  lemma NameParts(name: seq<Byte>)
    requires |name| < 0x1_0000
    ensures var h := NameHeader(name);
            h[0] as int * 256 + h[1] == |name| && h[2..2 + |name|] == name && h[2 + |name|] == 0
  {
    HighAndLow(|name|);
    HighAndLow(High(|name|));
    assert OpenGap(0);
    assert Digit(|name|, 1) == Digit(High(|name|), 0);
    assert BigEndian(|name|, 2) == [High(|name|), Low(|name|)];
    assert NameHeader(name) == BigEndian(|name|, 2) + (name + Zeros(HdrLen(|name|) - 2 - |name|));
  }

  lemma NameThere(s: seq<Byte>, h: seq<Byte>, name: seq<Byte>)
    requires |name| < 0x1_0000 && h == NameHeader(name) && |s| >= 4 + |h| && s[4..4 + |h|] == h
    ensures NameLen(s) == |name| && s[6..6 + |name|] == name && s[6 + |name|] == 0
  {
    NameParts(name);
    assert s[4] == h[0] && s[5] == h[1] && s[6 + |name|] == h[2 + |name|];
    forall i | 0 <= i < |name|
      ensures s[6 + i] == name[i]
    {
      assert s[6 + i] == s[4..4 + |h|][2 + i] && name[i] == h[2..2 + |name|][i];
    }
  }

  lemma EncodedHeader(m: Msg, rest: seq<Byte>)
    requires Fits(m)
    ensures var s, n := Encode(m) + rest, |m.name|;
            && HasHeader(s) && RawLen(s) == Size(m) && Id(s) == m.Kind() && Extended(s)
            && NameLen(s) == n && s[6..6 + n] == m.name && s[6 + n] == 0
            && s[4 + HdrLen(n)..Size(m)] == Body(m)
            && Pad(Size(m)) <= |s| && s[Pad(Size(m))..] == rest
  {
    var u, h, b, z := Header(m.Kind(), true, Size(m)), NameHeader(m.name), Body(m), Zeros(Pad(Size(m)) - Size(m));
    var s := Encode(m) + rest;
    Layout(u, h, b, z, rest);
    HeaderParts(m.Kind(), true, Size(m), h + b + z + rest);
    NameThere(s, h, m.name);
  }

  lemma {:induction false} CStringOf(name: seq<Byte>, rest: seq<Byte>)
    requires 0 !in name && rest != [] && rest[0] == 0
    ensures CString(name + rest) == name
  {
    if name == [] {
      assert name + rest == rest;
    } else {
      assert (name + rest)[1..] == name[1..] + rest;
      CStringOf(name[1..], rest);
    }
  }

  /** An attribute that was built passes the check; where names are demanded, just when it
      has one. */
  lemma BuiltPasses(m: Msg, rest: seq<Byte>, named: bool)
    requires Fits(m)
    ensures CheckAttr(Encode(m) + rest, named) <==> (named ==> m.name != [])
    ensures CheckAttr(Encode(m) + rest, false) && Data(Encode(m) + rest) == Body(m)
  {
    EncodedHeader(m, rest);
  }

  lemma {:induction false} EncodeFirst(m: Msg, ms: seq<Msg>)
    requires Fits(m) && AllFit(ms)
    ensures AllFit([m] + ms) && EncodeAll([m] + ms) == Encode(m) + EncodeAll(ms)
    decreases ms
  {
    var all := [m] + ms;
    assert forall i :: 0 <= i < |all| ==> all[i] == m || all[i] == ms[i - 1];
    if ms == [] {
      assert all == [m] && all[..0] == [];
    } else {
      var k := |ms| - 1;
      assert all[..k + 1] == [m] + ms[..k] && all[k + 1] == ms[k];
      EncodeFirst(m, ms[..k]);
      Associate(Encode(m), EncodeAll(ms[..k]), Encode(ms[k]));
    }
  }

  /** Reading a built attribute gives back the message. */
  lemma {:induction false} ReadBuilt(m: Msg, rest: seq<Byte>)
    requires Fits(m)
    ensures CheckAttr(Encode(m) + rest, false) && Read(Encode(m) + rest) == Some(m)
    decreases m, 0
  {
    var s, n := Encode(m) + rest, |m.name|;
    EncodedHeader(m, rest);
    BuiltPasses(m, rest, false);
    assert s[6..] == m.name + s[6 + n..];
    CStringOf(m.name, s[6 + n..]);
    if m.Nested? {
      ReadAllBuilt(m.items);
    }
  }

  /** Round trip: walking over what was built gives back the messages. */
  lemma {:induction false} ReadAllBuilt(ms: seq<Msg>)
    requires AllFit(ms)
    ensures ReadAll(EncodeAll(ms)) == Some(ms)
    decreases ms, 1
  {
    if ms == [] {
      assert EncodeAll(ms) == [];
    } else {
      var rest := ms[1..];
      assert ms == [ms[0]] + rest;
      EncodeFirst(ms[0], rest);
      ReadBuilt(ms[0], EncodeAll(rest));
      EncodedHeader(ms[0], EncodeAll(rest));
      ReadAllBuilt(rest);
    }
  }
}
