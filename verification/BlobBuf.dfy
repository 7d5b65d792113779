/** The builder of blob.c and blobmsg.c: a growing buffer in which containers stay open while
    they are filled. */
module BlobBuf {
  import opened Sequences
  import opened BlobBytes
  import opened Blobmsg
  import opened BlobFrames

  class BlobBuf {
    var data: seq<Byte>
    var head: nat
    /** The size beyond which memory cannot be had. */
    const limit: nat
    /** The containers that are open around the innermost one, and the innermost one. */
    ghost var outer: Stack
    ghost var cur: Frame

    /** The buffer has whole blocks and begins with the open containers; `head` is the innermost
        one. */
    ghost predicate Valid()
      reads this
    {
      && Blocks()
      && AllFrames(outer) && FrameFits(cur) && State(data, head, outer, cur) == true
    }

    ghost predicate Blocks()
      reads this`data
    {
      WholeBlocks(|data|) && |data| <= LEN_RANGE
    }

    constructor (limit: nat)
      ensures Blocks() && this.limit == limit && data == []
    {
      data, head := [], 0;
      assert OpenBytes(0);
      outer, cur := Outermost, Frame(TABLE, false, [], []);
      this.limit := limit;
    }

    method Put(off: nat, b: seq<Byte>)
      requires off + |b| <= |data|
      modifies this`data
      ensures Stored(old(data), off, b, data)
    {
      Stores(data, off, b);
      data := Write(data, off, b);
    }

    /** blob_raw_len */
    method LenAt(off: nat) returns (len: nat)
      requires off + ATTR_HEADER <= |data|
      ensures LenIs(data, off, len)
    {
      LenRead(data, off);
      len := RawLen(data[off..]);
    }

    /** blob_set_raw_len: of the number only 24 bits are stored. */
    method SetLen(off: nat, len: nat)
      requires off + ATTR_HEADER <= |data|
      modifies this`data
      ensures Stored(old(data), off + 1, BigEndian(len, 3), data)
    {
      var b := NumberBytes(len, 3);
      Put(off + 1, b);
    }

    /** blob_buf_grow with blob_buffer_grow: zeros are put behind what there is. */
    method Grow(required: nat) returns (ok: bool)
      requires Blocks() && required > 0
      modifies this`data
      ensures Blocks()
      ensures ok <==> |old(data)| + required < LEN_RANGE && |old(data)| + (required / 256 + 1) * 256 <= limit
      ensures |old(data)| + required < LEN_RANGE <= limit ==> ok
      ensures !ok ==> data == old(data)
      ensures ok ==> |data| >= |old(data)| + required && SameUpTo(old(data), data, |old(data)|)
      ensures ok ==> data == old(data) + Zeros(|data| - |old(data)|)
    {
      if |data| + required > LEN_RANGE - 1 {
        return false;
      }
      var delta := (required / 256 + 1) * 256;
      BlocksStayInside(|data|, required);
      if |data| + delta > limit {
        return false;
      }
      SameLonger(data, Zeros(delta), |data|);
      data := data + Zeros(delta);
      ok := true;
    }

    /** The part of blob_add that makes room.  Padding is not counted in what is required, yet
        it stays in the buffer. */
    method MakeRoom(pos: nat, len: nat) returns (ok: bool)
      requires Blocks() && Aligned(pos) && pos <= |data| && pos + Pad(len) < LEN_RANGE
      modifies this`data
      ensures Blocks()
      ensures !ok ==> data == old(data)
      ensures ok ==> pos + Pad(len) <= |data| && SameUpTo(old(data), data, pos)
      ensures pos + len <= |old(data)| || limit >= LEN_RANGE ==> ok
    {
      ghost var s := data;
      SameItself(data, pos);
      var required := pos + len - |data|;
      ok := true;
      if required > 0 {
        ok := Grow(required);
      }
      if ok {
        SameLess(s, data, if required > 0 then |s| else pos, pos);
        BlocksAligned(|data|);
        PadStaysInside(pos, len, |data|);
      }
    }

    /** blob_add */
    method AddAttr(pos: nat, id: nat, payload: nat) returns (ok: bool)
      requires Blocks() && Aligned(pos) && pos <= |data|
      requires id < 128 && pos + Extent(payload) < LEN_RANGE
      modifies this`data
      ensures Blocks()
      ensures !ok ==> data == old(data)
      ensures ok ==> AttrAt(data, pos, id, payload) && SameUpTo(old(data), data, pos)
      ensures pos + payload + ATTR_HEADER <= |old(data)| || limit >= LEN_RANGE ==> ok
    {
      var len := payload + ATTR_HEADER;
      ok := MakeRoom(pos, len);
      if ok {
        ghost var s := data;
        var b := NumberBytes(len, 3);
        Put(pos, [id] + b);
        ghost var s1 := data;
        Put(pos + payload + ATTR_HEADER, Zeros(Extent(payload) - payload - ATTR_HEADER));
        AttrStored(s, s1, data, pos, id, payload);
        SameThrough(old(data), s, data, pos);
      }
    }

    /** The part of blob_new that adds an attribute behind the innermost container. */
    method Append(id: nat, payload: nat) returns (ok: bool, pos: nat)
      requires Valid() && id < 128
      requires EndOf(outer, cur) + Extent(payload) < LEN_RANGE
      modifies this`data
      ensures Blocks() && pos == EndOf(outer, cur) && head == |Around(outer)|
      ensures !ok ==> data == old(data)
      ensures ok ==> Holds(data, outer, cur, FrameLen(cur)) && AttrAt(data, pos, id, payload)
      ensures pos + payload + ATTR_HEADER <= |old(data)| || limit >= LEN_RANGE ==> ok
    {
      ghost var s := data;
      assert OpenState(0);
      HoldsLen(data, outer, cur, FrameLen(cur));
      var len := LenAt(head);
      LenOnce(data, head, len, FrameLen(cur));
      pos := head + Pad(len);
      HoldsEnds(data, outer, cur, FrameLen(cur));
      ok := AddAttr(pos, id, payload);
      if ok {
        HoldsKept(s, data, pos, outer, cur, FrameLen(cur));
      }
    }

    /** blob_new: room for an attribute behind the innermost container, which becomes longer. */
    method New(id: nat, payload: nat) returns (ok: bool, pos: nat, ghost len: nat)
      requires Valid() && id < 128
      requires EndOf(outer, cur) + Extent(payload) < LEN_RANGE
      modifies this`data
      ensures Blocks() && pos == EndOf(outer, cur) && head == |Around(outer)|
      ensures !ok ==> data == old(data)
      ensures ok ==> len == FrameLen(cur) + Extent(payload)
      ensures ok ==> Holds(data, outer, cur, len) && AttrAt(data, pos, id, payload)
      ensures pos + payload + ATTR_HEADER <= |old(data)| || limit >= LEN_RANGE ==> ok
    {
      ok, pos := Append(id, payload);
      len := 0;
      if ok {
        ghost var s := data;
        HoldsLen(data, outer, cur, FrameLen(cur));
        AttrLen(data, pos, id, payload);
        var a := LenAt(head);
        LenOnce(data, head, a, FrameLen(cur));
        var b := LenAt(pos);
        LenOnce(data, pos, b, payload + ATTR_HEADER);
        len := Pad(a) + Pad(b);
        SetLen(head, Pad(a) + Pad(b));
        HoldsSet(s, outer, cur, FrameLen(cur), head, len, data);
        AttrStays(s, data, head + ATTR_HEADER, pos, id, payload);
      }
    }

    /** The part of blobmsg_new that fills in blobmsg_hdr: the length of the name, the name, its
        NUL, and zeros up to the data. */
    method SetName(off: nat, name: seq<Byte>)
      requires |name| < 0x1_0000 && off + HdrLen(|name|) <= |data|
      modifies this`data
      ensures Stored(old(data), off, NameHeader(name), data)
    {
      var n := |name|;
      var b := NumberBytes(n, 2);
      Put(off, b);
      ghost var s1 := data;
      Put(off + 2, name);
      ghost var s2 := data;
      Put(off + 2 + n, [0]);
      ghost var s3 := data;
      Put(off + 2 + n, Zeros(HdrLen(n) - 2 - n));
      NameStored(old(data), s1, s2, s3, data, off, name);
    }

    /** blobmsg_new: an attribute with a name, and room for its data. */
    method NewField(kind: nat, name: seq<Byte>, payload: nat) returns (ok: bool, pos: nat, ghost len: nat)
      requires Valid() && kind <= TYPE_LAST && |name| < 0x1_0000
      requires EndOf(outer, cur) + Extent(HdrLen(|name|) + payload) < LEN_RANGE
      modifies this`data
      ensures Blocks() && pos == EndOf(outer, cur) && head == |Around(outer)|
      ensures !ok ==> data == old(data)
      ensures ok ==> len == FrameLen(cur) + Extent(HdrLen(|name|) + payload)
      ensures ok ==> Holds(data, outer, cur, len) && FieldAt(data, pos, kind, name, payload)
      ensures pos + HdrLen(|name|) + payload + ATTR_HEADER <= |old(data)| || limit >= LEN_RANGE ==> ok
    {
      ok, pos, len := New(kind, HdrLen(|name|) + payload);
      if ok {
        ghost var s := data;
        AttrLen(data, pos, kind, HdrLen(|name|) + payload);
        Put(pos, [data[pos] + 128]);
        ghost var s1 := data;
        SetName(pos + ATTR_HEADER, name);
        FieldStored(s, s1, data, pos, kind, name, payload);
        HoldsKept(s, data, pos, outer, cur, len);
      }
    }

    /** blobmsg_add_field, which all typed functions use. */
    method AddField(kind: nat, name: seq<Byte>, bytes: seq<Byte>) returns (ok: bool)
      requires Valid() && Fits(Value(kind, name, bytes))
      requires EndOf(outer, cur) + Pad(Size(Value(kind, name, bytes))) < LEN_RANGE
      modifies this`data, this`cur
      ensures Valid()
      ensures ok ==> cur == With(old(cur), Value(kind, name, bytes))
      ensures ok ==> EndOf(outer, cur) == old(EndOf(outer, cur)) + Pad(Size(Value(kind, name, bytes)))
      ensures !ok ==> data == old(data) && cur == old(cur)
      ensures limit >= LEN_RANGE ==> ok
    {
      ghost var m := Value(kind, name, bytes);
      ValueSize(m);
      assert Nestings(outer, cur) by { assert OpenState(0); }
      var pos: nat;
      ghost var len: nat;
      ok, pos, len := NewField(kind, name, |bytes|);
      if ok {
        ghost var s := data;
        Put(pos + ATTR_HEADER + HdrLen(|name|), bytes);
        FieldAdded(s, head, outer, cur, len, m, pos, pos + ATTR_HEADER + HdrLen(|name|), data);
        cur := With(cur, m);
      }
    }

    /** blobmsg_alloc_string_buffer: room for a string behind the innermost container, which does
        not become longer yet. */
    method AllocString(name: seq<Byte>, maxlen: nat) returns (ok: bool, off: nat)
      requires Valid() && |name| < 0x1_0000 && 0 !in name
      requires EndOf(outer, cur) + Extent(HdrLen(|name|) + maxlen + 1) < LEN_RANGE
      modifies this`data
      ensures Valid()
      ensures ok ==> StringAt(data, EndOf(outer, cur), name)
      ensures ok ==> off == EndOf(outer, cur) + ATTR_HEADER + HdrLen(|name|) && off + maxlen + 1 <= |data|
      ensures !ok ==> data == old(data)
      ensures limit >= LEN_RANGE ==> ok
    {
      var n := maxlen + 1;
      off := 0;
      assert Nestings(outer, cur) by { assert OpenState(0); }
      var pos: nat;
      ghost var len: nat;
      ok, pos, len := NewField(STRING, name, n);
      if ok {
        ghost var s := data;
        HoldsLen(s, outer, cur, len);
        HeaderLen(s, pos, STRING, true, HdrLen(|name|) + n + ATTR_HEADER);
        var a := LenAt(head);
        LenOnce(s, head, a, len);
        var b := LenAt(pos);
        LenOnce(s, pos, b, HdrLen(|name|) + n + ATTR_HEADER);
        SumAligned(FrameLen(cur), Extent(HdrLen(|name|) + n));
        SetLen(head, Pad(a) - Pad(b));
        ghost var s1 := data;
        SetLen(pos, b - n);
        StringReserved(s, head, outer, cur, len, pos, name, n, s1, data);
        off := pos + ATTR_HEADER + HdrLen(|name|);
      }
    }

    /** The caller writes into the room for a string. */
    method WriteText(off: nat, text: seq<Byte>, ghost name: seq<Byte>)
      requires Valid() && StringAt(data, EndOf(outer, cur), name)
      requires EndOf(outer, cur) + ATTR_HEADER + HdrLen(|name|) <= off && off + |text| <= |data|
      modifies this`data
      ensures Valid() && StringAt(data, EndOf(outer, cur), name)
      ensures Stored(old(data), off, text, data)
    {
      Put(off, text);
      StringKept(old(data), data, off, head, outer, cur, name);
    }

    /** blobmsg_realloc_string_buffer: more room; what has been written stays. */
    method ReallocString(maxlen: nat, ghost name: seq<Byte>) returns (ok: bool, off: nat)
      requires Valid() && StringAt(data, EndOf(outer, cur), name)
      modifies this`data
      ensures Valid() && StringAt(data, EndOf(outer, cur), name)
      ensures SameUpTo(old(data), data, |old(data)|)
      ensures ok ==> off == EndOf(outer, cur) + ATTR_HEADER + HdrLen(|name|) && off + maxlen + 1 <= |data|
      ensures !ok ==> data == old(data)
      ensures EndOf(outer, cur) + ATTR_HEADER + HdrLen(|name|) + maxlen + 1 < LEN_RANGE <= limit ==> ok
    {
      ghost var s := data;
      SameItself(data, |data|);
      var attr := NextAttr();
      var a := LenAtString(attr, name);
      off := attr + Pad(a);
      var required := maxlen + 1 - (|data| - off);
      ok := true;
      if required > 0 {
        ok := Grow(required);
        if ok {
          StringKept(s, data, |s|, head, outer, cur, name);
        }
      }
    }

    /** blob_next of the innermost container */
    method NextAttr() returns (pos: nat)
      requires Valid()
      ensures pos == EndOf(outer, cur) <= |data|
    {
      assert OpenState(0);
      HoldsLen(data, outer, cur, FrameLen(cur));
      HoldsEnds(data, outer, cur, FrameLen(cur));
      var len := LenAt(head);
      LenOnce(data, head, len, FrameLen(cur));
      pos := head + Pad(len);
    }

    method LenAtString(pos: nat, ghost name: seq<Byte>) returns (len: nat)
      requires StringAt(data, pos, name)
      ensures len == HdrLen(|name|) + ATTR_HEADER == Pad(len)
    {
      HeadSize(|name|);
      NameFits(|name|);
      HeaderLen(data, pos, STRING, true, HdrLen(|name|) + ATTR_HEADER);
      len := LenAt(pos);
      LenOnce(data, pos, len, HdrLen(|name|) + ATTR_HEADER);
    }

    /** blobmsg_add_string_buffer: the text up to its NUL becomes a message. */
    method AddString(ghost name: seq<Byte>)
      requires Valid() && StringAt(data, EndOf(outer, cur), name) && 0 !in name
      requires var text := CString(data[EndOf(outer, cur) + ATTR_HEADER + HdrLen(|name|)..]);
               && EndOf(outer, cur) + ATTR_HEADER + HdrLen(|name|) + |text| < |data|
               && EndOf(outer, cur) + Extent(HdrLen(|name|) + |text| + 1) < LEN_RANGE
      modifies this`data, this`cur
      ensures Valid()
      ensures cur == With(old(cur),
                Value(STRING, name, CString(old(data[EndOf(outer, cur) + ATTR_HEADER + HdrLen(|name|)..])) + [0]))
    {
      var attr := NextAttr();
      var a := LenAtString(attr, name);
      var text := CString(data[attr + a..]);
      ghost var m := Value(STRING, name, text + [0]);
      TextAt(data, attr + a);
      ValueSize(m);
      TextFits(m);
      FinishString(attr, a + |text| + 1, m);
    }

    /** The part of blobmsg_add_string_buffer that sets the lengths and fills up the padding. */
    method FinishString(attr: nat, size: nat, ghost m: Msg)
      requires Valid() && attr == EndOf(outer, cur)
      requires Fits(m) && m.Value? && m.kind == STRING && StringAt(data, attr, m.name)
      requires At(data, attr + ATTR_HEADER + HdrLen(|m.name|), m.bytes)
      requires size == Size(m) && attr + Pad(size) < LEN_RANGE
      modifies this`data, this`cur
      ensures Valid() && cur == With(old(cur), m)
    {
      ghost var s := data;
      ValueSize(m);
      assert OpenState(0);
      HoldsLen(s, outer, cur, FrameLen(cur));
      BlocksAligned(|data|);
      PadStaysInside(attr, size, |data|);
      SetLen(attr, size);
      ghost var s1 := data;
      Put(attr + size, Zeros(Pad(size) - size));
      ghost var s2 := data;
      StringHead(s, s1, s2, outer, cur, attr, size);
      var b := LenAt(head);
      LenOnce(s2, head, b, FrameLen(cur));
      SetLen(head, b + Pad(size));
      StringAdded(s, head, outer, cur, attr, m, s1, s2, data);
      cur := With(cur, m);
    }

    /** blobmsg_open_nested; the cookie is for CloseNested. */
    method OpenNested(name: seq<Byte>, isArray: bool) returns (ok: bool, cookie: nat)
      requires Valid() && |name| < 0x1_0000 && 0 !in name
      requires EndOf(outer, cur) + ATTR_HEADER + HdrLen(|name|) < LEN_RANGE
      modifies this
      ensures Valid()
      ensures ok ==> outer == old(In(outer, cur)) && cur == Frame(if isArray then ARRAY else TABLE, true, name, [])
      ensures ok ==> cookie == CookieFor(outer)
      ensures ok ==> EndOf(outer, cur) == old(EndOf(outer, cur)) + ATTR_HEADER + HdrLen(|name|)
      ensures !ok ==> data == old(data) && head == old(head) && outer == old(outer) && cur == old(cur)
      ensures limit >= LEN_RANGE ==> ok
    {
      var kind := if isArray then ARRAY else TABLE;
      cookie := head + COOKIE;
      HeadSize(|name|);
      assert Nestings(outer, cur) by { assert OpenState(0); }
      var pos: nat;
      ghost var len: nat;
      ok, pos, len := NewField(kind, name, 0);
      if ok {
        ghost var s := data;
        OpenedLen(data, head, outer, cur, len, |name|);
        var a := LenAt(head);
        LenOnce(data, head, a, len);
        SetLen(head, Pad(a) - HdrLen(|name|));
        Opened(s, head, outer, cur, len, pos, Pad(a) - HdrLen(|name|), Frame(kind, true, name, []), data);
        head := pos;
        outer, cur := In(outer, cur), Frame(kind, true, name, []);
      }
    }

    /** blob_nest_end: the innermost container becomes a message in the one around it. */
    method CloseNested(cookie: nat)
      requires Valid() && outer.In? && cookie == CookieFor(outer)
      modifies this
      ensures Valid()
      ensures outer == old(outer.below) && cur == old(With(outer.top, Closed(cur)))
      ensures EndOf(outer, cur) == old(EndOf(outer, cur))
    {
      var attr := cookie - COOKIE;
      ghost var s, around, f := data, outer.below, outer.top;
      ClosedLen(s, head, around, f, cur);
      var a := LenAt(attr);
      LenOnce(s, attr, a, FrameLen(f) + ATTR_HEADER);
      var b := LenAt(head);
      LenOnce(s, head, b, FrameLen(cur));
      SetLen(attr, Pad(a) + (b - ATTR_HEADER));
      ClosedState(s, head, around, f, cur, attr, Pad(a) + (b - ATTR_HEADER), data);
      head := attr;
      outer, cur := around, With(f, Closed(cur));
    }

    /** blob_buf_init */
    method Init(id: nat) returns (ok: bool)
      requires Blocks() && id < 128
      modifies this
      ensures Blocks()
      ensures ok ==> Valid() && outer == Outermost && cur == Frame(id, false, [], [])
      ensures ok ==> EndOf(outer, cur) == ATTR_HEADER
      ensures limit >= LEN_RANGE ==> ok
    {
      head := 0;
      assert Aligned(0) by { assert OpenGap(0); }
      assert Extent(0) == ATTR_HEADER by { assert OpenGap(0); }
      ok := AddAttr(0, id, 0);
      if ok {
        Begun(data, id);
        outer, cur := Outermost, Frame(id, false, [], []);
      }
    }

    /** The calls that build a message: any tree of messages can be built. */
    method Build(m: Msg) returns (ok: bool)
      requires Valid() && Fits(m) && EndOf(outer, cur) + Pad(Size(m)) < LEN_RANGE
      modifies this
      ensures Valid()
      ensures ok ==> outer == old(outer) && cur == With(old(cur), m)
      ensures ok ==> EndOf(outer, cur) == old(EndOf(outer, cur)) + Pad(Size(m))
      ensures limit >= LEN_RANGE ==> ok
      decreases m, 0
    {
      match m
      case Value(kind, name, bytes) =>
        ok := AddField(kind, name, bytes);
      case Nested(isArray, name, items) =>
        NestedSize(m);
        var cookie: nat;
        ok, cookie := OpenNested(name, isArray);
        if ok {
          ok := BuildAll(items);
          if ok {
            assert [] + items == items;
            CloseNested(cookie);
          }
        }
    }

    method BuildAll(ms: seq<Msg>) returns (ok: bool)
      requires Valid() && AllFit(ms) && EndOf(outer, cur) + Total(ms) < LEN_RANGE
      modifies this
      ensures Valid()
      ensures ok ==> outer == old(outer) && cur == old(cur).(done := old(cur).done + ms)
      ensures ok ==> EndOf(outer, cur) == old(EndOf(outer, cur)) + Total(ms)
      ensures limit >= LEN_RANGE ==> ok
      decreases ms, 1
    {
      ok := true;
      var i := 0;
      while i < |ms|
        invariant i <= |ms| && Valid() && outer == old(outer)
        invariant cur == old(cur).(done := old(cur).done + ms[..i])
        invariant EndOf(outer, cur) == old(EndOf(outer, cur)) + Total(ms[..i])
      {
        TotalNext(ms, i);
        TotalGrows(ms, i + 1);
        ok := Build(ms[i]);
        if !ok {
          return;
        }
        i := i + 1;
      }
      assert ms[..i] == ms;
    }

    /** Walking over the finished buffer gives back what was built, in order. */
    method Walk() returns (r: Option<seq<Msg>>)
      requires Valid() && outer == Outermost
      ensures r == Some(cur.done)
    {
      BuiltReads(data, head, cur);
      r := ReadAll(data[ATTR_HEADER..RawLen(data)]);
    }
  }

  /** The whole way: from an empty buffer, any messages that are built are read again, in order, and
      each of them passes the check on untrusted attributes where it stands. */
  method BuildAndRead(id: nat, ms: seq<Msg>, limit: nat) returns (ok: bool, b: BlobBuf, r: Option<seq<Msg>>)
    requires id < 128 && AllFit(ms) && ATTR_HEADER + Total(ms) < LEN_RANGE
    ensures limit >= LEN_RANGE ==> ok
    ensures ok ==> r == Some(ms)
    ensures ok ==> ATTR_HEADER <= |b.data| && ATTR_HEADER <= RawLen(b.data) <= |b.data|
    ensures ok ==> RawLen(b.data) == ATTR_HEADER + Total(ms) && Id(b.data) == id
    ensures ok ==> b.data[ATTR_HEADER..RawLen(b.data)] == EncodeAll(ms)
    ensures ok ==> forall k :: 0 <= k < |ms| ==> Passes(ms, k)
  {
    b := new BlobBuf(limit);
    r := None;
    ok := b.Init(id);
    if ok {
      ok := b.BuildAll(ms);
      if ok {
        r := b.Walk();
        assert [] + ms == ms;
        BuiltReads(b.data, b.head, b.cur);
        forall k | 0 <= k < |ms|
          ensures Passes(ms, k)
        {
          AllPass(ms, k, []);
          assert EncodeAll(ms)[Total(ms[..k])..] + [] == EncodeAll(ms)[Total(ms[..k])..];
        }
      }
    }
  }

  /** Message number `k` passes the check where it stands, and holds what it should. */
  ghost predicate Passes(ms: seq<Msg>, k: nat)
    requires AllFit(ms) && k < |ms|
  {
    && Total(ms[..k]) <= |EncodeAll(ms)|
    && CheckAttr(EncodeAll(ms)[Total(ms[..k])..], false)
    && (ms[k].name != [] ==> CheckAttr(EncodeAll(ms)[Total(ms[..k])..], true))
    && Data(EncodeAll(ms)[Total(ms[..k])..]) == Body(ms[k])
  }

  /** Every attribute in what was built passes the check, with all bytes behind it to be read. */
  lemma {:induction false} AllPass(ms: seq<Msg>, k: nat, rest: seq<Byte>)
    requires AllFit(ms) && k < |ms|
    ensures Total(ms[..k]) <= |EncodeAll(ms)|
    ensures CheckAttr(EncodeAll(ms)[Total(ms[..k])..] + rest, false)
    ensures ms[k].name != [] ==> CheckAttr(EncodeAll(ms)[Total(ms[..k])..] + rest, true)
    ensures Data(EncodeAll(ms)[Total(ms[..k])..] + rest) == Body(ms[k])
    decreases |ms|
  {
    var last := |ms| - 1;
    var front := EncodeAll(ms[..last]);
    if k == last {
      assert EncodeAll(ms)[|front|..] == Encode(ms[k]);
      BuiltPasses(ms[k], rest, true);
    } else {
      assert ms[..last][..k] == ms[..k];
      AllPass(ms[..last], k, Encode(ms[last]) + rest);
      Tail(front, Encode(ms[last]), rest, Total(ms[..k]));
    }
  }

  lemma Tail(a: seq<Byte>, b: seq<Byte>, rest: seq<Byte>, n: nat)
    requires n <= |a|
    ensures (a + b)[n..] + rest == a[n..] + (b + rest)
  {
  }
}
