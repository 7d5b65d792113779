/** Streams with chains of buffers (ustream.c). */
module Ustream {
  import opened Sequences
  import opened BufParts

  class Buf {
    const end: nat
    const mem: array<Byte>
    var next: Buf?
    var data: nat
    var tail: nat

    /** The buffer is described by `p`. */
    ghost predicate Is(p: Part)
      reads this`data, this`tail, mem
    {
      && data == p.data && tail == p.tail && end == p.end == mem.Length && Fits(p)
      && SealedIs(p) == true
    }

    ghost predicate SealedIs(p: Part)
      requires data <= tail <= mem.Length
      reads this`data, this`tail, mem
    {
      forall u: nat {:trigger OpenMem(u)} :: p.bytes == mem[data..tail] && p.room == mem[tail..]
    }

    ghost function View(): (p: Part)
      requires data <= tail <= end == mem.Length && end > 0
      reads this`data, this`tail, mem
      ensures Is(p)
    {
      Part(end, data, tail, mem[data..tail], mem[tail..])
    }

    /** ustream_alloc_default with ustream_init_buf */
    constructor (len: nat)
      requires len > 0
      ensures end == len == mem.Length && data == 0 == tail && fresh(mem)
    {
      end, mem := len, new Byte[len](_ => 0);
      next, data, tail := null, 0, 0;
    }

    /** ustream_init_buf on a buffer that is used again */
    method Init(ghost p: Part) returns (ghost q: Part)
      requires Is(p)
      modifies this`data, this`tail, mem
      ensures Is(q) && Unused(q)
    {
      data, tail := 0, 0;
      mem[0] := 0;
      q := View();
    }

    /** The memmove of ustream_prepare_buf. */
    method Compact(ghost p: Part) returns (ghost q: Part)
      requires Is(p)
      modifies this`data, this`tail, mem
      ensures Is(q) && q.data == 0 && q.bytes == p.bytes
    {
      assert OpenMem(0);
      var len := tail - data;
      forall i | 0 <= i < len {
        mem[i] := mem[data + i];
      }
      data := 0;
      tail := len;
      q := View();
    }

    /** Bytes are written behind the data. */
    method Fill(ghost p: Part, bytes: seq<Byte>) returns (ghost q: Part)
      requires Is(p) && |bytes| <= end - tail
      modifies mem
      ensures Is(q) && q == p.(room := bytes + p.room[|bytes|..])
    {
      assert OpenMem(0);
      forall i | 0 <= i < |bytes| {
        mem[tail + i] := bytes[i];
      }
      q := View();
      assert q.room == bytes + p.room[|bytes|..];
    }

    /** Bytes behind the data are counted as data. */
    method Count(ghost p: Part, n: nat) returns (ghost q: Part)
      requires Is(p) && n <= end - tail
      modifies this`tail
      ensures Is(q) && q == p.(tail := p.tail + n, bytes := p.bytes + p.room[..n], room := p.room[n..])
    {
      assert OpenMem(0);
      tail := tail + n;
      q := View();
      assert q.bytes == p.bytes + p.room[..n];
    }

    /** Data is taken from the front. */
    method Take(ghost p: Part, n: nat) returns (ghost q: Part)
      requires Is(p) && n <= tail - data
      modifies this`data
      ensures Is(q) && q == p.(data := p.data + n, bytes := p.bytes[n..])
    {
      assert OpenMem(0);
      data := data + n;
      q := View();
      assert q.bytes == p.bytes[n..];
    }

    /** The data as a transport or a reader finds it. */
    method Peek(ghost p: Part) returns (bytes: seq<Byte>)
      requires Is(p)
      ensures bytes == p.bytes
    {
      assert OpenMem(0);
      bytes := mem[data..tail];
    }
  }

  ghost predicate OpenMem(u: nat) {
    true
  }

  ghost predicate OpenGood(u: nat) {
    true
  }

  /** The buffers of a list in order, what they hold, the place of data_tail, and all objects that
      the list has used. */
  datatype Chain = Chain(bufs: seq<Buf>, parts: seq<Part>, dt: nat, repr: set<object>)

  /** No two buffers are the same, and no two share memory. */
  ghost predicate Apart(bufs: seq<Buf>) {
    forall i, j :: 0 <= i < j < |bufs| ==> bufs[i] != bufs[j] && bufs[i].mem != bufs[j].mem
  }

  ghost predicate Alone(buf: Buf, bufs: seq<Buf>) {
    forall i :: 0 <= i < |bufs| ==> bufs[i] != buf && bufs[i].mem != buf.mem
  }

  ghost predicate Chained(bufs: seq<Buf>)
    reads bufs`next
  {
    forall i {:trigger bufs[i].next} :: 0 <= i < |bufs| ==> bufs[i].next == Next(bufs, i)
  }

  function Next(bufs: seq<Buf>, i: nat): Buf? {
    if i + 1 < |bufs| then bufs[i + 1] else null
  }

  /** Each buffer is described by its part. */
  ghost predicate Described(bufs: seq<Buf>, ps: seq<Part>)
    reads bufs`data, bufs`tail, set b | b in bufs :: b.mem
  {
    |ps| == |bufs| && forall i :: 0 <= i < |bufs| ==> bufs[i].Is(ps[i])
  }

  ghost predicate Within(bufs: seq<Buf>, objects: set<object>) {
    forall i :: 0 <= i < |bufs| ==> bufs[i] in objects && bufs[i].mem in objects
  }

  /** The buffers are linked in order, and they are as they are described. */
  ghost predicate Good(it: Chain)
    reads it.bufs`next, it.bufs`data, it.bufs`tail, set b | b in it.bufs :: b.mem
  {
    SealedGood(it) == true
  }

  ghost predicate SealedGood(it: Chain)
    reads it.bufs`next, it.bufs`data, it.bufs`tail, set b | b in it.bufs :: b.mem
  {
    forall u: nat {:trigger OpenGood(u)} ::
      && Chained(it.bufs) && Described(it.bufs, it.parts) && Within(it.bufs, it.repr) && Apart(it.bufs)
      && Shape(it.parts, it.dt)
  }

  function First(it: Chain): Buf? {
    if it.bufs == [] then null else it.bufs[0]
  }

  function Last(it: Chain): Buf? {
    if it.bufs == [] then null else it.bufs[|it.bufs| - 1]
  }

  function DataTail(it: Chain): Buf? {
    if it.dt < |it.bufs| then it.bufs[it.dt] else null
  }

  function Rest(it: Chain): Chain
    requires it.bufs != [] && it.parts != []
  {
    Chain(it.bufs[1..], it.parts[1..], Behind(it.dt), it.repr)
  }

  function More(it: Chain, buf: Buf, p: Part): Chain {
    Chain(it.bufs + [buf], it.parts + [p], it.dt, it.repr + {buf, buf.mem})
  }

  function At(it: Chain, k: nat, p: Part): Chain
    requires k < |it.parts|
  {
    it.(parts := it.parts[k := p])
  }

  lemma MoreEnds(it: Chain, buf: Buf, p: Part)
    requires if it.bufs == [] then it.dt == 0 else it.dt < |it.bufs|
    ensures Last(More(it, buf, p)) == buf && |More(it, buf, p).bufs| == |it.bufs| + 1
    ensures First(More(it, buf, p)) == if Last(it) == null then buf else First(it)
    ensures DataTail(More(it, buf, p)) == if DataTail(it) == null then First(More(it, buf, p)) else DataTail(it)
  {
  }

  lemma GoodFacts(it: Chain)
    requires Good(it)
    ensures |it.parts| == |it.bufs| && Shape(it.parts, it.dt)
    ensures it.bufs == [] ==> it.dt == 0
    ensures it.bufs != [] ==> it.dt < |it.bufs|
    ensures forall b :: b in it.bufs ==> b in it.repr && b.mem in it.repr
  {
    assert OpenGood(0) && OpenShape(0);
    forall b | b in it.bufs
      ensures b in it.repr && b.mem in it.repr
    {
      var i :| 0 <= i < |it.bufs| && it.bufs[i] == b;
    }
  }

  lemma GoodAt(it: Chain, k: nat)
    requires Good(it) && k < |it.bufs|
    ensures |it.parts| == |it.bufs| && it.bufs[k].Is(it.parts[k])
    ensures it.bufs[k] in it.repr && it.bufs[k].mem in it.repr
    ensures it.bufs[k].next == Next(it.bufs, k)
  {
    assert OpenGood(0);
  }

  lemma GoodRest(it: Chain)
    requires Good(it) && it.bufs != []
    ensures it.parts != [] && Good(Rest(it)) && Alone(it.bufs[0], it.bufs[1..])
    ensures |it.parts[0].bytes| <= |Flat(it.parts)| && Flat(it.parts[1..]) == Flat(it.parts)[|it.parts[0].bytes|..]
  {
    assert OpenGood(0);
    FirstFreed(it.parts, it.dt);
    var bs, ps := it.bufs[1..], it.parts[1..];
    assert forall i :: 0 <= i < |bs| ==> bs[i] == it.bufs[i + 1] && ps[i] == it.parts[i + 1];
  }

  /** data_tail is the first buffer just when its place is 0. */
  lemma GoodEnds(it: Chain)
    requires Good(it) && it.bufs != []
    ensures it.dt < |it.bufs| && (it.bufs[0] == it.bufs[it.dt] <==> it.dt == 0)
    ensures it.bufs[0] == it.bufs[|it.bufs| - 1] <==> |it.bufs| == 1
    ensures it.bufs[it.dt].next == null <==> it.dt + 1 == |it.bufs|
  {
    assert OpenGood(0) && OpenShape(0);
  }

  lemma MoreApart(it: Chain, buf: Buf, p: Part)
    requires Within(it.bufs, it.repr) && Apart(it.bufs) && Alone(buf, it.bufs)
    ensures Within(More(it, buf, p).bufs, More(it, buf, p).repr) && Apart(More(it, buf, p).bufs)
  {
  }

  /** The links that ustream_add_buf sets. */
  method Link(last: Buf?, buf: Buf, ghost it: Chain, ghost p: Part)
    requires Good(it) && Alone(buf, it.bufs) && buf.Is(p) && Unused(p) && last == Last(it)
    modifies it.bufs`next, buf`next
    ensures Good(More(it, buf, p)) && Flat(it.parts + [p]) == Flat(it.parts)
  {
    assert OpenGood(0);
    UnusedAdded(it.parts, it.dt, p);
    MoreApart(it, buf, p);
    if last != null {
      last.next := buf;
    }
    buf.next := null;
  }

  /** ustream_init_buf on a buffer that has been taken off a list. */
  method Recycle(buf: Buf, ghost it: Chain, ghost p: Part) returns (ghost q: Part)
    requires Good(it) && Alone(buf, it.bufs) && buf.Is(p)
    modifies buf`data, buf`tail, buf.mem
    ensures Good(it) && buf.Is(q) && Unused(q)
  {
    q := buf.Init(p);
    assert OpenGood(0);
  }

  method CompactAt(buf: Buf, ghost it: Chain) returns (ghost r: Chain)
    requires Good(it) && it.bufs != [] && buf == DataTail(it)
    modifies buf`data, buf`tail, buf.mem
    ensures Good(r) && r.bufs == it.bufs && r.dt == it.dt && r.repr == it.repr && Flat(r.parts) == Flat(it.parts)
    ensures buf.tail - buf.data == old(buf.tail - buf.data)
  {
    assert OpenGood(0);
    ghost var q := buf.Compact(it.parts[it.dt]);
    PartMoved(it.parts, it.dt, it.dt, q);
    r := At(it, it.dt, q);
  }

  method TakeAt(buf: Buf, ghost it: Chain, n: nat) returns (ghost r: Chain)
    requires Good(it) && it.bufs != [] && buf == First(it) && n < buf.tail - buf.data
    modifies buf`data
    ensures Good(r) && r.bufs == it.bufs && r.dt == it.dt && r.repr == it.repr
    ensures n <= |Flat(it.parts)| && Flat(r.parts) == Flat(it.parts)[n..]
  {
    assert OpenGood(0);
    ghost var q := buf.Take(it.parts[0], n);
    PartTaken(it.parts, it.dt, q, n);
    r := At(it, 0, q);
  }

  method FillAt(buf: Buf, ghost it: Chain, bytes: seq<Byte>) returns (ghost r: Chain)
    requires Good(it) && it.bufs != [] && buf == DataTail(it) && |bytes| <= buf.end - buf.tail
    modifies buf.mem
    ensures Good(r) && r.bufs == it.bufs && r.dt == it.dt && r.repr == it.repr
    ensures Flat(r.parts) == Flat(it.parts) && bytes <= Rooms(r.parts, r.dt)
  {
    assert OpenGood(0) && OpenShape(0);
    ghost var p := it.parts[it.dt];
    ghost var q := buf.Fill(p, bytes);
    PartMoved(it.parts, it.dt, it.dt, q);
    r := At(it, it.dt, q);
  }

  method CountAt(buf: Buf, ghost it: Chain, n: nat) returns (ghost r: Chain)
    requires Good(it) && it.bufs != [] && buf == DataTail(it) && n <= buf.end - buf.tail
    modifies buf`tail
    ensures Good(r) && r.bufs == it.bufs && r.dt == it.dt && r.repr == it.repr
    ensures n <= |Rooms(it.parts, it.dt)|
    ensures Flat(r.parts) == Flat(it.parts) + Rooms(it.parts, it.dt)[..n]
    ensures Rooms(r.parts, r.dt) == Rooms(it.parts, it.dt)[n..] && buf.tail == old(buf.tail) + n
  {
    assert OpenGood(0);
    ghost var q := buf.Count(it.parts[it.dt], n);
    PartCounted(it.parts, it.dt, q, n);
    r := At(it, it.dt, q);
  }

  /** Free bytes are left behind a full data_tail only when there is another buffer. */
  lemma RoomBehind(it: Chain)
    requires Good(it) && it.dt < |it.bufs| && it.bufs[it.dt].tail == it.bufs[it.dt].end && Rooms(it.parts, it.dt) != []
    ensures it.dt + 1 < |it.bufs|
  {
    assert OpenGood(0) && OpenShape(0);
  }

  /** data_tail goes on to the next buffer, when its own is full. */
  lemma NextTail(it: Chain)
    requires Good(it) && it.dt + 1 < |it.bufs|
    requires |it.parts| == |it.bufs| && it.parts[it.dt].tail == it.parts[it.dt].end
    ensures Good(it.(dt := it.dt + 1)) && it.bufs[it.dt + 1].tail < it.bufs[it.dt + 1].end
    ensures it.bufs[it.dt + 1] in it.repr && it.bufs[it.dt + 1].mem in it.repr
    ensures it.bufs[it.dt].next == it.bufs[it.dt + 1]
    ensures Rooms(it.parts, it.dt) == Rooms(it.parts, it.dt + 1)
  {
    assert OpenGood(0);
    DataTailNext(it.parts, it.dt);
    assert it.parts[it.dt].room == [] by { assert OpenShape(0); }
  }

  lemma DropMore(s: seq<Byte>, i: nat, n: nat)
    requires i + n <= |s|
    ensures s[i..][n..] == s[i + n..]
  {
  }

  lemma TakeMore(a: seq<Byte>, s: seq<Byte>, i: nat, n: nat)
    requires i + n <= |s|
    ensures (a + s[..i]) + s[i..][..n] == a + s[..i + n]
  {
  }

  lemma OnlyBuf(ps: seq<Part>)
    ensures |ps| == 1 ==> Flat(ps) == ps[0].bytes
  {
  }

  /** What the transport takes at once, followed by what goes to the buffers. */
  lemma Direct(sent: seq<Byte>, was: seq<Byte>, bytes: seq<Byte>, k: nat, n: nat)
    requires k <= |bytes| && n <= |bytes| - k
    ensures was == [] ==> (sent + bytes[..k]) + (was + bytes[k..][..n]) == (sent + was) + bytes[..k + n]
    ensures k == 0 ==> sent + (was + bytes[k..][..n]) == (sent + was) + bytes[..k + n]
  {
    assert bytes[..k + n] == bytes[..k] + bytes[k..][..n];
  }

  lemma Passed(c: seq<Byte>, chunk: seq<Byte>, n: nat)
    requires chunk <= c && n <= |chunk|
    ensures chunk[..n] == c[..n] && c == c[..n] + c[n..]
  {
  }

  class BufList {
    var head: Buf?
    var dataTail: Buf?
    var tail: Buf?
    var dataBytes: nat
    var buffers: nat
    const minBuffers: int
    const maxBuffers: int
    const bufferLen: nat
    /** Which of the coming requests for memory succeed; those behind the end do. */
    var grants: seq<bool>
    ghost var it: Chain

    /** The data in order. */
    ghost function Contents(): seq<Byte>
      reads this`it
    {
      Flat(it.parts)
    }

    /** Everything but the number of bytes: links and buffers, and the number of buffers with its
        bound. */
    ghost predicate Inv()
      reads this, it.bufs`next, it.bufs`data, it.bufs`tail, set b | b in it.bufs :: b.mem
    {
      && head == First(it) && tail == Last(it) && dataTail == DataTail(it) && Good(it)
      && buffers == |it.bufs| && bufferLen > 0
      && (maxBuffers > 0 ==> buffers <= maxBuffers)
    }

    ghost predicate Valid()
      reads this, it.bufs`next, it.bufs`data, it.bufs`tail, set b | b in it.bufs :: b.mem
    {
      Inv() && this !in it.repr && dataBytes == |Contents()|
    }

    /** The k-th buffer: its data are its part of the contents, only those up to data_tail hold any,
        and the counters count. */
    lemma InBuffer(k: nat)
      requires Valid() && k < |it.bufs|
      ensures |it.parts| == |it.bufs| == buffers && dataBytes == |Contents()|
      ensures it.dt < |it.bufs| && dataTail == it.bufs[it.dt] && it.bufs[k].next == Next(it.bufs, k)
      ensures it.bufs[k].data <= it.bufs[k].tail <= it.bufs[k].mem.Length
      ensures Contents() == Flat(it.parts[..k])
                            + (it.bufs[k].mem[it.bufs[k].data..it.bufs[k].tail] + Flat(it.parts[k + 1..]))
      ensures k > it.dt ==> it.bufs[k].data == it.bufs[k].tail == 0
      ensures k < it.dt ==> it.bufs[k].data < it.bufs[k].tail
    {
      assert OpenGood(0) && OpenShape(0) && OpenMem(0);
      FlatThrough(it.parts, k, it.parts[k]);
      assert it.parts[k := it.parts[k]] == it.parts && it.bufs[k].Is(it.parts[k]);
    }

    constructor (minBuffers: int, maxBuffers: int, bufferLen: nat, grants: seq<bool>)
      requires bufferLen > 0
      ensures Valid() && Contents() == [] && it.repr == {}
      ensures this.minBuffers == minBuffers && this.maxBuffers == maxBuffers && this.bufferLen == bufferLen
    {
      head, dataTail, tail := null, null, null;
      dataBytes, buffers := 0, 0;
      this.minBuffers, this.maxBuffers, this.bufferLen := minBuffers, maxBuffers, bufferLen;
      this.grants := grants;
      it := Chain([], [], 0, {});
      new;
      assert OpenShape(0) && OpenGood(0);
    }

    /** ustream_can_alloc */
    predicate CanAlloc()
      reads this`buffers
    {
      maxBuffers <= 0 || buffers < maxBuffers
    }

    /** ustream_should_move */
    predicate ShouldMove(buf: Buf, len: nat)
      reads this`tail, this`buffers, buf`data, buf`tail
    {
      if buf.data == 0 then false
      else if buf.data > buf.end / 2 then true
      else if buf.tail - buf.data < 32 && buf.data > buf.end / 4 then true
      else if buf != tail || CanAlloc() then false
      else buf.end - buf.tail < len
    }

    /** ustream_add_buf */
    method AddBuf(buf: Buf, ghost p: Part)
      requires Inv() && Alone(buf, it.bufs) && buf.Is(p) && Unused(p)
      requires maxBuffers > 0 ==> buffers < maxBuffers
      modifies this, it.bufs`next, buf`next
      ensures Inv() && it == More(old(it), buf, p) && Contents() == old(Contents())
      ensures dataBytes == old(dataBytes) && grants == old(grants) && buffers == old(buffers) + 1
    {
      GoodFacts(it);
      MoreEnds(it, buf, p);
      Link(tail, buf, it, p);
      SetEnd(buf, p);
    }

    /** The fields that ustream_add_buf sets. */
    method SetEnd(buf: Buf, ghost p: Part)
      modifies this`head, this`dataTail, this`tail, this`buffers, this`it
      ensures it == More(old(it), buf, p) && buffers == old(buffers) + 1 && tail == buf
      ensures head == if old(tail) == null then buf else old(head)
      ensures dataTail == if old(dataTail) == null then head else old(dataTail)
    {
      buffers := buffers + 1;
      if tail == null {
        head := buf;
      }
      tail := buf;
      if dataTail == null {
        dataTail := head;
      }
      it := More(it, buf, p);
    }

    /** The part of ustream_free_buf that takes the first buffer off the list. */
    method DropHead()
      requires Inv() && it.bufs != []
      modifies this
      ensures old(it).parts != [] && Inv() && it == Rest(old(it)) && Alone(old(it).bufs[0], it.bufs)
      ensures |old(it).parts[0].bytes| <= |old(Contents())|
      ensures Contents() == old(Contents())[|old(it).parts[0].bytes|..]
      ensures dataBytes == old(dataBytes) && grants == old(grants) && buffers == old(buffers) - 1
    {
      var buf := head;
      GoodFacts(it);
      GoodEnds(it);
      GoodAt(it, 0);
      GoodRest(it);
      head := buf.next;
      if buf == dataTail {
        dataTail := buf.next;
      }
      if buf == tail {
        tail := null;
      }
      buffers := buffers - 1;
      it := Rest(it);
    }

    /** ustream_free_buf on the first buffer of the list, which is used again when there are not
        enough others. */
    method FreeHead()
      requires Inv() && it.bufs != []
      modifies this, it.repr
      ensures old(it).parts != [] && Inv() && it.repr == old(it).repr
      ensures |old(it).parts[0].bytes| <= |old(Contents())|
      ensures Contents() == old(Contents())[|old(it).parts[0].bytes|..]
      ensures dataBytes == old(dataBytes) && grants == old(grants)
      ensures |old(it).bufs| > 1 ==> First(it) == old(it).bufs[1]
      ensures buffers == if old(buffers) - 1 >= minBuffers then old(buffers) - 1 else old(buffers)
    {
      var buf := head;
      GoodFacts(it);
      GoodAt(it, 0);
      ghost var p := it.parts[0];
      DropHead();
      if buffers < minBuffers {
        ghost var q := Recycle(buf, it, p);
        AddBuf(buf, q);
        assert it.repr == old(it).repr;
      }
    }

    /** ustream_alloc_default */
    method Alloc() returns (ok: bool)
      requires Inv()
      modifies this, it.repr
      ensures Inv() && Contents() == old(Contents()) && dataBytes == old(dataBytes)
      ensures old(it).repr <= it.repr && fresh(it.repr - old(it).repr)
      ensures !ok ==> it == old(it) && (!CanAlloc() || (old(grants) != [] && !old(grants)[0]))
      ensures ok ==> exists b: Buf, p :: it == More(old(it), b, p) && Unused(p) && Fits(p)
      ensures old(grants) == [] ==> grants == []
      ensures ok ==> buffers == old(buffers) + 1
    {
      if !CanAlloc() {
        return false;
      }
      var granted := grants == [] || grants[0];
      if grants != [] {
        grants := grants[1..];
      }
      if !granted {
        return false;
      }
      GoodFacts(it);
      var buf := new Buf(bufferLen);
      ghost var p := buf.View();
      AddBuf(buf, p);
      ok := true;
    }

    /** All buffers up to the end of the list are full. */
    ghost predicate Full()
      requires Inv()
      reads this, it.bufs`next, it.bufs`data, it.bufs`tail, set b | b in it.bufs :: b.mem
    {
      it.bufs != [] ==> it.dt + 1 == |it.bufs| && dataTail.tail == dataTail.end
    }

    /** The compaction in ustream_prepare_buf. */
    method Squeeze(len: nat)
      requires Inv() && this !in it.repr && it.bufs != []
      modifies this`it, it.repr
      ensures Inv() && it.bufs == old(it).bufs && it.dt == old(it).dt && it.repr == old(it).repr
      ensures Contents() == old(Contents())
      ensures dataTail in it.repr && dataTail.mem in it.repr && dataTail.next == Next(it.bufs, it.dt)
      ensures |it.parts| == |it.bufs| && it.dt < |it.bufs| && dataTail.Is(it.parts[it.dt])
    {
      GoodFacts(it);
      GoodAt(it, it.dt);
      if ShouldMove(dataTail, len) {
        it := CompactAt(dataTail, it);
        GoodAt(it, it.dt);
      }
    }

    /** A new buffer at the end, where the data goes on. */
    method Extend() returns (ok: bool)
      requires Inv() && Full()
      modifies this, it.repr
      ensures Inv() && Contents() == old(Contents()) && dataBytes == old(dataBytes)
      ensures old(it).repr <= it.repr && fresh(it.repr - old(it).repr)
      ensures ok ==> dataTail != null && dataTail.tail < dataTail.end && dataTail in it.repr && dataTail.mem in it.repr
      ensures old(grants) == [] ==> grants == []
      ensures !ok ==> it == old(it) && (!CanAlloc() || (old(grants) != [] && !old(grants)[0]))
      ensures !ok ==> Full()
    {
      GoodFacts(it);
      if it.bufs != [] {
        GoodAt(it, it.dt);
      }
      ok := Alloc();
      GoodFacts(it);
      if ok {
        ToEnd();
      } else if it.bufs != [] {
        GoodAt(it, it.dt);
      }
    }

    /** data_tail goes on to the last buffer, which is new. */
    method ToEnd()
      requires Inv() && |it.parts| == |it.bufs| > 0 && |it.bufs| == (if |it.bufs| == 1 then 1 else it.dt + 2)
      requires if |it.bufs| == 1 then Unused(it.parts[0]) else it.parts[it.dt].tail == it.parts[it.dt].end
      modifies this`dataTail, this`it
      ensures Inv() && Contents() == old(Contents()) && it.repr == old(it).repr
      ensures dataTail != null && dataTail.tail < dataTail.end && dataTail in it.repr && dataTail.mem in it.repr
    {
      GoodFacts(it);
      if |it.bufs| > 1 {
        NextTail(it);
      } else {
        GoodAt(it, 0);
      }
      dataTail := tail;
      it := it.(dt := |it.bufs| - 1);
    }

    /** ustream_prepare_buf: free space at data_tail.  Nothing that is held changes.  There is none
        only when all buffers are full and no other can be had. */
    method Prepare(len: nat) returns (ok: bool)
      requires Inv() && this !in it.repr
      modifies this, it.repr
      ensures Inv() && Contents() == old(Contents()) && dataBytes == old(dataBytes)
      ensures old(it).repr <= it.repr && fresh(it.repr - old(it).repr)
      ensures ok ==> dataTail != null && dataTail.tail < dataTail.end && dataTail in it.repr && dataTail.mem in it.repr
      ensures old(grants) == [] ==> grants == []
      ensures !ok ==> Full() && (!CanAlloc() || (old(grants) != [] && !old(grants)[0]))
    {
      GoodFacts(it);
      if dataTail != null {
        Squeeze(len);
        if dataTail.tail != dataTail.end {
          return true;
        }
        if dataTail.next != null {
          NextTail(it);
          dataTail := dataTail.next;
          it := it.(dt := it.dt + 1);
          return true;
        }
      }
      ok := Extend();
    }

    /** memcpy to the free space at data_tail; what is written is not data yet. */
    method Deliver(bytes: seq<Byte>)
      requires Inv() && this !in it.repr && dataTail != null && |bytes| <= dataTail.end - dataTail.tail
      modifies this`it, it.repr
      ensures Inv() && Contents() == old(Contents()) && it.repr == old(it).repr
      ensures it.bufs == old(it).bufs && it.dt == old(it).dt && bytes <= Rooms(it.parts, it.dt)
      ensures dataTail in it.repr && dataTail.mem in it.repr
      ensures dataTail.tail == old(dataTail.tail) && dataTail.data == old(dataTail.data)
    {
      GoodAt(it, it.dt);
      it := FillAt(dataTail, it, bytes);
    }

    /** Bytes in the free space at data_tail become data. */
    method Count(n: nat)
      requires Inv() && this !in it.repr && dataTail != null && n <= dataTail.end - dataTail.tail
      modifies this`it, it.repr
      ensures Inv() && it.repr == old(it).repr && it.bufs == old(it).bufs && it.dt == old(it).dt
      ensures n <= |Rooms(old(it).parts, old(it).dt)|
      ensures Contents() == old(Contents()) + Rooms(old(it).parts, old(it).dt)[..n]
      ensures Rooms(it.parts, it.dt) == Rooms(old(it).parts, old(it).dt)[n..]
      ensures dataTail.tail == old(dataTail.tail) + n
    {
      GoodAt(it, it.dt);
      it := CountAt(dataTail, it, n);
    }

    /** The loop of ustream_consume. */
    method TakeAll(len: nat)
      requires Inv() && this !in it.repr && len <= |Contents()|
      modifies this, it.repr
      ensures Inv() && Contents() == old(Contents())[len..] && it.repr == old(it).repr
      ensures dataBytes == old(dataBytes) && grants == old(grants)
    {
      var left: nat := len;
      var buf := head;
      ghost var all := Contents();
      while left > 0
        invariant Inv() && it.repr == old(it).repr && left <= len
        invariant dataBytes == old(dataBytes) && grants == old(grants)
        invariant len <= |all| && Contents() == all[len - left..]
        invariant left > 0 ==> buf == head
        decreases left
      {
        ghost var done := len - left;
        GoodFacts(it);
        HeadHolds(it.parts, it.dt);
        GoodAt(it, 0);
        var next := buf.next;
        var n := buf.tail - buf.data;
        if left < n {
          it := TakeAt(buf, it, left);
          DropMore(all, done, left);
          left := 0;
        } else {
          FreeHead();
          DropMore(all, done, n);
          left := left - n;
          buf := next;
        }
      }
    }

    /** ustream_consume takes data from the front. */
    method Consume(len: nat)
      requires Valid() && len <= dataBytes
      modifies this, it.repr
      ensures Valid() && Contents() == old(Contents())[len..] && it.repr == old(it).repr
      ensures grants == old(grants)
    {
      if len == 0 {
        return;
      }
      dataBytes := dataBytes - len;
      TakeAll(len);
    }

    /** The data of the first buffer, when there is data. */
    method HeadData() returns (chunk: seq<Byte>)
      requires Valid() && dataBytes > 0
      ensures chunk != [] && chunk <= Contents() && head != null
      ensures it.parts != [] && chunk == it.parts[0].bytes
    {
      GoodFacts(it);
      HeadHolds(it.parts, it.dt);
      GoodAt(it, 0);
      chunk := head.Peek(it.parts[0]);
    }

    /** What ustream_write_pending does with bytes that the transport has taken from the first
        buffer. */
    method DropSent(n: nat) returns (more: bool)
      requires Valid() && dataBytes > 0 && it.parts != [] && 0 < n <= |it.parts[0].bytes|
      modifies this, it.repr
      ensures Valid() && it.repr == old(it).repr && n <= |old(Contents())| && Contents() == old(Contents())[n..]
      ensures more <==> n == |old(it).parts[0].bytes|
      ensures dataBytes == old(dataBytes) - n
      ensures old(head) != null && (more && dataBytes > 0 ==> head == old(head.next))
    {
      GoodFacts(it);
      GoodAt(it, 0);
      OnlyBuf(it.parts);
      GoodRest(it);
      dataBytes := dataBytes - n;
      if n < head.tail - head.data {
        it := TakeAt(head, it, n);
        more := false;
      } else {
        FreeHead();
        more := true;
      }
    }

    /** ustream_write_buffered */
    method WriteBuffered(bytes: seq<Byte>) returns (wr: nat)
      requires Valid()
      modifies this, it.repr
      ensures Valid() && old(it).repr <= it.repr && fresh(it.repr - old(it).repr)
      ensures wr <= |bytes| && Contents() == old(Contents()) + bytes[..wr]
      ensures wr < |bytes| ==> Full()
      ensures maxBuffers <= 0 && old(grants) == [] ==> wr == |bytes|
    {
      var left := bytes;
      wr := 0;
      ghost var was := Contents();
      while left != []
        invariant Valid() && old(it).repr <= it.repr && fresh(it.repr - old(it).repr)
        invariant wr <= |bytes| && left == bytes[wr..] && Contents() == was + bytes[..wr]
        invariant old(grants) == [] ==> grants == []
        decreases |left|
      {
        var n := WriteChunk(left);
        if n == 0 {
          break;
        }
        DropMore(bytes, wr, n);
        TakeMore(was, bytes, wr, n);
        left, wr := left[n..], wr + n;
      }
    }

    /** One round of ustream_write_buffered; 0 when there is no space. */
    method WriteChunk(bytes: seq<Byte>) returns (n: nat)
      requires Valid() && bytes != []
      modifies this, it.repr
      ensures Valid() && old(it).repr <= it.repr && fresh(it.repr - old(it).repr)
      ensures n <= |bytes| && Contents() == old(Contents()) + bytes[..n]
      ensures n == 0 ==> Full()
      ensures old(grants) == [] ==> grants == [] && (maxBuffers <= 0 ==> n > 0)
    {
      n := 0;
      var ok := Prepare(|bytes|);
      if ok {
        var room := dataTail.end - dataTail.tail;
        n := if room > |bytes| then |bytes| else room;
        Append(bytes[..n]);
      }
    }

    /** Bytes are copied to the space at data_tail, and ustream_fill_read is called. */
    method Arrive(bytes: seq<Byte>)
      requires Valid() && dataTail != null && |bytes| <= dataTail.end - dataTail.tail
      modifies this, it.repr
      ensures Valid() && it.repr == old(it).repr && Contents() == old(Contents()) + bytes
    {
      Deliver(bytes);
      ghost var rooms := Rooms(it.parts, it.dt);
      FillRead(|bytes|);
      assert rooms[..|bytes|] == bytes;
    }

    /** ustream_get_read_buf: the data of the first buffer. */
    method ReadBuf() returns (chunk: seq<Byte>)
      requires Valid()
      ensures chunk <= Contents() && (chunk == [] <==> Contents() == [])
    {
      chunk := [];
      GoodFacts(it);
      if head != null {
        GoodAt(it, 0);
        if Contents() != [] {
          HeadHolds(it.parts, it.dt);
        }
        chunk := head.Peek(it.parts[0]);
      }
    }

    /** As many bytes as are wanted, and have room in data_tail, become data. */
    method CountUpTo(want: nat) returns (n: nat)
      requires Inv() && this !in it.repr && dataTail != null
      modifies this`it, it.repr
      ensures Inv() && it.repr == old(it).repr && it.bufs == old(it).bufs && it.dt == old(it).dt
      ensures n <= want && n <= |Rooms(old(it).parts, old(it).dt)|
      ensures Contents() == old(Contents()) + Rooms(old(it).parts, old(it).dt)[..n]
      ensures Rooms(it.parts, it.dt) == Rooms(old(it).parts, old(it).dt)[n..]
      ensures n < want ==> dataTail.tail == dataTail.end
      ensures old(dataTail.tail) < dataTail.end && want > 0 ==> n > 0
    {
      GoodAt(it, it.dt);
      n := if want < dataTail.end - dataTail.tail then want else dataTail.end - dataTail.tail;
      Count(n);
    }

    /** data_tail goes on to the buffer behind, when its own is full. */
    method GoOn()
      requires Inv() && dataTail != null && dataTail.tail == dataTail.end && Rooms(it.parts, it.dt) != []
      modifies this`it, this`dataTail
      ensures Inv() && it.repr == old(it).repr && Contents() == old(Contents())
      ensures dataTail != null && dataTail.tail < dataTail.end
      ensures Rooms(it.parts, it.dt) == Rooms(old(it).parts, old(it).dt)
    {
      GoodFacts(it);
      GoodAt(it, it.dt);
      RoomBehind(it);
      NextTail(it);
      dataTail := dataTail.next;
      it := it.(dt := it.dt + 1);
    }

    /** One round of the loop of ustream_fill_read. */
    method FillNext(want: nat) returns (n: nat)
      requires Inv() && this !in it.repr && want > 0
      requires dataTail != null && dataTail.tail == dataTail.end && Rooms(it.parts, it.dt) != []
      modifies this`it, this`dataTail, it.repr
      ensures Inv() && it.repr == old(it).repr && dataTail != null
      ensures 0 < n <= want && n <= |Rooms(old(it).parts, old(it).dt)|
      ensures Contents() == old(Contents()) + Rooms(old(it).parts, old(it).dt)[..n]
      ensures Rooms(it.parts, it.dt) == Rooms(old(it).parts, old(it).dt)[n..]
      ensures n < want ==> dataTail.tail == dataTail.end
    {
      GoOn();
      n := CountUpTo(want);
    }

    /** The loop of ustream_fill_read: bytes that stand in the free space become data, and
        data_tail goes on where a buffer is full. */
    method FillRead(len: nat)
      requires Valid() && dataTail != null && len <= |Rooms(it.parts, it.dt)|
      modifies this, it.repr
      ensures Valid() && it.repr == old(it).repr
      ensures Contents() == old(Contents()) + Rooms(old(it).parts, old(it).dt)[..len]
    {
      ghost var rooms, was := Rooms(it.parts, it.dt), Contents();
      dataBytes := dataBytes + len;
      var n := CountUpTo(len);
      var left: nat := len - n;
      ghost var done := n;
      while left > 0
        invariant Inv() && it.repr == old(it).repr && dataTail != null && done + left == len
        invariant dataBytes == old(dataBytes) + len
        invariant Contents() == was + rooms[..done] && Rooms(it.parts, it.dt) == rooms[done..]
        invariant left > 0 ==> dataTail.tail == dataTail.end
        decreases left
      {
        n := FillNext(left);
        DropMore(rooms, done, n);
        TakeMore(was, rooms, done, n);
        left, done := left - n, done + n;
      }
    }

    /** memcpy to the free space, which then becomes data. */
    method Append(bytes: seq<Byte>)
      requires Valid() && dataTail != null && |bytes| <= dataTail.end - dataTail.tail
      modifies this, it.repr
      ensures Valid() && it.repr == old(it).repr && Contents() == old(Contents()) + bytes
      ensures grants == old(grants)
    {
      Deliver(bytes);
      ghost var rooms := Rooms(it.parts, it.dt);
      Count(|bytes|);
      assert rooms[..|bytes|] == bytes;
      dataBytes := dataBytes + |bytes|;
    }
  }
  /** The writing side of a stream: what writers hand over goes to a transport, and waits in
      buffers while the transport does not take it. */
  class Writer {
    const w: BufList
    var writeError: bool
    /** What the transport answers to the coming calls of write: how many bytes it takes at most,
        or a negative number for an error. */
    var answers: seq<int>
    /** What the writers' calls have accepted, and what the transport has taken. */
    ghost var accepted: seq<Byte>
    ghost var sent: seq<Byte>

    /** What went out, followed by what is held, is what was accepted. */
    ghost predicate Valid()
      reads this, w, w.it.bufs`next, w.it.bufs`data, w.it.bufs`tail, set b | b in w.it.bufs :: b.mem
    {
      w.Valid() && this !in w.it.repr && accepted == sent + w.Contents()
    }

    constructor (w: BufList, answers: seq<int>)
      requires w.Valid() && w.Contents() == []
      ensures Valid() && this.w == w && accepted == sent == [] && !writeError
    {
      this.w, this.answers, writeError, accepted, sent := w, answers, false, [], [];
      new;
      GoodFacts(w.it);
    }

    /** The call s->write. */
    method Transport(bytes: seq<Byte>) returns (n: int)
      modifies this`answers, this`sent
      ensures n <= |bytes|
      ensures n < 0 ==> sent == old(sent)
      ensures n >= 0 ==> sent == old(sent) + bytes[..n]
    {
      var a := if answers == [] then |bytes| else answers[0];
      if answers != [] {
        answers := answers[1..];
      }
      n := if a > |bytes| then |bytes| else a;
      if n >= 0 {
        sent := sent + bytes[..n];
      }
    }

    /** ustream_write */
    method Write(bytes: seq<Byte>) returns (wr: int)
      requires Valid()
      modifies this, w, w.it.repr
      ensures Valid() && old(w.it).repr <= w.it.repr && fresh(w.it.repr - old(w.it).repr)
      ensures old(writeError) ==> wr == 0
      ensures wr < 0 ==> writeError && accepted == old(accepted) && sent == old(sent)
      ensures wr >= 0 ==> wr <= |bytes| && accepted == old(accepted) + bytes[..wr] && writeError == old(writeError)
      ensures 0 <= wr < |bytes| && !old(writeError) ==> w.Full() && (w.maxBuffers > 0 || old(w.grants) != [])
    {
      wr := 0;
      if writeError {
        return;
      }
      ghost var was := w.Contents();
      if w.dataBytes == 0 {
        wr := Transport(bytes);
        if wr == |bytes| {
          accepted := accepted + bytes;
          return;
        }
        if wr < 0 {
          writeError := true;
          return;
        }
      }
      ghost var direct := bytes[..wr];
      var n := w.WriteBuffered(bytes[wr..]);
      Direct(old(sent), was, bytes, wr, n);
      wr := wr + n;
      accepted := accepted + bytes[..wr];
    }

    /** One round of ustream_write_pending: the data of the first buffer is offered to the
        transport; `more` when it has taken all of it. */
    method Flush() returns (more: bool)
      requires Valid() && w.dataBytes > 0
      modifies this, w, w.it.repr
      ensures Valid() && w.it.repr == old(w.it).repr
      ensures accepted == old(accepted) && old(sent) <= sent
      ensures old(w.head) != null
      ensures more ==> w.dataBytes < old(w.dataBytes)
      ensures more && w.dataBytes > 0 ==> w.head == old(w.head.next)
    {
      ghost var c := w.Contents();
      var chunk := w.HeadData();
      var n := Transport(chunk);
      if n < 0 {
        writeError := true;
        return false;
      }
      if n == 0 {
        return false;
      }
      Passed(c, chunk, n);
      Associate(old(sent), c[..n], c[n..]);
      more := w.DropSent(n);
    }

    /** ustream_write_pending */
    method WritePending() returns (done: bool)
      requires Valid()
      modifies this, w, w.it.repr
      ensures Valid() && w.it.repr == old(w.it).repr
      ensures accepted == old(accepted) && old(sent) <= sent
      ensures old(writeError) ==> !done && sent == old(sent)
      ensures !old(writeError) ==> (done <==> sent == accepted)
    {
      if writeError {
        return false;
      }
      var buf := w.head;
      while buf != null && w.dataBytes > 0
        invariant Valid() && w.it.repr == old(w.it).repr && accepted == old(accepted) && old(sent) <= sent
        invariant w.dataBytes > 0 ==> buf == w.head
        decreases w.dataBytes
      {
        var next := buf.next;
        var more := Flush();
        if !more {
          break;
        }
        buf := next;
      }
      done := w.dataBytes == 0;
    }
  }

  /** The reading side of a stream: what arrives waits in buffers until it is read. */
  class Reader {
    const r: BufList
    /** READ_BLOCKED_FULL in read_blocked */
    var blockedFull: bool
    /** What has arrived, and what readers have got. */
    ghost var arrived: seq<Byte>
    ghost var got: seq<Byte>

    /** What readers have got, followed by what is held, is what has arrived. */
    ghost predicate Valid()
      reads this, r, r.it.bufs`next, r.it.bufs`data, r.it.bufs`tail, set b | b in r.it.bufs :: b.mem
    {
      r.Valid() && this !in r.it.repr && arrived == got + r.Contents()
    }

    constructor (r: BufList)
      requires r.Valid() && r.Contents() == []
      ensures Valid() && this.r == r && arrived == got == [] && !blockedFull
    {
      this.r, blockedFull, arrived, got := r, false, [], [];
      new;
      GoodFacts(r.it);
    }

    /** ustream_reserve: how much may arrive at data_tail. */
    method Reserve(len: nat) returns (maxlen: nat)
      requires Valid()
      modifies this, r, r.it.repr
      ensures Valid() && old(r.it).repr <= r.it.repr && fresh(r.it.repr - old(r.it).repr)
      ensures maxlen > 0 ==> r.dataTail != null && maxlen == r.dataTail.end - r.dataTail.tail
      ensures maxlen > 0 ==> blockedFull == old(blockedFull)
      ensures maxlen == 0 ==> blockedFull && r.Full() && (!r.CanAlloc() || (old(r.grants) != [] && !old(r.grants)[0]))
      ensures arrived == old(arrived) && got == old(got)
    {
      var ok := r.Prepare(len);
      if !ok {
        blockedFull := true;
        return 0;
      }
      maxlen := r.dataTail.end - r.dataTail.tail;
    }

    /** Bytes arrive in the space that has been reserved: the transport copies them there and
        calls ustream_fill_read. */
    method Arrive(bytes: seq<Byte>)
      requires Valid() && r.dataTail != null && |bytes| <= r.dataTail.end - r.dataTail.tail
      modifies this`arrived, r, r.it.repr
      ensures Valid() && r.it.repr == old(r.it).repr && arrived == old(arrived) + bytes
    {
      Associate(got, r.Contents(), bytes);
      r.Arrive(bytes);
      arrived := arrived + bytes;
    }

    /** ustream_consume */
    method Consume(len: nat)
      requires Valid() && len <= r.dataBytes
      modifies this, r, r.it.repr
      ensures Valid() && r.it.repr == old(r.it).repr && r.Contents() == old(r.Contents())[len..]
      ensures got == old(got) + old(r.Contents())[..len] && arrived == old(arrived)
      ensures blockedFull == if len > 0 then false else old(blockedFull)
    {
      ghost var c := r.Contents();
      Passed(c, c, len);
      Associate(got, c[..len], c[len..]);
      r.Consume(len);
      if len > 0 {
        blockedFull := false;
      }
      got := got + c[..len];
    }

    /** ustream_read: exactly as many bytes as are wanted and there, from the front. */
    method Read(buflen: nat) returns (bytes: seq<Byte>)
      requires Valid()
      modifies this, r, r.it.repr
      ensures Valid() && r.it.repr == old(r.it).repr
      ensures |bytes| == if buflen <= old(r.dataBytes) then buflen else old(r.dataBytes)
      ensures bytes == old(r.Contents())[..|bytes|] && r.Contents() == old(r.Contents())[|bytes|..]
      ensures got == old(got) + bytes && arrived == old(arrived)
    {
      bytes := [];
      ghost var c, was := r.Contents(), got;
      ghost var k: nat := 0;
      while true
        invariant Valid() && r.it.repr == old(r.it).repr && arrived == old(arrived)
        invariant k <= |c| && k <= buflen && bytes == c[..k] && r.Contents() == c[k..] && got == was + c[..k]
        decreases buflen - k
      {
        var chunk := ReadChunk(buflen - |bytes|);
        Reads(c, k, chunk, was);
        bytes := bytes + chunk;
        k := k + |chunk|;
        if chunk == [] || |bytes| >= buflen {
          break;
        }
      }
    }

    /** One round of ustream_read; nothing comes only when nothing is wanted or there. */
    method ReadChunk(want: nat) returns (chunk: seq<Byte>)
      requires Valid()
      modifies this, r, r.it.repr
      ensures Valid() && r.it.repr == old(r.it).repr && arrived == old(arrived)
      ensures |chunk| <= want && chunk <= old(r.Contents()) && r.Contents() == old(r.Contents())[|chunk|..]
      ensures got == old(got) + chunk
      ensures chunk == [] <==> want == 0 || old(r.Contents()) == []
    {
      chunk := r.ReadBuf();
      if chunk == [] {
        return;
      }
      var n := if |chunk| > want then want else |chunk|;
      Passed(r.Contents(), chunk, n);
      Consume(n);
      chunk := chunk[..n];
    }
  }

  lemma Reads(c: seq<Byte>, k: nat, chunk: seq<Byte>, was: seq<Byte>)
    requires k <= |c| && chunk <= c[k..]
    ensures c[k..][|chunk|..] == c[k + |chunk|..]
    ensures c[..k] + chunk == c[..k + |chunk|]
    ensures (was + c[..k]) + chunk == was + c[..k + |chunk|]
  {
  }
}
