/** The buffers of a stream as values (ustream.c): what each one holds and what is free in it. */
module BufParts {
  import opened Sequences

  /** A buffer of `end` bytes with data from `data` to `tail`, and the bytes behind the data. */
  datatype Part = Part(end: nat, data: nat, tail: nat, bytes: seq<Byte>, room: seq<Byte>)

  predicate Fits(p: Part) {
    p.data <= p.tail <= p.end && p.end > 0 && |p.bytes| == p.tail - p.data && |p.room| == p.end - p.tail
  }

  /** A buffer as ustream_init_buf leaves it. */
  predicate Unused(p: Part) {
    p.data == 0 && p.tail == 0
  }

  /** Buffers before data_tail hold data, those behind it are unused, and data_tail is one of
      the two. */
  ghost predicate Shape(ps: seq<Part>, dt: nat) {
    SealedShape(ps, dt) == true
  }

  ghost predicate SealedShape(ps: seq<Part>, dt: nat) {
    forall u: nat {:trigger OpenShape(u)} ::
      && (ps == [] ==> dt == 0)
      && (ps != [] ==> dt < |ps|)
      && (forall i :: 0 <= i < |ps| ==> Fits(ps[i]))
      && (forall i :: 0 <= i < dt && i < |ps| ==> ps[i].bytes != [])
      && (forall i :: dt < i < |ps| ==> Unused(ps[i]))
      && (dt < |ps| ==> ps[dt].bytes != [] || Unused(ps[dt]))
  }

  ghost predicate OpenShape(u: nat) {
    true
  }

  /** All data in order. */
  ghost function Flat(ps: seq<Part>): (s: seq<Byte>) {
    if ps == [] then [] else ps[0].bytes + Flat(ps[1..])
  }

  /** The free bytes of the buffers from `k` on, in order. */
  ghost function Rooms(ps: seq<Part>, k: nat): (s: seq<Byte>)
    decreases |ps| - k
  {
    if k >= |ps| then [] else ps[k].room + Rooms(ps, k + 1)
  }

  lemma {:induction false} FlatSplit(a: seq<Part>, b: seq<Part>)
    ensures Flat(a + b) == Flat(a) + Flat(b)
  {
    if a == [] {
      assert a + b == b;
    } else {
      assert (a + b)[1..] == a[1..] + b;
      FlatSplit(a[1..], b);
      Associate(a[0].bytes, Flat(a[1..]), Flat(b));
    }
  }

  lemma {:induction false} FlatUnused(ps: seq<Part>)
    requires forall i :: 0 <= i < |ps| ==> Fits(ps[i]) && Unused(ps[i])
    ensures Flat(ps) == []
  {
    if ps != [] {
      FlatUnused(ps[1..]);
    }
  }

  lemma FlatThrough(ps: seq<Part>, k: nat, p: Part)
    requires k < |ps|
    ensures Flat(ps[k := p]) == Flat(ps[..k]) + (p.bytes + Flat(ps[k + 1..]))
  {
    var front, back := ps[..k], ps[k + 1..];
    assert ps[k := p] == front + ([p] + back);
    FlatSplit(front, [p] + back);
    assert ([p] + back)[1..] == back;
  }

  /** A buffer whose data has been moved: compaction changes nothing that is held. */
  lemma PartMoved(ps: seq<Part>, dt: nat, k: nat, p: Part)
    requires Shape(ps, dt) && k < |ps| && Fits(p) && p.bytes == ps[k].bytes
    requires p.bytes == [] ==> Unused(p)
    ensures Shape(ps[k := p], dt) && Flat(ps[k := p]) == Flat(ps)
  {
    assert OpenShape(0);
    FlatThrough(ps, k, p);
    FlatThrough(ps, k, ps[k]);
    assert ps[k := ps[k]] == ps;
  }

  /** More data in data_tail is more data behind all data. */
  lemma PartGrown(ps: seq<Part>, dt: nat, p: Part, b: seq<Byte>)
    requires Shape(ps, dt) && dt < |ps| && Fits(p) && p.bytes == ps[dt].bytes + b
    requires b == [] ==> p.data == ps[dt].data && p.tail == ps[dt].tail
    ensures Shape(ps[dt := p], dt) && Flat(ps[dt := p]) == Flat(ps) + b
  {
    assert OpenShape(0);
    FlatUnused(ps[dt + 1..]);
    FlatThrough(ps, dt, p);
    FlatThrough(ps, dt, ps[dt]);
    assert ps[dt := ps[dt]] == ps;
    Grow(Flat(ps[..dt]), ps[dt].bytes, b);
  }

  /** Free bytes of data_tail are counted as data. */
  lemma PartCounted(ps: seq<Part>, dt: nat, p: Part, n: nat)
    requires Shape(ps, dt) && dt < |ps| && Fits(p) && n <= |ps[dt].room|
    requires p == ps[dt].(tail := ps[dt].tail + n, bytes := ps[dt].bytes + ps[dt].room[..n], room := ps[dt].room[n..])
    ensures Shape(ps[dt := p], dt) && n <= |Rooms(ps, dt)|
    ensures Flat(ps[dt := p]) == Flat(ps) + Rooms(ps, dt)[..n]
    ensures Rooms(ps[dt := p], dt) == Rooms(ps, dt)[n..]
  {
    PartGrown(ps, dt, p, ps[dt].room[..n]);
    RoomsKept(ps, ps[dt := p], dt + 1);
    Cut(ps[dt].room, Rooms(ps, dt + 1), n);
  }

  lemma Cut(a: seq<Byte>, b: seq<Byte>, n: nat)
    requires n <= |a|
    ensures (a + b)[..n] == a[..n] && (a + b)[n..] == a[n..] + b
  {
  }

  lemma Grow(a: seq<Byte>, c: seq<Byte>, b: seq<Byte>)
    ensures a + ((c + b) + []) == (a + (c + [])) + b
  {
  }

  /** Bytes are taken from the front of the first buffer, which keeps some. */
  lemma PartTaken(ps: seq<Part>, dt: nat, p: Part, n: nat)
    requires Shape(ps, dt) && ps != [] && Fits(p) && n < |ps[0].bytes| && p.bytes == ps[0].bytes[n..]
    ensures Shape(ps[0 := p], dt) && n <= |Flat(ps)| && Flat(ps[0 := p]) == Flat(ps)[n..]
  {
    ShapeTaken(ps, dt, p);
    assert ps[0 := p][1..] == ps[1..];
    Cut(ps[0].bytes, Flat(ps[1..]), n);
  }

  lemma ShapeTaken(ps: seq<Part>, dt: nat, p: Part)
    requires Shape(ps, dt) && ps != [] && Fits(p) && p.bytes != []
    ensures Shape(ps[0 := p], dt)
  {
    assert OpenShape(0);
  }

  /** data_tail after the first buffer has left the list. */
  function Behind(dt: nat): nat {
    if dt == 0 then 0 else dt - 1
  }

  lemma FirstFreed(ps: seq<Part>, dt: nat)
    requires Shape(ps, dt) && ps != []
    ensures Shape(ps[1..], Behind(dt))
    ensures |ps[0].bytes| <= |Flat(ps)| && Flat(ps[1..]) == Flat(ps)[|ps[0].bytes|..]
  {
    assert OpenShape(0);
    var qs := ps[1..];
    assert forall i :: 0 <= i < |qs| ==> qs[i] == ps[i + 1];
  }

  /** When there is data, the first buffer holds some. */
  lemma HeadHolds(ps: seq<Part>, dt: nat)
    requires Shape(ps, dt) && Flat(ps) != []
    ensures ps != [] && ps[0].bytes != [] && ps[0].bytes <= Flat(ps)
  {
    assert OpenShape(0);
    if dt == 0 {
      FlatUnused(ps[1..]);
    }
  }

  lemma UnusedAdded(ps: seq<Part>, dt: nat, p: Part)
    requires Shape(ps, dt) && Fits(p) && Unused(p)
    ensures Shape(ps + [p], dt) && Flat(ps + [p]) == Flat(ps)
  {
    assert OpenShape(0);
    FlatSplit(ps, [p]);
    assert p.bytes == [];
  }

  /** data_tail goes on to an unused buffer, when its own is full. */
  lemma DataTailNext(ps: seq<Part>, dt: nat)
    requires Shape(ps, dt) && dt + 1 < |ps| && ps[dt].tail == ps[dt].end
    ensures Shape(ps, dt + 1) && Fits(ps[dt + 1]) && Unused(ps[dt + 1])
  {
    assert OpenShape(0);
  }

  lemma {:induction false} RoomsKept(ps: seq<Part>, qs: seq<Part>, k: nat)
    requires |ps| == |qs| && forall i :: k <= i < |ps| ==> ps[i] == qs[i]
    ensures Rooms(ps, k) == Rooms(qs, k)
    decreases |ps| - k
  {
    if k < |ps| {
      RoomsKept(ps, qs, k + 1);
    }
  }
}
