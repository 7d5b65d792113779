/** Circular doubly linked lists with a sentinel, linked through a record that is
    embedded in the elements (list.h). */
module CircularList {
  import opened Sequences

  /** One link record.  `entry` is the structure the record is embedded in, so
      reading it is what the source's container_of does. */
  class ListHead<T> {
    var entry: T
    var next: ListHead?<T>
    var prev: ListHead?<T>

    /** INIT_LIST_HEAD: a record linked to itself is an empty list. */
    constructor (entry: T)
      ensures this.entry == entry
      ensures Ring([this])
    {
      this.entry := entry;
      next := this;
      prev := this;
    }

    predicate IsFirst(head: ListHead<T>)
      reads this
    {
      prev == head
    }

    predicate IsLast(head: ListHead<T>)
      reads this
    {
      next == head
    }
  }

  /** Positions on a ring of `n` records, the sentinel being number 0. */
  ghost function After(k: int, n: nat): (r: int)
    requires 0 <= k < n
  {
    if k == n - 1 then 0 else k + 1
  }

  ghost function Before(k: int, n: nat): (r: int)
    requires 0 <= k < n
  {
    if k == 0 then n - 1 else k - 1
  }

  /* A predicate with quantifiers whose name goes with Sealed... is unfolded only where a proof says
     so: the outer quantifier has nothing to range over but its trigger, so that the facts inside
     come into play by asserting that trigger, Open..., and not before.  This keeps them out of
     all proofs that only hand the predicate on.  The other modules do the same. */

  /** `s` lists, from the sentinel on, the records of one closed ring, and the two
      directions of the links agree. */
  ghost predicate Ring<T>(s: seq<ListHead<T>>)
    reads s`next, s`prev
  {
    SealedRing(s) == true
  }

  ghost predicate SealedRing<T>(s: seq<ListHead<T>>)
    reads s`next, s`prev
  {
    forall u: nat {:trigger OpenRing(u)} :: Linked(s)
  }

  ghost predicate OpenRing(u: nat) {
    true
  }

  ghost predicate Linked<T>(s: seq<ListHead<T>>)
    reads s`next, s`prev
  {
    && |s| > 0
    && Distinct(s)
    && (forall k {:trigger s[k].next} :: 0 <= k < |s| ==> s[k].next == s[After(k, |s|)])
    && (forall k {:trigger s[k].prev} :: 0 <= k < |s| ==> s[k].prev == s[Before(k, |s|)])
  }

  /** The neighbours of record number `k`. */
  lemma RingNeighbours<T>(s: seq<ListHead<T>>, k: nat)
    requires Ring(s) && k < |s|
    ensures s[k].next == s[After(k, |s|)]
    ensures s[k].prev == s[Before(k, |s|)]
    ensures s[k].next == s[0] <==> k == |s| - 1
    ensures k > 0 ==> (s[k].prev == s[0] <==> k == 1)
  {
    assert OpenRing(0);
  }

  lemma RingLinks<T>(s: seq<ListHead<T>>)
    requires Ring(s)
    ensures forall k {:trigger s[k].next} :: 0 <= k < |s| ==> s[k].next == s[After(k, |s|)]
    ensures forall k {:trigger s[k].prev} :: 0 <= k < |s| ==> s[k].prev == s[Before(k, |s|)]
  {
    assert OpenRing(0);
  }

  lemma RingPlaces<T>(s: seq<ListHead<T>>, k: nat)
    requires Ring(s) && k < |s|
    ensures forall j {:trigger s[j]} :: 0 <= j < |s| && s[j] == s[k] ==> j == k
  {
    assert OpenRing(0);
  }

  lemma RingDistinct<T>(s: seq<ListHead<T>>)
    requires Ring(s)
    ensures Distinct(s)
  {
    assert OpenRing(0);
  }

  ghost predicate SealedDistinct<A>(s: seq<A>) {
    forall u: nat {:trigger OpenRing(u)} :: Distinct(s)
  }

  lemma DistinctInserted<T>(s: seq<ListHead<T>>, k: nat, x: ListHead<T>)
    requires Ring(s) && k <= |s| && x !in s
    ensures SealedDistinct(InsertAt(s, k, x)) == true
  {
    assert OpenRing(0);
  }

  lemma MakeRing<T>(s: seq<ListHead<T>>)
    requires |s| > 0 && SealedDistinct(s) == true
    requires forall k {:trigger s[k].next} :: 0 <= k < |s| ==> s[k].next == s[After(k, |s|)]
    requires forall k {:trigger s[k].prev} :: 0 <= k < |s| ==> s[k].prev == s[Before(k, |s|)]
    ensures Ring(s)
  {
    assert OpenRing(0);
  }

  /** The neighbours of an element after one has been inserted behind number `k`. */
  lemma InsertedAround<A>(s: seq<A>, k: nat, x: A, i: nat)
    requires k < |s| && i <= |s|
    ensures var r, j := InsertAt(s, k + 1, x), if i <= k then i else i - 1;
            && (i == k + 1 ==> r[i] == x && r[After(i, |r|)] == s[After(k, |s|)] && r[Before(i, |r|)] == s[k])
            && (i != k + 1 ==> 0 <= j < |s| && r[i] == s[j])
            && (i != k + 1 ==> r[After(i, |r|)] == if j == k then x else s[After(j, |s|)])
            && (i != k + 1 ==> r[Before(i, |r|)] == if j == After(k, |s|) then x else s[Before(j, |s|)])
  {
  }

  /** _list_add: `prev` and `next` are neighbours number `k` and `k + 1` of the ring. */
  method InsertBetween<T>(new_: ListHead<T>, prev: ListHead<T>, next: ListHead<T>,
                          ghost s: seq<ListHead<T>>, ghost k: nat)
    requires Ring(s) && new_ !in s
    requires k < |s| && prev == s[k] && next == s[After(k, |s|)]
    modifies new_`next, new_`prev, prev`next, next`prev
    ensures Ring(InsertAt(s, k + 1, new_))
  {
    ghost var r := InsertAt(s, k + 1, new_);
    RingLinks(s);
    RingPlaces(s, k);
    RingPlaces(s, After(k, |s|));
    DistinctInserted(s, k + 1, new_);

    next.prev := new_;
    new_.next := next;
    new_.prev := prev;
    prev.next := new_;

    forall i | 0 <= i < |r|
      ensures r[i].next == r[After(i, |r|)]
    {
      InsertedAround(s, k, new_, i);
    }
    forall i | 0 <= i < |r|
      ensures r[i].prev == r[Before(i, |r|)]
    {
      InsertedAround(s, k, new_, i);
    }
    MakeRing(r);
  }

  /** list_add: right behind `head`, record number `k` of the ring. */
  method ListAdd<T>(new_: ListHead<T>, head: ListHead<T>, ghost s: seq<ListHead<T>>, ghost k: nat)
    requires Ring(s) && new_ !in s
    requires k < |s| && head == s[k] && head.next != null
    modifies new_`next, new_`prev, head`next, head.next`prev
    ensures Ring(InsertAt(s, k + 1, new_))
  {
    RingNeighbours(s, k);
    InsertBetween(new_, head, head.next, s, k);
  }

  /** list_add_tail: right in front of `head`; in front of the sentinel is the end. */
  method ListAddTail<T>(new_: ListHead<T>, head: ListHead<T>, ghost s: seq<ListHead<T>>, ghost k: nat)
    requires Ring(s) && new_ !in s
    requires k < |s| && head == s[k] && head.prev != null
    modifies new_`next, new_`prev, head`prev, head.prev`next
    ensures Ring(InsertAt(s, if k == 0 then |s| else k, new_))
  {
    RingNeighbours(s, k);
    InsertBetween(new_, head.prev, head, s, Before(k, |s|));
  }

  /** _list_del: the neighbours of record number `k` are joined. */
  method Unlink<T>(entry: ListHead<T>, ghost s: seq<ListHead<T>>, ghost k: nat)
    requires Ring(s)
    requires 0 < k < |s| && entry == s[k] && entry.next != null && entry.prev != null
    modifies entry.next`prev, entry.prev`next
    ensures entry.next == old(entry.next) && entry.prev == old(entry.prev)
    ensures Ring(RemoveAt(s, k))
  {
    assert OpenRing(0);
    var n, p := entry.next, entry.prev;
    entry.next.prev := entry.prev;
    entry.prev.next := entry.next;

    ghost var r, a, b := RemoveAt(s, k), Before(k, |s|), After(k, |s|);
    assert p == s[a] && n == s[b];
    forall i | 0 <= i < |r|
      ensures r[i].next == r[After(i, |r|)] && r[i].prev == r[Before(i, |r|)]
    {
      var j := if i < k then i else i + 1;
      assert r[i] == s[j];
      assert j != a ==> s[j].next == s[After(j, |s|)];
      assert j != b ==> s[j].prev == s[Before(j, |s|)];
    }
  }

  /** list_del */
  method ListDel<T>(entry: ListHead<T>, ghost s: seq<ListHead<T>>, ghost k: nat)
    requires Ring(s)
    requires 0 < k < |s| && entry == s[k] && entry.next != null && entry.prev != null
    modifies entry`next, entry`prev, entry.next`prev, entry.prev`next
    ensures entry.next == null && entry.prev == null
    ensures Ring(RemoveAt(s, k))
  {
    assert entry !in RemoveAt(s, k) by {
      assert OpenRing(0);
    }
    Unlink(entry, s, k);
    entry.next := null;
    entry.prev := null;
  }
}
