/** The loops over untrusted attributes.  Each one is given just the bytes that it may read. */
module BlobParse {
  import opened Sequences
  import opened BlobBytes
  import opened Blobmsg

  /** Where the loop blobmsg_for_each_attr stands in each of its rounds: the bytes from there on. */
  function Rounds(s: seq<Byte>): (r: seq<seq<Byte>>)
    decreases |s|
  {
    if !More(s) then [] else [s] + Rounds(s[Pad(RawLen(s))..])
  }

  /** What blobmsg_check_array_len accepts inside a list. */
  predicate Member(s: seq<Byte>, kind: nat, named: bool) {
    |s| >= ATTR_HEADER && (kind == UNSPEC || Id(s) == kind) && CheckAttr(s, named)
  }

  predicate AllMembers(rounds: seq<seq<Byte>>, kind: nat, named: bool) {
    forall i :: 0 <= i < |rounds| ==> Member(rounds[i], kind, named)
  }

  predicate IsList(s: seq<Byte>) {
    CheckAttr(s, false) && (Id(s) == TABLE || Id(s) == ARRAY)
  }

  /** blobmsg_check_array_len: the number of members of a table or array in which all are in
      order and of the given type, and -1 for everything else.  Members of tables need names. */
  method CheckArray(s: seq<Byte>, kind: nat) returns (size: int)
    ensures size >= 0 <==> (kind <= TYPE_LAST && IsList(s) && AllMembers(Rounds(Data(s)), kind, Id(s) == TABLE))
    ensures size >= 0 ==> size == |Rounds(Data(s))|
    ensures size >= -1
  {
    if kind > TYPE_LAST {
      return -1;
    }
    if !CheckAttr(s, false) {
      return -1;
    }
    var named := Id(s) == TABLE;
    if !named && Id(s) != ARRAY {
      return -1;
    }
    ghost var all := Rounds(Data(s));
    var pos := Data(s);
    size := 0;
    while More(pos)
      invariant 0 <= size <= |all| && all[size..] == Rounds(pos)
      invariant forall i :: 0 <= i < size ==> Member(all[i], kind, named)
      decreases |pos|
    {
      RoundHere(all, size, pos);
      if kind != UNSPEC && Id(pos) != kind {
        return -1;
      }
      if !CheckAttr(pos, named) {
        return -1;
      }
      pos := pos[Pad(RawLen(pos))..];
      size := size + 1;
    }
  }

  lemma RoundHere(all: seq<seq<Byte>>, n: nat, pos: seq<Byte>)
    requires n <= |all| && all[n..] == Rounds(pos) && More(pos)
    ensures n < |all| && all[n] == pos && all[n + 1..] == Rounds(pos[Pad(RawLen(pos))..])
  {
    assert all[n] == all[n..][0] && all[n + 1..] == all[n..][1..];
  }

  // -------- blobmsg_parse_array --------

  /** The ids of the attributes of a list. */
  function Ids(rounds: seq<seq<Byte>>): (ids: seq<nat>)
    requires forall i :: 0 <= i < |rounds| ==> |rounds[i]| >= ATTR_HEADER
    ensures |ids| == |rounds|
    ensures forall i :: 0 <= i < |ids| ==> ids[i] == Id(rounds[i])
  {
    seq(|rounds|, i requires 0 <= i < |rounds| => Id(rounds[i]))
  }

  lemma {:induction false} RoundsHaveHeaders(s: seq<Byte>)
    ensures forall i :: 0 <= i < |Rounds(s)| ==> |Rounds(s)[i]| >= ATTR_HEADER
    decreases |s|
  {
    if More(s) {
      RoundsHaveHeaders(s[Pad(RawLen(s))..]);
    }
  }

  predicate Matches(kind: nat, id: nat) {
    kind == UNSPEC || id == kind
  }

  /** The attributes that the types of a policy can be assigned to, one after the other: any
      assignment that keeps the order will do. */
  predicate Embeds(policy: seq<nat>, ids: seq<nat>)
    decreases |ids|
  {
    policy == [] ||
    (ids != [] && (Embeds(policy, ids[1..]) || (Matches(policy[0], ids[0]) && Embeds(policy[1..], ids[1..]))))
  }

  /** The assignment that takes the first attribute that matches, each time, for the policy
      from `i` on and the attributes from `from` on. */
  function Greedy(policy: seq<nat>, ids: seq<nat>, i: nat, from: nat): (picks: seq<nat>)
    requires i <= |policy| && from <= |ids|
    ensures |picks| <= |policy| - i
    ensures forall k :: 0 <= k < |picks| ==> from <= picks[k] < |ids| && Matches(policy[i + k], ids[picks[k]])
    ensures forall k :: 0 < k < |picks| ==> picks[k - 1] < picks[k]
    decreases |ids| - from
  {
    if i == |policy| || from == |ids| then []
    else if Matches(policy[i], ids[from]) then [from] + Greedy(policy, ids, i + 1, from + 1)
    else Greedy(policy, ids, i, from + 1)
  }

  lemma {:induction false} EmbedsLess(policy: seq<nat>, ids: seq<nat>)
    requires policy != [] && Embeds(policy, ids)
    ensures Embeds(policy[1..], ids)
    decreases |ids|
  {
    if Embeds(policy, ids[1..]) {
      EmbedsLess(policy, ids[1..]);
    }
  }

  /** Taking the first match each time is best: it assigns every prefix of the policy that can
      be assigned at all. */
  lemma {:induction false} GreedyIsLongest(policy: seq<nat>, ids: seq<nat>, i: nat, from: nat, j: nat)
    requires i <= j <= |policy| && from <= |ids|
    ensures Embeds(policy[i..j], ids[from..]) <==> j - i <= |Greedy(policy, ids, i, from)|
    decreases |ids| - from
  {
    if from < |ids| && i < j {
      var rest, p := ids[from..], policy[i..j];
      assert rest[1..] == ids[from + 1..] && rest[0] == ids[from];
      assert p[1..] == policy[i + 1..j] && p[0] == policy[i];
      if Matches(policy[i], ids[from]) {
        GreedyIsLongest(policy, ids, i + 1, from + 1, j);
        if Embeds(p, rest[1..]) {
          EmbedsLess(p, rest[1..]);
        }
      } else {
        GreedyIsLongest(policy, ids, i, from + 1, j);
      }
    }
  }

  /** A slot of the result table holds the number of an attribute, or nothing. */
  type Slots = seq<Option<nat>>

  ghost function Filled(picks: seq<nat>, n: nat): (tb: Slots)
    requires |picks| <= n
  {
    seq(n, i requires 0 <= i < n => if i < |picks| then Some(picks[i]) else None)
  }

  /** The attributes that are picked are in order. */
  predicate PicksPass(rounds: seq<seq<Byte>>, picks: seq<nat>) {
    forall k :: 0 <= k < |picks| ==> picks[k] < |rounds| && CheckAttr(rounds[picks[k]], false)
  }

  predicate SlotsPass(rounds: seq<seq<Byte>>, tb: Slots) {
    forall k :: 0 <= k < |tb| && tb[k].Some? ==> tb[k].value < |rounds| && CheckAttr(rounds[tb[k].value], false)
  }

  lemma PickedPass(rounds: seq<seq<Byte>>, picks: seq<nat>, n: nat)
    requires |picks| <= n && PicksPass(rounds, picks)
    ensures SlotsPass(rounds, Filled(picks, n))
  {
  }

  lemma OneMorePasses(rounds: seq<seq<Byte>>, picks: seq<nat>, n: nat)
    requires PicksPass(rounds, picks) && n < |rounds| && CheckAttr(rounds[n], false)
    ensures PicksPass(rounds, picks + [n])
  {
  }

  lemma PickFails(rounds: seq<seq<Byte>>, taken: seq<nat>, n: nat, picks: seq<nat>)
    requires n < |rounds| && !CheckAttr(rounds[n], false)
    ensures !PicksPass(rounds, taken + ([n] + picks))
  {
    assert (taken + ([n] + picks))[|taken|] == n;
  }

  /** blobmsg_parse_array: the attributes that are picked are checked, and no others; when they
      pass, the longest prefix of the policy that can be assigned is assigned. */
  method ParseArray(policy: seq<nat>, s: seq<Byte>) returns (r: int, tb: Slots, ghost ids: seq<nat>)
    requires policy != []
    ensures |ids| == |Rounds(s)| && forall i :: 0 <= i < |ids| ==> |Rounds(s)[i]| >= 4 && ids[i] == Id(Rounds(s)[i])
    ensures r == 0 || r == -1
    ensures r == 0 <==> PicksPass(Rounds(s), Greedy(policy, ids, 0, 0))
    ensures r == 0 ==> tb == Filled(Greedy(policy, ids, 0, 0), |policy|)
    ensures r == 0 ==> SlotsPass(Rounds(s), tb)
  {
    ghost var all, taken := Rounds(s), [];
    RoundsHaveHeaders(s);
    ids := Ids(all);
    tb := seq(|policy|, _ => None);
    var pos, i: nat := s, 0;
    var n: nat := 0;
    while More(pos)
      invariant n <= |all| && all[n..] == Rounds(pos)
      invariant i == |taken| < |policy| && tb == Filled(taken, |policy|)
      invariant Greedy(policy, ids, 0, 0) == taken + Greedy(policy, ids, i, n)
      invariant PicksPass(all, taken)
      decreases |pos|
    {
      RoundHere(all, n, pos);
      if policy[i] == UNSPEC || Id(pos) == policy[i] {
        if !CheckAttr(pos, false) {
          PickFails(all, taken, n, Greedy(policy, ids, i + 1, n + 1));
          return -1, tb, ids;
        }
        OneMorePasses(all, taken, n);
        NextPick(taken, n, Greedy(policy, ids, i + 1, n + 1));
        FilledMore(taken, n, |policy|);
        tb := tb[i := Some(n)];
        taken := taken + [n];
        i := i + 1;
        if i == |policy| {
          assert Greedy(policy, ids, i, n + 1) == [];
          PickedPass(all, taken, |policy|);
          return 0, tb, ids;
        }
      }
      pos := pos[Pad(RawLen(pos))..];
      n := n + 1;
    }
    assert taken + [] == taken;
    PickedPass(all, taken, |policy|);
    r := 0;
  }

  lemma NextPick(taken: seq<nat>, n: nat, picks: seq<nat>)
    ensures taken + ([n] + picks) == (taken + [n]) + picks
    ensures taken + [n] + [] == taken + [n]
  {
  }

  lemma FilledMore(taken: seq<nat>, n: nat, len: nat)
    requires |taken| < len
    ensures Filled(taken + [n], len) == Filled(taken, len)[|taken| := Some(n)]
  {
  }

  // -------- blobmsg_parse --------

  const CAST_INT64 := 9

  /** struct blobmsg_policy */
  datatype Policy = Policy(name: Option<seq<Byte>>, kind: nat)

  predicate KindAccepts(kind: nat, id: nat) {
    if kind == CAST_INT64 then id == INT64 || id == INT32 || id == INT16 || id == INT8
    else kind == UNSPEC || id == kind
  }

  /** The tests of the inner loop of blobmsg_parse; the length of the policy's name is kept in
      eight bits. */
  predicate Accepts(p: Policy, s: seq<Byte>)
    requires CheckAttr(s, false)
  {
    && Extended(s) && p.name.Some?
    && KindAccepts(p.kind, Id(s))
    && NameLen(s) == |p.name.value| % 256
    && CString(s[6..]) == p.name.value
  }

  /** The name of an attribute, by its stored length. */
  function Name(s: seq<Byte>): seq<Byte>
    requires CheckAttr(s, false) && Extended(s)
  {
    s[6..6 + NameLen(s)]
  }

  lemma {:induction false} CStringEnds(s: seq<Byte>, n: nat)
    requires n < |s| && s[n] == 0
    ensures |CString(s)| <= n && CString(s) == s[..|CString(s)|]
    ensures 0 !in CString(s)
    ensures 0 !in s[..n] ==> |CString(s)| == n
  {
    if s[0] != 0 {
      CStringEnds(s[1..], n - 1);
      assert s[..n][1..] == s[1..][..n - 1];
      assert s[..|CString(s)|] == [s[0]] + s[1..][..|CString(s[1..])|];
    }
  }

  /** A policy accepts just the attributes of an accepted type with its name, provided that the
      name is shorter than 256 bytes; a longer one is never found. */
  lemma AcceptsByName(p: Policy, s: seq<Byte>)
    requires CheckAttr(s, false) && Extended(s) && p.name.Some? && 0 !in p.name.value
    ensures Accepts(p, s) <==> KindAccepts(p.kind, Id(s)) && Name(s) == p.name.value && |p.name.value| < 256
  {
    var n, name := NameLen(s), p.name.value;
    CStringEnds(s[6..], n);
    assert s[6..][..n] == Name(s);
  }

  /** The first of the first `n` attributes that a policy accepts. */
  function First(p: Policy, all: seq<seq<Byte>>, n: nat): (r: Option<nat>)
    requires n <= |all| && forall i :: 0 <= i < n ==> CheckAttr(all[i], false)
    ensures r.Some? ==> r.value < n && Accepts(p, all[r.value]) && forall i :: 0 <= i < r.value ==> !Accepts(p, all[i])
    ensures r.None? ==> forall i :: 0 <= i < n ==> !Accepts(p, all[i])
  {
    if n == 0 then None
    else
      var before := First(p, all, n - 1);
      if before.Some? then before else if Accepts(p, all[n - 1]) then Some(n - 1) else None
  }

  const EINVAL := 22

  /** The inner loop of blobmsg_parse, for attribute number `n`. */
  method Assign(policy: seq<Policy>, s: seq<Byte>, n: nat, tb: Slots) returns (tb': Slots)
    requires |tb| == |policy| && CheckAttr(s, false)
    ensures |tb'| == |policy|
    ensures forall i :: 0 <= i < |policy| ==> tb'[i] == if tb[i].None? && Accepts(policy[i], s) then Some(n) else tb[i]
  {
    tb' := tb;
    if !Extended(s) {
      return;
    }
    var i := 0;
    while i < |policy|
      invariant 0 <= i <= |policy| == |tb'|
      invariant forall k :: 0 <= k < i ==> tb'[k] == if tb[k].None? && Accepts(policy[k], s) then Some(n) else tb[k]
      invariant forall k :: i <= k < |policy| ==> tb'[k] == tb[k]
    {
      if Accepts(policy[i], s) && tb'[i].None? {
        tb' := tb'[i := Some(n)];
      }
      i := i + 1;
    }
  }

  /** blobmsg_parse: unless an attribute fails its check, every slot holds the first attribute
      that its policy accepts. */
  method Parse(policy: seq<Policy>, s: seq<Byte>) returns (r: int, tb: Slots)
    ensures s == [] <==> r == -EINVAL
    ensures s != [] ==> r == if forall i :: 0 <= i < |Rounds(s)| ==> CheckAttr(Rounds(s)[i], false) then 0 else -1
    ensures |tb| == |policy|
    ensures r == 0 ==> forall k :: 0 <= k < |policy| ==> tb[k] == First(policy[k], Rounds(s), |Rounds(s)|)
  {
    tb := seq(|policy|, _ => None);
    if s == [] {
      return -EINVAL, tb;
    }
    ghost var all := Rounds(s);
    var pos := s;
    var n: nat := 0;
    while More(pos)
      invariant n <= |all| && all[n..] == Rounds(pos) && |tb| == |policy|
      invariant forall i :: 0 <= i < n ==> CheckAttr(all[i], false)
      invariant forall k :: 0 <= k < |policy| ==> tb[k] == First(policy[k], all, n)
      decreases |pos|
    {
      RoundHere(all, n, pos);
      if !CheckAttr(pos, false) {
        return -1, tb;
      }
      tb := Assign(policy, pos, n, tb);
      pos := pos[Pad(RawLen(pos))..];
      n := n + 1;
    }
    r := 0;
  }

  // -------- blob_parse_untrusted --------

  /** struct blob_attr_info */
  datatype Info = Info(kind: nat, minlen: nat, maxlen: nat, validate: Option<seq<Byte> -> bool>)

  /** The tests of blob_parse_attr; `s` is all that is left of the list. */
  predicate Valid(s: seq<Byte>, infos: Option<seq<Info>>, max: nat)
    requires infos.Some? ==> |infos.value| == max
  {
    if |s| < ATTR_HEADER || Id(s) >= max then false
    else if RawLen(s) > |s| || RawLen(s) < ATTR_HEADER then false
    else if infos.None? then true
    else
      var info, len := infos.value[Id(s)], RawLen(s);
      && (info.kind < BLOB_LAST ==> CheckType(info.kind, s[ATTR_HEADER..len]))
      && !(info.minlen != 0 && len < info.minlen)
      && !(info.maxlen != 0 && len > info.maxlen)
      && (info.validate.Some? ==> info.validate.value(s[..len]))
  }

  /** The last of the first `n` attributes that is valid and has this id. */
  function Last(id: nat, all: seq<seq<Byte>>, n: nat, infos: Option<seq<Info>>, max: nat): (r: Option<nat>)
    requires n <= |all| && (infos.Some? ==> |infos.value| == max)
    ensures r.Some? ==> r.value < n && Valid(all[r.value], infos, max) && Id(all[r.value]) == id
    ensures forall i :: (if r.Some? then r.value + 1 else 0) <= i < n ==> !(Valid(all[i], infos, max) && Id(all[i]) == id)
  {
    if n == 0 then None
    else if Valid(all[n - 1], infos, max) && Id(all[n - 1]) == id then Some(n - 1)
    else Last(id, all, n - 1, infos, max)
  }

  function CountSet(tb: Slots): (n: nat) {
    if tb == [] then 0 else CountSet(tb[..|tb| - 1]) + if tb[|tb| - 1].Some? then 1 else 0
  }

  lemma {:induction false} CountUpdated(tb: Slots, k: nat, v: nat)
    requires k < |tb|
    ensures CountSet(tb[k := Some(v)]) == CountSet(tb) + if tb[k].Some? then 0 else 1
  {
    var m := |tb| - 1;
    if k < m {
      assert tb[k := Some(v)][..m] == tb[..m][k := Some(v)];
      CountUpdated(tb[..m], k, v);
    } else {
      assert tb[k := Some(v)][..m] == tb[..m];
    }
  }

  lemma {:induction false} CountNone(tb: Slots)
    requires forall i :: 0 <= i < |tb| ==> tb[i].None?
    ensures CountSet(tb) == 0
  {
    if tb != [] {
      CountNone(tb[..|tb| - 1]);
    }
  }

  /** The list that blob_parse_untrusted goes through. */
  function Listed(s: seq<Byte>): seq<seq<Byte>> {
    if |s| < ATTR_HEADER || RawLen(s) > |s| || RawLen(s) < ATTR_HEADER then []
    else Rounds(s[ATTR_HEADER..RawLen(s)])
  }

  /** The loop of blob_parse_untrusted. */
  method ParseList(s: seq<Byte>, infos: Option<seq<Info>>, max: nat) returns (found: nat, tb: Slots)
    requires infos.Some? ==> |infos.value| == max
    ensures |tb| == max && found == CountSet(tb)
    ensures forall id :: 0 <= id < max ==> tb[id] == Last(id, Rounds(s), |Rounds(s)|, infos, max)
  {
    found, tb := 0, seq(max, _ => None);
    CountNone(tb);
    ghost var all := Rounds(s);
    var pos := s;
    var n: nat := 0;
    while More(pos)
      invariant n <= |all| && all[n..] == Rounds(pos) && |tb| == max && found == CountSet(tb)
      invariant forall id :: 0 <= id < max ==> tb[id] == Last(id, all, n, infos, max)
      decreases |pos|
    {
      RoundHere(all, n, pos);
      if Valid(pos, infos, max) {
        var id := Id(pos);
        CountUpdated(tb, id, n);
        if tb[id].None? {
          found := found + 1;
        }
        tb := tb[id := Some(n)];
      }
      pos := pos[Pad(RawLen(pos))..];
      n := n + 1;
    }
    assert Rounds(pos) == [];
    assert n == |all|;
  }

  /** blob_parse_untrusted: every slot holds the last valid attribute with its id, and the
      result is the number of slots that are set.  A claimed length below that of a header
      makes blob_len wrap around; the loop does not begin then. */
  method ParseUntrusted(s: seq<Byte>, infos: Option<seq<Info>>, max: nat) returns (found: nat, tb: Slots)
    requires infos.Some? ==> |infos.value| == max
    ensures |s| >= ATTR_HEADER && RawLen(s) <= |s| ==> |tb| == max && found == CountSet(tb)
    ensures |s| >= ATTR_HEADER && RawLen(s) <= |s| ==>
              forall id :: 0 <= id < max ==> tb[id] == Last(id, Listed(s), |Listed(s)|, infos, max)
    ensures |s| < ATTR_HEADER || RawLen(s) > |s| ==> found == 0
  {
    found, tb := 0, [];
    if |s| < ATTR_HEADER {
      return;
    }
    var len := RawLen(s);
    if |s| < len {
      return;
    }
    var rem := BlobLen(s);
    if rem >= len {
      tb := seq(max, _ => None);
      CountNone(tb);
    } else {
      found, tb := ParseList(s[ATTR_HEADER..len], infos, max);
    }
  }
}
