/** json_script.c: running the commands of a script, which may include other files and include
    each other in a circle.  What a run means is said with the set of the files it has visited;
    the source keeps loaded files in a tree and marks a file with the number of the run. */
module JsonScript {
  import opened Sequences
  import opened JsonExpr

  // -------- what a run means --------

  /** `visited` are the files that are not entered any more, `ran` those this run entered, in
      order, and `calls` what the callbacks have been told. */
  datatype State = State(visited: set<string>, ran: seq<string>, abort: bool, calls: seq<Event>)

  function Told(env: Env, st: State, e: Event): State {
    var calls := st.calls + [e];
    st.(calls := calls, abort := st.abort || env.stops(calls))
  }

  function Tell(env: Env, st: State, e: Event): (r: State)
    requires !e.Command?
    ensures Kept(env, st, r)
  {
    TellKeeps(env, st, e);
    Told(env, st, e)
  }

  function TellAll(env: Env, st: State, es: seq<Event>): (r: State)
    requires forall e :: e in es ==> !e.Command?
    ensures Kept(env, st, r) && r.visited == st.visited && r.ran == st.ran && r.calls == st.calls + es
    decreases |es|
  {
    if es == [] then st
    else
      var st' := Tell(env, st, es[0]);
      var r := TellAll(env, st', es[1..]);
      KeptTwice(env, st, st', r);
      r
  }

  function Entered(st: State, name: string): State {
    st.(visited := st.visited + {name}, ran := st.ran + [name])
  }

  /** json_process_cmd: a block is one command, or a list of blocks.  A negative result of less
      than -1 is that of `return`. */
  function Block(env: Env, st: State, v: Value): (r: (State, int))
    ensures Kept(env, st, r.0) && -2 <= r.1 <= 0
    decreases Left(env, st), v, 3, 0
  {
    if v.Arr? then Items(env, st, v, 0) else (Tell(env, st, Error(UnexpectedType, v)), -1)
  }

  /** The elements of a block from the i-th on. */
  function Items(env: Env, st: State, v: Value, i: nat): (r: (State, int))
    requires v.Arr? && i <= |v.elems|
    ensures Kept(env, st, r.0) && -2 <= r.1 <= 0
    decreases Left(env, st), v, 2, |v.elems| - i
  {
    if i == |v.elems| || st.abort then (st, 0)
    else if i == 0 && v.elems[0].Str? then Single(env, st, v)
    else
      var r := Block(env, st, v.elems[i]);
      if r.1 < -1 then r
      else
        LeftLess(env, st, r.0);
        var rest := Items(env, r.0, v, i + 1);
        KeptTwice(env, st, r.0, rest.0);
        rest
  }

  /** __json_process_cmd */
  function Single(env: Env, st: State, v: Value): (r: (State, int))
    requires v.Arr? && v.elems != [] && v.elems[0].Str? && !st.abort
    ensures Kept(env, st, r.0) && -2 <= r.1 <= 0
    decreases Left(env, st), v, 1, 0
  {
    var name := v.elems[0].text;
    if name == "if" then If(env, st, v)
    else if name == "case" then Case(env, st, v)
    else if name == "return" then (st, -2)
    else if name == "include" then (Include(env, st, v), 0)
    else
      var st' := TellAll(env, st, ArgLooks(env, v.elems[1..]));
      match Args(env, v.elems[1..])
      case None =>
        var r := Tell(env, st', Error(Unterminated, v));
        KeptTwice(env, st, st', r);
        (r, -1)
      case Some(args) =>
        CommandKeeps(env, st, v, args);
        (Told(env, st', Command(name, args)), 0)
  }

  /** handle_if */
  function If(env: Env, st: State, v: Value): (r: (State, int))
    requires v.Arr?
    ensures Kept(env, st, r.0) && -2 <= r.1 <= 0
    decreases Left(env, st), v, 0, 0
  {
    var tb := Slots([AString, AnArray, AnArray, AnArray], v.elems);
    if tb[1].None? || tb[2].None? then (st, 0)
    else
      var o := Eval(env, tb[1].value);
      var st' := TellAll(env, st, o.calls);
      if o.ret < 0 || (o.ret == 0 && tb[3].None?) then (st', 0)
      else
        var r := Block(env, st', if o.ret > 0 then tb[2].value else tb[3].value);
        KeptTwice(env, st, st', r.0);
        r
  }

  /** handle_case */
  function Case(env: Env, st: State, v: Value): (r: (State, int))
    requires v.Arr?
    ensures Kept(env, st, r.0) && -2 <= r.1 <= 0
    decreases Left(env, st), v, 0, 0
  {
    var tb := Slots([AString, AString, ATable], v.elems);
    if tb[1].None? || tb[2].None? then (st, 0)
    else
      var st' := TellAll(env, st, Look(env, tb[1].value.text));
      match FindVar(env, tb[1].value.text)
      case None => (st', 0)
      case Some(text) =>
        var fields := tb[2].value.fields;
        var k := Branch(fields, text);
        if k == |fields| then (st', 0)
        else
          var r := Block(env, st', fields[k].value);
          KeptTwice(env, st, st', r.0);
          r
  }

  /** The first field of that name, or the number of fields. */
  function Branch(fields: seq<Field>, name: string): (k: nat)
    ensures k <= |fields| && (k < |fields| ==> fields[k].name == name)
    ensures forall j :: 0 <= j < k ==> fields[j].name != name
  {
    if fields == [] || fields[0].name == name then 0 else 1 + Branch(fields[1..], name)
  }

  /** handle_include */
  function Include(env: Env, st: State, v: Value): (r: State)
    requires v.Arr?
    ensures Kept(env, st, r)
    decreases Left(env, st), v, 0, 1
  {
    match Slots([AString, AString, Anything], v.elems)[1]
    case Some(name) => Nested(env, st, name.text, v)
    case None => st
  }

  /** __json_script_run of the file of an include, if there is one. */
  function Nested(env: Env, st: State, name: string, v: Value): (r: State)
    ensures Kept(env, st, r)
    decreases Left(env, st), v, 0, 0
  {
    if name !in env.disk then st
    else if name in st.visited then Tell(env, st, Error(RecursiveInclude, v))
    else
      Enters(env, st, name);
      var r := Docs(env, Entered(st, name), env.disk[name], 0);
      KeptTwice(env, st, Entered(st, name), r);
      r
  }

  /** The blocks of a file; what they return does not matter. */
  function Docs(env: Env, st: State, docs: seq<Value>, k: nat): (r: State)
    requires k <= |docs|
    ensures Kept(env, st, r)
    decreases Left(env, st), Arr(docs), 4, |docs| - k
  {
    if k == |docs| then st
    else
      var st' := Block(env, st, docs[k]).0;
      LeftLess(env, st, st');
      var r := Docs(env, st', docs, k + 1);
      KeptTwice(env, st, st', r);
      r
  }

  /** What becomes of an argument of a command, unless it is a string that cannot be expanded. */
  function Arg(env: Env, v: Value): Option<Value> {
    if !v.Str? then Some(v)
    else
      match Expand(env, v.text)
      case None => None
      case Some(text) => Some(Str(text))
  }

  function ArgLook(env: Env, v: Value): (es: seq<Event>)
    ensures forall e :: e in es ==> e.Lookup?
  {
    if v.Str? then Looks(env, v.text) else []
  }

  /** What cmd_process_strings hands over. */
  function Args(env: Env, vs: seq<Value>): Option<seq<Value>> {
    if vs == [] then Some([])
    else if Arg(env, vs[0]).None? then None
    else
      match Args(env, vs[1..])
      case None => None
      case Some(args) => Some([Arg(env, vs[0]).value] + args)
  }

  /** The variables that are looked up for it, up to the string that cannot be expanded. */
  function ArgLooks(env: Env, vs: seq<Value>): (es: seq<Event>)
    ensures forall e :: e in es ==> e.Lookup?
  {
    if vs == [] then []
    else ArgLook(env, vs[0]) + (if Arg(env, vs[0]).None? then [] else ArgLooks(env, vs[1..]))
  }

  /** A whole run, which does not enter the files in `stale`. */
  function WholeRun(env: Env, stale: set<string>, name: string): (r: State)
    requires name in env.disk
    ensures Good(env, r) && stale <= r.visited
  {
    var st := State(stale, [], false, []);
    Starts(env, stale);
    if name in stale then st
    else
      Enters(env, st, name);
      var r := Docs(env, Entered(st, name), env.disk[name], 0);
      KeptTwice(env, st, Entered(st, name), r);
      KeptGood(env, st, r);
      r
  }

  /** `args` stand in front of what becomes of the strings from the k-th on. */
  ghost predicate Rest(env: Env, vs: seq<Value>, k: nat, args: seq<Value>, all: Option<seq<Value>>)
    requires k <= |vs|
  {
    var rest := Args(env, vs[k..]);
    rest.Some? == all.Some? && (rest.Some? ==> args + rest.value == all.value)
  }

  lemma RestMore(env: Env, vs: seq<Value>, k: nat, args: seq<Value>, all: Option<seq<Value>>)
    requires k < |vs| && Rest(env, vs, k, args, all)
    ensures if Arg(env, vs[k]).None? then all.None? else Rest(env, vs, k + 1, args + [Arg(env, vs[k]).value], all)
  {
    assert vs[k..][1..] == vs[k + 1..];
    var rest := Args(env, vs[k + 1..]);
    if Arg(env, vs[k]).Some? && rest.Some? {
      var x := Arg(env, vs[k]).value;
      assert args + ([x] + rest.value) == args + [x] + rest.value;
    }
  }

  lemma TellTwice(env: Env, st: State, a: seq<Event>, b: seq<Event>)
    requires forall e :: e in a + b ==> !e.Command?
    ensures TellAll(env, TellAll(env, st, a), b) == TellAll(env, st, a + b)
    decreases |a|
  {
    if a == [] {
      assert a + b == b;
    } else {
      assert (a + b)[1..] == a[1..] + b;
      TellTwice(env, Told(env, st, a[0]), a[1..], b);
    }
  }

  lemma LooksMore(env: Env, st: State, vs: seq<Value>, k: nat)
    requires k < |vs|
    ensures var st' := TellAll(env, st, ArgLook(env, vs[k]));
            TellAll(env, st, ArgLooks(env, vs[k..]))
            == if Arg(env, vs[k]).None? then st' else TellAll(env, st', ArgLooks(env, vs[k + 1..]))
  {
    assert vs[k..][1..] == vs[k + 1..];
    TellTwice(env, st, ArgLook(env, vs[k]), ArgLooks(env, vs[k + 1..]));
    assert ArgLook(env, vs[k]) + [] == ArgLook(env, vs[k]);
  }

  lemma RestEnd(env: Env, vs: seq<Value>, args: seq<Value>, all: Option<seq<Value>>)
    requires Rest(env, vs, |vs|, args, all)
    ensures all == Some(args)
  {
    assert args + [] == args;
  }

  // -------- termination --------

  /** The files that can still be entered. */
  ghost function Left(env: Env, st: State): nat {
    |env.disk.Keys - st.visited|
  }

  lemma SubsetSmaller<T>(a: set<T>, b: set<T>)
    requires a <= b
    ensures |a| <= |b| && (a != b ==> |a| < |b|)
  {
    assert b == a + (b - a);
  }

  lemma LeftLess(env: Env, st: State, r: State)
    requires Kept(env, st, r)
    ensures Left(env, r) <= Left(env, st)
  {
    assert OpenKept(0);
    SubsetSmaller(env.disk.Keys - r.visited, env.disk.Keys - st.visited);
  }

  lemma Enters(env: Env, st: State, name: string)
    requires name in env.disk && name !in st.visited
    ensures Left(env, Entered(st, name)) < Left(env, st) && Kept(env, st, Entered(st, name))
  {
    var was, now := env.disk.Keys - st.visited, env.disk.Keys - Entered(st, name).visited;
    assert name in was && name !in now;
    SubsetSmaller(now, was);
    assert OpenKept(0);
  }

  // -------- what every run keeps --------

  ghost predicate Stopped(env: Env, calls: seq<Event>, i: nat)
    requires i < |calls|
  {
    env.stops(calls[..i + 1])
  }

  /** Event number `j` is the command of the block `v`: right in front of it are the look-ups for
      the strings of the block, and no callback had stopped the run before these. */
  ghost predicate CalledFor(env: Env, calls: seq<Event>, j: nat, v: Value)
    requires j < |calls|
  {
    && calls[j].Command? && v.Arr? && v.elems != [] && v.elems[0] == Str(calls[j].name)
    && Args(env, v.elems[1..]) == Some(calls[j].args)
    && var looks := ArgLooks(env, v.elems[1..]);
    && |looks| <= j && calls[j - |looks|..j] == looks
    && forall i :: 0 <= i < j - |looks| ==> !Stopped(env, calls, i)
  }

  ghost predicate Called(env: Env, calls: seq<Event>, j: nat)
    requires j < |calls|
  {
    exists v :: CalledFor(env, calls, j, v)
  }

  /** No file is entered twice, only files that exist are, and commands are called only for blocks
      that were begun before a callback stopped the run. */
  ghost predicate Good(env: Env, st: State) {
    && Distinct(st.ran) && (forall n :: n in st.ran ==> n in st.visited && n in env.disk)
    && (!st.abort ==> forall i :: 0 <= i < |st.calls| ==> !Stopped(env, st.calls, i))
    && (forall j :: 0 <= j < |st.calls| && st.calls[j].Command? ==> Called(env, st.calls, j))
  }

  /** The body is sealed as in `BlobFrames.At`. */
  ghost predicate Kept(env: Env, st: State, r: State) {
    SealedKept(env, st, r) == true
  }

  ghost predicate SealedKept(env: Env, st: State, r: State) {
    forall u: nat {:trigger OpenKept(u)} ::
      && st.visited <= r.visited && st.ran <= r.ran && st.calls <= r.calls && (st.abort ==> r.abort)
      && (Good(env, st) ==> Good(env, r))
  }

  ghost predicate OpenKept(u: nat) {
    true
  }

  lemma KeptTwice(env: Env, a: State, b: State, c: State)
    requires Kept(env, a, b) && Kept(env, b, c)
    ensures Kept(env, a, c)
  {
    assert OpenKept(0);
  }

  lemma KeptGood(env: Env, a: State, b: State)
    requires Kept(env, a, b)
    ensures a.visited <= b.visited && (Good(env, a) ==> Good(env, b))
  {
    assert OpenKept(0);
  }

  /** What held of the events so far holds with one more. */
  lemma CalledMore(env: Env, calls: seq<Event>, e: Event)
    requires forall j :: 0 <= j < |calls| && calls[j].Command? ==> Called(env, calls, j)
    ensures var more := calls + [e];
            && (forall i :: 0 <= i < |calls| ==> Stopped(env, more, i) == Stopped(env, calls, i))
            && (forall j :: 0 <= j < |calls| && more[j].Command? ==> Called(env, more, j))
  {
    var more := calls + [e];
    forall i | 0 <= i < |calls|
      ensures Stopped(env, more, i) == Stopped(env, calls, i)
    {
      assert more[..i + 1] == calls[..i + 1];
    }
    forall j | 0 <= j < |calls| && more[j].Command?
      ensures Called(env, more, j)
    {
      assert calls[j].Command? && Called(env, calls, j);
      var v :| CalledFor(env, calls, j, v);
      var n := |ArgLooks(env, v.elems[1..])|;
      assert more[j - n..j] == calls[j - n..j];
      assert CalledFor(env, more, j, v);
    }
  }

  lemma GoodTold(env: Env, st: State, e: Event)
    requires Good(env, st) && (e.Command? ==> Called(env, Told(env, st, e).calls, |st.calls|))
    ensures Good(env, Told(env, st, e))
  {
    var r, n := Told(env, st, e), |st.calls|;
    CalledMore(env, st.calls, e);
    assert r.calls[..n + 1] == r.calls;
  }

  lemma SealKept(env: Env, st: State, r: State)
    requires st.visited <= r.visited && st.ran <= r.ran && st.calls <= r.calls && (st.abort ==> r.abort)
    requires Good(env, st) ==> Good(env, r)
    ensures Kept(env, st, r)
  {
  }

  lemma TellKeeps(env: Env, st: State, e: Event)
    requires !e.Command?
    ensures Kept(env, st, Told(env, st, e))
  {
    if Good(env, st) {
      GoodTold(env, st, e);
    }
    SealKept(env, st, Told(env, st, e));
  }

  lemma CommandKeeps(env: Env, st: State, v: Value, args: seq<Value>)
    requires v.Arr? && v.elems != [] && v.elems[0].Str? && !st.abort && Args(env, v.elems[1..]) == Some(args)
    ensures var st' := TellAll(env, st, ArgLooks(env, v.elems[1..]));
            Kept(env, st, Told(env, st', Command(v.elems[0].text, args)))
  {
    if Good(env, st) {
      CommandGood(env, st, v, args);
    }
    var st', e := TellAll(env, st, ArgLooks(env, v.elems[1..])), Command(v.elems[0].text, args);
    assert st.calls <= st'.calls <= Told(env, st', e).calls;
    SealKept(env, st, Told(env, st', e));
  }

  lemma CommandGood(env: Env, st: State, v: Value, args: seq<Value>)
    requires Good(env, st)
    requires v.Arr? && v.elems != [] && v.elems[0].Str? && !st.abort && Args(env, v.elems[1..]) == Some(args)
    ensures var st' := TellAll(env, st, ArgLooks(env, v.elems[1..]));
            Good(env, Told(env, st', Command(v.elems[0].text, args)))
  {
    var st', e := TellAll(env, st, ArgLooks(env, v.elems[1..])), Command(v.elems[0].text, args);
    KeptGood(env, st, st');
    CommandCalled(env, st, v, args, st'.calls + [e]);
    GoodTold(env, st', e);
  }

  lemma CommandCalled(env: Env, st: State, v: Value, args: seq<Value>, calls: seq<Event>)
    requires Good(env, st) && !st.abort
    requires v.Arr? && v.elems != [] && v.elems[0].Str? && Args(env, v.elems[1..]) == Some(args)
    requires calls == st.calls + ArgLooks(env, v.elems[1..]) + [Command(v.elems[0].text, args)]
    ensures Called(env, calls, |calls| - 1)
  {
    var looks, j := ArgLooks(env, v.elems[1..]), |calls| - 1;
    assert calls[j - |looks|..j] == looks;
    forall i | 0 <= i < j - |looks|
      ensures !Stopped(env, calls, i)
    {
      assert calls[..i + 1] == st.calls[..i + 1];
      assert !Stopped(env, st.calls, i);
    }
    assert CalledFor(env, calls, j, v);
  }

  lemma Starts(env: Env, stale: set<string>)
    ensures Good(env, State(stale, [], false, []))
  {
  }

  // -------- consequences --------

  /** The look-up number `i` for the strings of command number `j` stopped the run. */
  ghost predicate StoppedBy(env: Env, calls: seq<Event>, i: nat, j: nat, v: Value)
    requires i < j < |calls|
  {
    CalledFor(env, calls, j, v) && j - |ArgLooks(env, v.elems[1..])| <= i && Stopped(env, calls, i)
  }

  /** json_script_abort is too late for a command whose strings are being expanded: a command
      follows a stop if and only if a look-up for its own strings was one. */
  lemma CommandAfterStop(env: Env, st: State, j: nat)
    requires Good(env, st) && j < |st.calls| && st.calls[j].Command?
    ensures (exists i :: 0 <= i < j && Stopped(env, st.calls, i)) <==>
            exists i, v :: 0 <= i < j && StoppedBy(env, st.calls, i, j, v)
  {
    var calls := st.calls;
    assert Called(env, calls, j);
    var v :| CalledFor(env, calls, j, v);
    if i :| 0 <= i < j && Stopped(env, calls, i) {
      assert StoppedBy(env, calls, i, j, v);
    }
  }

  /** Nothing but look-ups comes between, and no other command follows. */
  lemma OneCommandAfterStop(env: Env, st: State, i: nat, j: nat)
    requires Good(env, st) && i < j < |st.calls| && Stopped(env, st.calls, i) && st.calls[j].Command?
    ensures forall k :: i <= k < j ==> st.calls[k].Lookup?
    ensures forall k :: j < k < |st.calls| ==> !st.calls[k].Command?
  {
    OnlyLooksBetween(env, st.calls, i, j);
    forall k | j < k < |st.calls|
      ensures !st.calls[k].Command?
    {
      if st.calls[k].Command? {
        OnlyLooksBetween(env, st.calls, i, k);
      }
    }
  }

  lemma OnlyLooksBetween(env: Env, calls: seq<Event>, i: nat, j: nat)
    requires i < j < |calls| && Stopped(env, calls, i) && Called(env, calls, j)
    ensures forall k :: i <= k < j ==> calls[k].Lookup?
  {
    var v :| CalledFor(env, calls, j, v);
    var looks := ArgLooks(env, v.elems[1..]);
    forall k | i <= k < j
      ensures calls[k].Lookup?
    {
      assert calls[k] == calls[j - |looks|..j][k - (j - |looks|)];
      assert calls[k] in looks;
    }
  }

  /** A run whose callback for variables never calls json_script_abort is stopped for good. */
  lemma StopsWhenAsked(env: Env, st: State, i: nat, j: nat)
    requires Good(env, st) && i < j < |st.calls| && Stopped(env, st.calls, i)
    requires forall calls, name :: !env.stops(calls + [Lookup(name)])
    ensures !st.calls[j].Command?
  {
    NotALook(env, st.calls, i);
    if st.calls[j].Command? {
      OnlyLooksBetween(env, st.calls, i, j);
    }
  }

  lemma NotALook(env: Env, calls: seq<Event>, i: nat)
    requires i < |calls| && Stopped(env, calls, i)
    requires forall calls, name :: !env.stops(calls + [Lookup(name)])
    ensures !calls[i].Lookup?
  {
    if calls[i].Lookup? {
      LookLast(calls, i);
    }
  }

  lemma LookLast(calls: seq<Event>, i: nat)
    requires i < |calls| && calls[i].Lookup?
    ensures calls[..i + 1] == calls[..i] + [Lookup(calls[i].name)]
  {
  }

  /** And one whose callback does, for the variable `x`, calls a command that asks for it. */
  lemma AbortIgnored(env: Env, x: string, file: string)
    requires FindIn(env.vars, x).None? && x != "" && '%' !in x && env.stops([Lookup(x)])
    requires file in env.disk && env.disk[file] == [Arr([Str("cmd"), Str("%" + x + "%")])]
    ensures var calls := WholeRun(env, {}, file).calls;
            && calls == [Lookup(x), Command("cmd", [Str(Named(env, x))])]
            && Stopped(env, calls, 0) && calls[1].Command?
  {
    var v, args := Arr([Str("cmd"), Str("%" + x + "%")]), [Str("%" + x + "%")];
    var st := Entered(State({}, [], false, []), file);
    OneArgument(env, x);
    assert v.elems[1..] == args;
    assert [Lookup(x)][1..] == [];
    var st' := TellAll(env, st, [Lookup(x)]);
    assert st'.calls == [Lookup(x)];
    assert Items(env, st, v, 0) == Single(env, st, v);
    var r := WholeRun(env, {}, file);
    assert r.calls == Docs(env, st, env.disk[file], 0).calls;
    assert Docs(env, st, env.disk[file], 0) == Block(env, st, v).0;
    assert r.calls[..1] == [Lookup(x)];
  }

  lemma OneArgument(env: Env, x: string)
    requires FindIn(env.vars, x).None? && x != "" && '%' !in x
    ensures Args(env, [Str("%" + x + "%")]) == Some([Str(Named(env, x))])
    ensures ArgLooks(env, [Str("%" + x + "%")]) == [Lookup(x)]
  {
    var v := Str("%" + x + "%");
    OneVariable(env, x);
    assert [v][1..] == [] && Arg(env, v) == Some(Str(Named(env, x)));
    assert ArgLook(env, v) == [Lookup(x)] && [Lookup(x)] + [] == [Lookup(x)];
    assert [Str(Named(env, x))] + [] == [Str(Named(env, x))];
  }

  lemma OneVariable(env: Env, x: string)
    requires FindIn(env.vars, x).None? && x != "" && '%' !in x
    ensures Expand(env, "%" + x + "%") == Some(Named(env, x))
    ensures Looks(env, "%" + x + "%") == [Lookup(x)]
  {
    PiecesOfVariable(x);
    FilledVariable(env, x);
  }

  lemma FilledVariable(env: Env, x: string)
    requires FindIn(env.vars, x).None? && x != ""
    ensures Filled(env, ["", x, ""], false) == Named(env, x)
    ensures LooksIn(env, ["", x, ""], false) == [Lookup(x)]
  {
    var ps, qs := ["", x, ""], [x, ""];
    assert ps[1..] == qs && qs[1..] == [""] && [""][1..] == [];
    FilledOne(env, "");
    var text := Named(env, x);
    assert Filled(env, qs, true) == text + Filled(env, [""], false) == text;
    assert Filled(env, ps, false) == "" + Filled(env, qs, true);
    assert LooksIn(env, [""], false) == [];
    assert LooksIn(env, qs, true) == [Lookup(x)] + LooksIn(env, [""], false);
    assert LooksIn(env, ps, false) == [] + LooksIn(env, qs, true);
  }

  lemma PiecesOfVariable(x: string)
    requires '%' !in x
    ensures Pieces("%" + x + "%") == ["", x, ""]
  {
    var s, t := "%" + x + "%", x + "%";
    assert s[0] == '%' && s[1..] == t && s[..0] == "";
    PiecesCut(s, 0);
    assert t[..|x|] == x && t[|x| + 1..] == "";
    PiecesCut(t, |x|);
    assert Pieces("") == [""];
    assert [""] + ([x] + [""]) == ["", x, ""];
  }

  const RETURN := Arr([Str("return")])

  /** What stands behind a `return` in a block is dead. */
  lemma {:induction false} ReturnEnds(env: Env, st: State, a: seq<Value>, b: seq<Value>, i: nat)
    requires i <= |a| && (a != [] ==> !a[0].Str?)
    ensures Items(env, st, Arr(a + [RETURN] + b), i) == Items(env, st, Arr(a + [RETURN]), i)
    decreases |a| - i
  {
    var v, w := Arr(a + [RETURN] + b), Arr(a + [RETURN]);
    assert v.elems[i] == w.elems[i] == (a + [RETURN])[i];
    if !st.abort {
      var r := Block(env, st, v.elems[i]);
      if i < |a| {
        if r.1 >= -1 {
          ReturnEnds(env, r.0, a, b, i + 1);
        }
      } else {
        assert Items(env, st, RETURN, 0) == Single(env, st, RETURN) == (st, -2);
      }
    }
  }

  /** A second include of the same file only tells of the mistake. */
  lemma IncludedTwice(env: Env, st: State, v: Value, w: Value)
    requires v.Arr? && w.Arr? && Name(v).Some? && Name(v) == Name(w) && Name(v).value in env.disk
    ensures var r := Include(env, st, v);
            Include(env, r, w) == Tell(env, r, Error(RecursiveInclude, w))
  {
    var name, r := Name(v).value, Include(env, st, v);
    if name in st.visited {
      KeptGood(env, st, r);
    } else {
      KeptGood(env, Entered(st, name), r);
    }
  }

  /** The file of an include. */
  function Name(v: Value): Option<string>
    requires v.Arr?
  {
    match Slots([AString, AString, Anything], v.elems)[1]
    case None => None
    case Some(name) => Some(name.text)
  }

  // -------- the run of json_script.c --------

  const RANGE := 0x1_0000_0000

  /** struct json_script_file: the blocks of a chain of files, and the last run that entered it. */
  datatype File = File(docs: seq<Value>, seq_: nat)

  ghost function Marked(files: map<string, File>, seq_: nat): set<string> {
    set n | n in files && files[n].seq_ == seq_
  }

  /** No run but those up to `seq_` has left its mark. */
  ghost predicate NotWrapped(files: map<string, File>, seq_: nat) {
    forall n :: n in files ==> files[n].seq_ <= seq_
  }

  /** The number of the next run, an unsigned int that skips zero. */
  function Next(n: nat): (r: nat) {
    if (n + 1) % RANGE == 0 then (n + 2) % RANGE else (n + 1) % RANGE
  }

  class Script {
    const env: Env
    /** ctx->files, keyed by name. */
    var files: map<string, File>
    /** The number of the run. */
    var seq_: nat
    var abort: bool
    /** What this run has told the callbacks. */
    var calls: seq<Event>
    ghost var ran: seq<string>
    /** Whether the number has come round. */
    ghost var wrapped: bool

    ghost predicate Valid()
      reads this
    {
      && seq_ < RANGE
      && (forall n :: n in files ==> n in env.disk && files[n].docs == env.disk[n] && files[n].seq_ < RANGE)
      && (wrapped || NotWrapped(files, seq_))
    }

    ghost function Now(): State
      reads this
    {
      State(Marked(files, seq_), ran, abort, calls)
    }

    constructor (env: Env)
      ensures Valid() && this.env == env && files == map[] && seq_ == 0 && !wrapped
    {
      this.env, files, seq_, abort, calls, ran, wrapped := env, map[], 0, false, [], [], false;
    }

    /** A callback is called. */
    method Call(e: Event)
      modifies this`abort, this`calls
      ensures Now() == Told(env, old(Now()), e)
    {
      calls := calls + [e];
      if env.stops(calls) {
        abort := true;
      }
    }

    method CallAll(es: seq<Event>)
      requires forall e :: e in es ==> !e.Command?
      modifies this`abort, this`calls
      ensures Now() == TellAll(env, old(Now()), es)
    {
      var k := 0;
      while k < |es|
        invariant k <= |es| && files == old(files)
        invariant TellAll(env, Now(), es[k..]) == TellAll(env, old(Now()), es)
      {
        assert es[k..][1..] == es[k + 1..];
        Call(es[k]);
        k := k + 1;
      }
    }

    /** json_process_expr; what it tells comes out of the evaluation. */
    method Process(v: Value) returns (ret: int)
      modifies this`abort, this`calls
      ensures ret == Eval(env, v).ret && Now() == TellAll(env, old(Now()), Eval(env, v).calls)
    {
      var o := Eval(env, v);
      ret := o.ret;
      CallAll(o.calls);
    }

    /** json_process_cmd */
    method ProcessCmd(block: Value) returns (ret: int)
      requires Valid() && seq_ > 0
      modifies this`files, this`abort, this`calls, this`ran
      ensures Valid() && (Now(), ret) == Block(env, old(Now()), block)
      decreases Left(env, Now()), block, 3, 0
    {
      if !block.Arr? {
        Call(Error(UnexpectedType, block));
        return -1;
      }
      var i, done := 0, false;
      ret := 0;
      while i < |block.elems| && !done
        invariant Valid() && i <= |block.elems| && seq_ > 0 && Left(env, Now()) <= Left(env, old(Now()))
        invariant Items(env, old(Now()), block, 0) == if done then (Now(), ret) else Items(env, Now(), block, i)
      {
        ret, done := ProcessElement(block, i);
        i := i + 1;
      }
      if !done {
        ret := 0;
      }
    }

    /** One round of the loop in json_process_cmd, which may be the last. */
    method ProcessElement(block: Value, i: nat) returns (ret: int, done: bool)
      requires Valid() && seq_ > 0 && block.Arr? && i < |block.elems|
      modifies this`files, this`abort, this`calls, this`ran
      ensures Valid() && Left(env, Now()) <= Left(env, old(Now()))
      ensures Items(env, old(Now()), block, i) == if done then (Now(), ret) else Items(env, Now(), block, i + 1)
      decreases Left(env, Now()), block, 2, |block.elems| - i
    {
      if abort {
        return 0, true;
      }
      var cur := block.elems[i];
      ghost var was := Now();
      if cur.Str? && i == 0 {
        ret := ProcessSingle(block);
        LeftLess(env, was, Now());
        return ret, true;
      }
      ret := ProcessCmd(cur);
      LeftLess(env, was, Now());
      done := ret < -1;
    }

    /** __json_process_cmd */
    method ProcessSingle(cur: Value) returns (ret: int)
      requires Valid() && seq_ > 0 && cur.Arr? && cur.elems != [] && cur.elems[0].Str? && !abort
      modifies this`files, this`abort, this`calls, this`ran
      ensures Valid() && (Now(), ret) == Single(env, old(Now()), cur)
      decreases Left(env, Now()), cur, 1, 0
    {
      var name := cur.elems[0].text;
      if name == "if" {
        ret := HandleIf(cur);
      } else if name == "case" {
        ret := HandleCase(cur);
      } else if name == "return" {
        ret := -2;
      } else if name == "include" {
        HandleInclude(cur);
        ret := 0;
      } else {
        var args;
        ret, args := ProcessStrings(cur);
        if ret == 0 {
          Call(Command(name, args));
        }
      }
    }

    /** cmd_process_strings */
    method ProcessStrings(attr: Value) returns (ret: int, args: seq<Value>)
      requires attr.Arr? && attr.elems != []
      modifies this`abort, this`calls
      ensures var all := Args(env, attr.elems[1..]);
              && ret == (if all.Some? then 0 else -1) && (all.Some? ==> args == all.value)
              && var st := TellAll(env, old(Now()), ArgLooks(env, attr.elems[1..]));
              Now() == if all.Some? then st else Told(env, st, Error(Unterminated, attr))
    {
      args := [];
      var k := 1;
      ghost var all, st := Args(env, attr.elems[1..]), TellAll(env, Now(), ArgLooks(env, attr.elems[1..]));
      while k < |attr.elems|
        invariant 1 <= k <= |attr.elems| && files == old(files)
        invariant Rest(env, attr.elems, k, args, all) && TellAll(env, Now(), ArgLooks(env, attr.elems[k..])) == st
      {
        RestMore(env, attr.elems, k, args, all);
        LooksMore(env, Now(), attr.elems, k);
        var r, arg := ProcessString(attr.elems[k]);
        if r != 0 {
          Call(Error(Unterminated, attr));
          ret := -1;
          return;
        }
        args := args + [arg];
        k := k + 1;
      }
      RestEnd(env, attr.elems, args, all);
      ret := 0;
    }

    /** One round of cmd_process_strings. */
    method ProcessString(cur: Value) returns (ret: int, arg: Value)
      modifies this`abort, this`calls
      ensures ret == if Arg(env, cur).Some? then 0 else -1
      ensures ret == 0 ==> arg == Arg(env, cur).value
      ensures Now() == TellAll(env, old(Now()), ArgLook(env, cur))
    {
      match cur {
        case Str(pattern) =>
          var dest, looks;
          ret, dest, looks := EvalString(env, pattern);
          arg := Str(dest);
          CallAll(looks);
        case other =>
          ret, arg := 0, other;
      }
    }

    method HandleIf(expr: Value) returns (ret: int)
      requires Valid() && seq_ > 0 && expr.Arr?
      modifies this`files, this`abort, this`calls, this`ran
      ensures Valid() && (Now(), ret) == If(env, old(Now()), expr)
      decreases Left(env, Now()), expr, 0, 0
    {
      var tb := Slots([AString, AnArray, AnArray, AnArray], expr.elems);
      if tb[1].None? || tb[2].None? {
        return 0;
      }
      ret := Process(tb[1].value);
      if ret < 0 {
        return 0;
      }
      if ret > 0 {
        ret := ProcessCmd(tb[2].value);
      } else if tb[3].Some? {
        ret := ProcessCmd(tb[3].value);
      }
    }

    method HandleCase(expr: Value) returns (ret: int)
      requires Valid() && seq_ > 0 && expr.Arr?
      modifies this`files, this`abort, this`calls, this`ran
      ensures Valid() && (Now(), ret) == Case(env, old(Now()), expr)
      decreases Left(env, Now()), expr, 0, 0
    {
      var tb := Slots([AString, AString, ATable], expr.elems);
      if tb[1].None? || tb[2].None? {
        return 0;
      }
      CallAll(Look(env, tb[1].value.text));
      match FindVar(env, tb[1].value.text) {
        case None =>
          ret := 0;
        case Some(text) =>
          var fields := tb[2].value.fields;
          var k := 0;
          while k < |fields| && fields[k].name != text
            invariant k <= |fields| && Branch(fields, text) == k + Branch(fields[k..], text)
          {
            assert fields[k..][1..] == fields[k + 1..];
            k := k + 1;
          }
          if k < |fields| {
            ret := ProcessCmd(fields[k].value);
          } else {
            ret := 0;
          }
      }
    }

    method HandleInclude(expr: Value)
      requires Valid() && seq_ > 0 && expr.Arr?
      modifies this`files, this`abort, this`calls, this`ran
      ensures Valid() && Now() == Include(env, old(Now()), expr)
      decreases Left(env, Now()), expr, 0, 1
    {
      var tb := Slots([AString, AString, Anything], expr.elems);
      if tb[1].Some? {
        var found := GetFile(tb[1].value.text);
        if found {
          RunNested(tb[1].value.text, expr);
        }
      }
    }

    /** __json_script_run */
    method RunNested(name: string, context: Value)
      requires Valid() && seq_ > 0 && name in files
      modifies this`files, this`abort, this`calls, this`ran
      ensures Valid() && Now() == Nested(env, old(Now()), name, context)
      decreases Left(env, Now()), context, 0, 0
    {
      if files[name].seq_ == seq_ {
        Call(Error(RecursiveInclude, context));
      } else {
        Enters(env, Now(), name);
        Enter(name);
        RunDocs(files[name].docs);
      }
    }

    /** json_script_get_file: loaded files are kept. */
    method GetFile(name: string) returns (found: bool)
      requires Valid()
      modifies this`files
      ensures Valid() && found == (name in env.disk) && (found ==> name in files)
      ensures !found ==> files == old(files)
      ensures forall s :: s > 0 ==> Marked(files, s) == Marked(old(files), s)
    {
      if name in files {
        return true;
      }
      if name !in env.disk {
        return false;
      }
      files := files[name := File(env.disk[name], 0)];
      found := true;
    }

    /** The mark of this run. */
    method Enter(name: string)
      requires Valid() && name in files
      modifies this`files, this`ran
      ensures Valid() && Now() == Entered(old(Now()), name) && files.Keys == old(files.Keys)
    {
      files := files[name := files[name].(seq_ := seq_)];
      ran := ran + [name];
    }

    /** The loop of __json_script_run. */
    method RunDocs(docs: seq<Value>)
      requires Valid() && seq_ > 0
      modifies this`files, this`abort, this`calls, this`ran
      ensures Valid() && Now() == Docs(env, old(Now()), docs, 0)
      decreases Left(env, Now()), Arr(docs), 4, |docs|
    {
      var k := 0;
      while k < |docs|
        invariant Valid() && k <= |docs| && seq_ > 0 && Left(env, Now()) <= Left(env, old(Now()))
        invariant Docs(env, Now(), docs, k) == Docs(env, old(Now()), docs, 0)
      {
        ghost var was := Now();
        var ret := ProcessCmd(docs[k]);
        LeftLess(env, was, Now());
        k := k + 1;
      }
    }

    /** A number no file carries, until it has come round. */
    method Begin()
      requires Valid()
      modifies this`seq_, this`abort, this`calls, this`ran, this`wrapped
      ensures Valid() && seq_ == Next(old(seq_)) && Now() == State(Marked(files, seq_), [], false, [])
      ensures !old(wrapped) && old(seq_) + 1 < RANGE ==> !wrapped && Marked(files, seq_) == {}
    {
      wrapped := wrapped || seq_ + 1 == RANGE;
      seq_ := (seq_ + 1) % RANGE;
      if seq_ == 0 {
        seq_ := (seq_ + 1) % RANGE;
      }
      abort, calls, ran := false, [], [];
    }

    /** __json_script_run of the file a run begins with. */
    method RunFirst(name: string)
      requires Valid() && seq_ > 0 && name in files && Now() == State(Marked(files, seq_), [], false, [])
      modifies this`files, this`abort, this`calls, this`ran
      ensures Valid() && Now() == WholeRun(env, Marked(old(files), seq_), name)
    {
      if files[name].seq_ != seq_ {
        Enter(name);
        RunDocs(files[name].docs);
      }
    }

    /** json_script_run.  The loaded files make no difference, unless one of them carries the number
        of this run, which takes more than four billion runs. */
    method Run(name: string)
      requires Valid()
      modifies this
      ensures Valid()
      ensures name !in env.disk ==> files == old(files) && seq_ == old(seq_) && Now() == old(Now())
      ensures name in env.disk ==>
              && seq_ == Next(old(seq_)) && Now() == WholeRun(env, Marked(old(files), seq_), name)
      ensures name in env.disk && !old(wrapped) && old(seq_) + 1 < RANGE ==>
              && !wrapped && Now() == WholeRun(env, {}, name)
    {
      var found := GetFile(name);
      if found {
        Begin();
        RunFirst(name);
      }
    }
  }
}
