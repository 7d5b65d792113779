/** json_script.c: the expressions of a script, and the variables in its strings. */
module JsonExpr {
  import opened Sequences

  /** A script is a message: what matters of an attribute. */
  datatype Value = Str(text: string) | Arr(elems: seq<Value>) | Table(fields: seq<Field>) | Other(kind: nat)

  datatype Field = Field(name: string, value: Value)

  /** What a script tells its caller, whose callbacks may call json_script_abort each time. */
  datatype Event =
    | Command(name: string, args: seq<Value>)
    | UnknownExpr(name: string, at: Value)
    | Lookup(name: string)
    | Error(what: Problem, at: Value)

  datatype Problem = UnexpectedType | Unterminated | RecursiveInclude

  /** The variables of a run, and what lies outside of a script: other variables, matching of
      regular expressions, directories, and the files that can be loaded, each a chain of blocks.
      `stops` says after which events a callback calls json_script_abort. */
  datatype Env = Env(vars: seq<Field>, handleVar: string -> Option<string>, matches: (string, string) -> bool,
                     isDir: string -> bool, disk: map<string, seq<Value>>, stops: seq<Event> -> bool)

  // -------- json_get_tuple --------

  datatype Want = Anything | AString | AnArray | ATable

  predicate Fits(w: Want, v: Value) {
    match w
    case Anything => true
    case AString => v.Str?
    case AnArray => v.Arr?
    case ATable => v.Table?
  }

  /** blobmsg_parse_array on a script's own attributes. */
  function Slots(want: seq<Want>, vs: seq<Value>): (tb: seq<Option<Value>>)
    ensures |tb| == |want|
    ensures forall i :: 0 <= i < |tb| && tb[i].Some? ==> tb[i].value in vs && Fits(want[i], tb[i].value)
    decreases |vs|
  {
    if want == [] then []
    else if vs == [] then seq(|want|, i => None)
    else if Fits(want[0], vs[0]) then [Some(vs[0])] + Slots(want[1..], vs[1..])
    else Slots(want, vs[1..])
  }

  // -------- variables --------

  /** The first string of that name. */
  function FindIn(vars: seq<Field>, name: string): Option<string> {
    if vars == [] then None
    else if vars[0].value.Str? && vars[0].name == name then Some(vars[0].value.text)
    else FindIn(vars[1..], name)
  }

  /** json_script_find_var */
  function FindVar(env: Env, name: string): Option<string> {
    match FindIn(env.vars, name)
    case Some(text) => Some(text)
    case None => env.handleVar(name)
  }

  /** The callback for a variable is called only for one that the run does not have. */
  function Look(env: Env, name: string): (es: seq<Event>)
    ensures forall e :: e in es ==> e.Lookup?
  {
    if FindIn(env.vars, name).Some? then [] else [Lookup(name)]
  }

  // -------- strings with variables --------

  function Truth(b: bool): int {
    if b then 1 else 0
  }

  /** The pieces between the percent signs. */
  function Pieces(s: string): (ps: seq<string>)
    ensures |ps| > 0
  {
    if s == "" then [""]
    else
      var ps := Pieces(s[1..]);
      if s[0] == '%' then [""] + ps else [[s[0]] + ps[0]] + ps[1..]
  }

  function Joined(ps: seq<string>): string
    requires ps != []
  {
    if |ps| == 1 then ps[0] else ps[0] + "%" + Joined(ps[1..])
  }

  /** They are what they should be. */
  lemma {:induction false} PiecesSplit(s: string)
    ensures Joined(Pieces(s)) == s
    ensures forall p :: p in Pieces(s) ==> '%' !in p
  {
    if s != "" {
      PiecesSplit(s[1..]);
      var ps := Pieces(s[1..]);
      if s[0] == '%' {
        assert ([""] + ps)[1..] == ps;
        assert "" + "%" + s[1..] == s;
      } else {
        assert ([[s[0]] + ps[0]] + ps[1..])[1..] == ps[1..];
        assert [s[0]] + s[1..] == s;
      }
    }
  }

  /** What stands between two percent signs: a variable, or nothing for a percent sign. */
  function Named(env: Env, name: string): string {
    if name == "" then "%"
    else match FindVar(env, name) case Some(text) => text case None => ""
  }

  /** Every other piece is a variable; `var_` says whether the first one is. */
  function Filled(env: Env, ps: seq<string>, var_: bool): string {
    if ps == [] then ""
    else (if var_ then Named(env, ps[0]) else ps[0]) + Filled(env, ps[1..], !var_)
  }

  /** The variables that are looked up for it; all are, also in front of a lonely percent sign. */
  function LooksIn(env: Env, ps: seq<string>, var_: bool): (es: seq<Event>)
    ensures forall e :: e in es ==> e.Lookup?
  {
    if ps == [] then []
    else LookAt(env, ps[0], var_) + LooksIn(env, ps[1..], !var_)
  }

  function LookAt(env: Env, p: string, var_: bool): (es: seq<Event>)
    ensures forall e :: e in es ==> e.Lookup?
  {
    if var_ && p != "" then Look(env, p) else []
  }

  function Looks(env: Env, pattern: string): (es: seq<Event>)
    ensures forall e :: e in es ==> e.Lookup?
  {
    LooksIn(env, Pieces(pattern), false)
  }

  /** A string with its variables replaced, unless the last percent sign has no partner. */
  function Expand(env: Env, pattern: string): Option<string> {
    var ps := Pieces(pattern);
    if |ps| % 2 == 1 then Some(Filled(env, ps, false)) else None
  }

  lemma {:induction false} PiecesCut(s: string, i: nat)
    requires i <= |s| && '%' !in s[..i] && (i < |s| ==> s[i] == '%')
    ensures Pieces(s) == if i < |s| then [s[..i]] + Pieces(s[i + 1..]) else [s]
  {
    if i > 0 {
      var t := s[1..];
      assert forall k :: 0 <= k < i - 1 ==> t[k] == s[..i][k + 1];
      PiecesCut(t, i - 1);
      assert s[0] == s[..i][0];
      assert [s[0]] + t[..i - 1] == s[..i];
      assert i < |s| ==> t[i..] == s[i + 1..];
      assert [s[0]] + t == s;
    } else if s != "" {
      assert s[..0] == "";
    }
  }

  /** strchr, with the end of the string instead of NULL. */
  method NextPercent(s: string) returns (i: nat)
    ensures i <= |s| && '%' !in s[..i] && (i < |s| ==> s[i] == '%')
  {
    i := 0;
    while i < |s| && s[i] != '%'
      invariant i <= |s| && '%' !in s[..i]
    {
      i := i + 1;
    }
  }

  function Piece(env: Env, p: string, var_: bool): string {
    if var_ then Named(env, p) else p
  }

  /** No percent sign is left without a partner. */
  ghost predicate Ended(s: string, var_: bool) {
    (|Pieces(s)| % 2 == 1) != var_
  }

  lemma EndedCut(s: string, i: nat, var_: bool)
    requires i <= |s| && '%' !in s[..i] && (i < |s| ==> s[i] == '%')
    ensures Ended(s, var_) == if i < |s| then Ended(s[i + 1..], !var_) else !var_
  {
    PiecesCut(s, i);
    if i < |s| {
      var n := |Pieces(s[i + 1..])|;
      assert |Pieces(s)| == n + 1;
      OddNext(n);
    } else {
      assert |Pieces(s)| == 1;
    }
  }

  lemma OddNext(n: nat)
    ensures (n + 1) % 2 == 1 <==> n % 2 != 1
  {
  }

  /** The first piece, with `x` in front of all. */
  lemma FilledCut(env: Env, s: string, i: nat, var_: bool, x: string)
    requires i <= |s| && '%' !in s[..i] && (i < |s| ==> s[i] == '%')
    ensures x + Filled(env, Pieces(s), var_) ==
            x + Piece(env, s[..i], var_) + if i < |s| then Filled(env, Pieces(s[i + 1..]), !var_) else ""
  {
    PiecesCut(s, i);
    var ps := Pieces(s);
    var rest: seq<string> := if i < |s| then Pieces(s[i + 1..]) else [];
    assert ps[0] == s[..i] && ps[1..] == rest;
    Associate(x, Piece(env, s[..i], var_), Filled(env, rest, !var_));
  }

  lemma LooksCut(env: Env, s: string, i: nat, var_: bool, x: seq<Event>)
    requires i <= |s| && '%' !in s[..i] && (i < |s| ==> s[i] == '%')
    ensures x + LooksIn(env, Pieces(s), var_) ==
            x + LookAt(env, s[..i], var_) + if i < |s| then LooksIn(env, Pieces(s[i + 1..]), !var_) else []
  {
    PiecesCut(s, i);
    var ps := Pieces(s);
    var rest: seq<string> := if i < |s| then Pieces(s[i + 1..]) else [];
    assert ps[0] == s[..i] && ps[1..] == rest;
    Associate(x, LookAt(env, s[..i], var_), LooksIn(env, rest, !var_));
  }

  /** eval_string, with the variables that it looks up. */
  method EvalString(env: Env, pattern: string) returns (ret: int, dest: string, looks: seq<Event>)
    ensures ret == if Expand(env, pattern).Some? then 0 else -1
    ensures ret == 0 ==> dest == Expand(env, pattern).value
    ensures looks == Looks(env, pattern)
  {
    looks := [];
    ghost var told := LooksIn(env, Pieces(pattern), false);
    assert looks + told == told;
    dest := "";
    var var_ := false;
    var str, more := pattern, true;
    ghost var all, good := Filled(env, Pieces(pattern), false), Ended(pattern, false);
    assert dest + all == all;
    while more
      invariant more ==> all == dest + Filled(env, Pieces(str), var_) && good == Ended(str, var_)
      invariant told == if more then looks + LooksIn(env, Pieces(str), var_) else looks
      invariant !more ==> dest == all && good == !var_
      decreases more, |str|
    {
      var end := NextPercent(str);
      EndedCut(str, end, var_);
      FilledCut(env, str, end, var_, dest);
      LooksCut(env, str, end, var_, looks);
      looks := looks + LookAt(env, str[..end], var_);
      dest := dest + Piece(env, str[..end], var_);
      if end < |str| {
        str := str[end + 1..];
        var_ := !var_;
      } else {
        more := false;
      }
    }
    ret := if var_ then -1 else 0;
  }

  /** Twice as many percent signs. */
  function Escape(s: string): string {
    if s == "" then "" else (if s[0] == '%' then "%%" else [s[0]]) + Escape(s[1..])
  }

  /** The last piece of the one and the first of the other become one. */
  function Glue(ps: seq<string>, qs: seq<string>): (r: seq<string>)
    requires ps != [] && qs != []
    ensures |r| == |ps| + |qs| - 1
  {
    ps[..|ps| - 1] + [ps[|ps| - 1] + qs[0]] + qs[1..]
  }

  lemma GlueBehind(p: string, ps: seq<string>, qs: seq<string>)
    requires ps != [] && qs != []
    ensures Glue([p] + ps, qs) == [p] + Glue(ps, qs)
  {
    assert ([p] + ps)[..|ps|] == [p] + ps[..|ps| - 1];
  }

  lemma GlueChar(c: char, ps: seq<string>, qs: seq<string>)
    requires ps != [] && qs != []
    ensures Glue([[c] + ps[0]] + ps[1..], qs) == [[c] + Glue(ps, qs)[0]] + Glue(ps, qs)[1..]
  {
    if |ps| == 1 {
      assert ps[..0] == [] && Glue(ps, qs) == [ps[0] + qs[0]] + qs[1..];
      assert [c] + (ps[0] + qs[0]) == ([c] + ps[0]) + qs[0];
    } else {
      GlueBehind([c] + ps[0], ps[1..], qs);
      GlueBehind(ps[0], ps[1..], qs);
      assert ps == [ps[0]] + ps[1..];
    }
  }

  lemma {:induction false} PiecesJoined(a: string, b: string)
    ensures Pieces(a + b) == Glue(Pieces(a), Pieces(b))
  {
    if a == "" {
      assert a + b == b;
      assert "" + Pieces(b)[0] == Pieces(b)[0];
    } else {
      var ps, qs := Pieces(a[1..]), Pieces(b);
      assert (a + b)[1..] == a[1..] + b;
      PiecesJoined(a[1..], b);
      if a[0] == '%' {
        GlueBehind("", ps, qs);
      } else {
        GlueChar(a[0], ps, qs);
      }
    }
  }

  lemma {:induction false} FilledJoined(env: Env, ps: seq<string>, qs: seq<string>, var_: bool)
    ensures Filled(env, ps + qs, var_) == Filled(env, ps, var_) + Filled(env, qs, var_ == (|ps| % 2 == 0))
  {
    if ps == [] {
      assert ps + qs == qs;
    } else {
      assert (ps + qs)[1..] == ps[1..] + qs;
      FilledJoined(env, ps[1..], qs, !var_);
    }
  }

  lemma FilledOne(env: Env, p: string)
    ensures Filled(env, [p], false) == p
  {
  }

  lemma OddGlued(n: nat, m: nat)
    requires n % 2 == 1 && m % 2 == 1
    ensures (n + m - 1) % 2 == 1
  {
  }

  /** Strings can be put together before or after their variables are replaced. */
  lemma ExpandJoined(env: Env, a: string, b: string)
    requires Expand(env, a).Some? && Expand(env, b).Some?
    ensures Expand(env, a + b) == Some(Expand(env, a).value + Expand(env, b).value)
  {
    var ps, qs := Pieces(a), Pieces(b);
    PiecesJoined(a, b);
    OddGlued(|ps|, |qs|);
    FilledGlued(env, ps, qs);
  }

  lemma Middle(a: string, b: string, c: string, d: string)
    ensures a + (b + c) + d == (a + b) + (c + d)
  {
  }

  lemma FilledGlued(env: Env, ps: seq<string>, qs: seq<string>)
    requires |ps| % 2 == 1 && qs != []
    ensures Filled(env, Glue(ps, qs), false) == Filled(env, ps, false) + Filled(env, qs, false)
  {
    var front, last, rest := ps[..|ps| - 1], ps[|ps| - 1], qs[1..];
    assert ps == front + [last];
    FilledJoined(env, front, [last], false);
    FilledOne(env, last);
    FilledJoined(env, front, [last + qs[0]], false);
    FilledOne(env, last + qs[0]);
    FilledJoined(env, front + [last + qs[0]], rest, false);
    var x, y := Filled(env, front, false), Filled(env, rest, true);
    assert Filled(env, qs, false) == qs[0] + y;
    Middle(x, last, qs[0], y);
  }

  lemma ExpandChar(env: Env, c: char)
    ensures Expand(env, if c == '%' then "%%" else [c]) == Some([c])
  {
    if c == '%' {
      assert "%%"[1..] == "%" && "%"[1..] == "";
      assert Pieces("%") == ["", ""] && Pieces("%%") == ["", "", ""];
      var ps := ["", "", ""];
      assert ps[1..] == ["", ""] && ["", ""][1..] == [""];
      FilledOne(env, "");
      assert Filled(env, ["", ""], true) == "%" + Filled(env, [""], false);
      assert Filled(env, ps, false) == "" + Filled(env, ["", ""], true) == "%";
      assert Pieces("%%") == ps;
      assert Expand(env, "%%") == Some("%");
      assert [c] == "%";
    } else {
      assert [c][1..] == "" && [c] + "" == [c];
      assert Pieces([c]) == [[c]];
      FilledOne(env, [c]);
    }
  }

  /** Any text can be put into a script. */
  lemma {:induction false} EscapeExpands(env: Env, s: string)
    ensures Expand(env, Escape(s)) == Some(s)
  {
    if s == "" {
      FilledOne(env, "");
    } else {
      EscapeExpands(env, s[1..]);
      ExpandChar(env, s[0]);
      ExpandJoined(env, if s[0] == '%' then "%%" else [s[0]], Escape(s[1..]));
      assert [s[0]] + s[1..] == s;
    }
  }

  // -------- expressions --------

  /** The result of an expression, negative for an error, and what its callbacks are told. */
  datatype Outcome = Outcome(ret: int, calls: seq<Event>)

  function Eval(env: Env, v: Value): (o: Outcome)
    ensures -1 <= o.ret <= 1
    ensures forall e :: e in o.calls ==> !e.Command?
    decreases v, 1, 0
  {
    if !v.Arr? || v.elems == [] || !v.elems[0].Str? then Outcome(-1, [Error(UnexpectedType, v)])
    else
      var name := v.elems[0].text;
      if name == "eq" then Compare(env, v.elems, false)
      else if name == "regex" then Compare(env, v.elems, true)
      else if name == "has" then Has(env, v.elems)
      else if name == "and" then AndOr(env, v, 1, 1)
      else if name == "or" then AndOr(env, v, 1, 0)
      else if name == "not" then Not(env, v)
      else if name == "isdir" then IsDir(env, v.elems)
      else Outcome(-1, [UnknownExpr(name, v)])
  }

  function Same(env: Env, text: string, pattern: string, regex: bool): bool {
    if regex then env.matches(text, pattern) else text == pattern
  }

  /** expr_eq_regex */
  function Compare(env: Env, vs: seq<Value>, regex: bool): (o: Outcome)
    ensures -1 <= o.ret <= 1
    ensures forall e :: e in o.calls ==> !e.Command?
  {
    var tb := Slots([AString, AString, Anything], vs);
    if tb[1].None? || tb[2].None? then Outcome(-1, [])
    else
      var looks := Look(env, tb[1].value.text);
      match FindVar(env, tb[1].value.text)
      case None => Outcome(0, looks)
      case Some(text) =>
        var o := CompareWith(env, text, tb[2].value, regex);
        Outcome(o.ret, looks + o.calls)
  }

  function CompareWith(env: Env, text: string, v: Value, regex: bool): (o: Outcome)
    ensures -1 <= o.ret <= 1
    ensures forall e :: e in o.calls ==> !e.Command?
  {
    match v
    case Str(pattern) => Outcome(Truth(Same(env, text, pattern, regex)), [])
    case Arr(patterns) => First(env, patterns, p => Same(env, text, p, regex), false)
    case other => Outcome(-1, [Error(UnexpectedType, other)])
  }

  /** handle_expr_has */
  function Has(env: Env, vs: seq<Value>): (o: Outcome)
    ensures -1 <= o.ret <= 1
    ensures forall e :: e in o.calls ==> !e.Command?
  {
    var tb := Slots([AString, Anything, Anything], vs);
    if tb[1].None? then Outcome(-1, [])
    else match tb[1].value
      case Str(name) => Outcome(Truth(FindVar(env, name).Some?), Look(env, name))
      case Arr(names) => First(env, names, name => FindVar(env, name).Some?, true)
      case other => Outcome(-1, [Error(UnexpectedType, other)])
  }

  /** Whether one of the strings will do; what is no string is an error, unless one before it
      will do.  The strings may be variables to look up. */
  function First(env: Env, vs: seq<Value>, good: string -> bool, look: bool): (o: Outcome)
    ensures o.ret == 1 <==> exists k :: Found(vs, good, k)
    ensures o.ret == 0 <==> forall k :: 0 <= k < |vs| ==> vs[k].Str? && !good(vs[k].text)
    ensures -1 <= o.ret <= 1
    ensures forall e :: e in o.calls ==> !e.Command?
  {
    if vs == [] then Outcome(0, [])
    else if !vs[0].Str? then
      assert !exists k :: Found(vs, good, k);
      Outcome(-1, [Error(UnexpectedType, vs[0])])
    else
      var looks := if look then Look(env, vs[0].text) else [];
      if good(vs[0].text) then
        assert Found(vs, good, 0);
        Outcome(1, looks)
      else
        FoundBehind(vs, good);
        var o := First(env, vs[1..], good, look);
        Outcome(o.ret, looks + o.calls)
  }

  ghost predicate Found(vs: seq<Value>, good: string -> bool, k: int) {
    && 0 <= k < |vs| && vs[k].Str? && good(vs[k].text)
    && forall j :: 0 <= j < k ==> vs[j].Str?
  }

  lemma FoundBehind(vs: seq<Value>, good: string -> bool)
    requires vs != [] && vs[0].Str? && !good(vs[0].text)
    ensures (exists k :: Found(vs, good, k)) <==> exists k :: Found(vs[1..], good, k)
    ensures (forall k :: 0 <= k < |vs| ==> vs[k].Str? && !good(vs[k].text)) <==>
            forall k :: 0 <= k < |vs[1..]| ==> vs[1..][k].Str? && !good(vs[1..][k].text)
  {
    if k :| Found(vs, good, k) {
      assert Found(vs[1..], good, k - 1);
    }
    if k :| Found(vs[1..], good, k) {
      assert forall j :: 0 < j < k + 1 ==> vs[j] == vs[1..][j - 1];
      assert Found(vs, good, k + 1);
    }
    assert forall k :: 0 < k < |vs| ==> vs[k] == vs[1..][k - 1];
  }

  /** expr_and_or from the i-th element on. */
  function AndOr(env: Env, v: Value, i: nat, unit: int): (o: Outcome)
    requires v.Arr? && 0 <= unit <= 1
    ensures -1 <= o.ret <= 1
    ensures forall e :: e in o.calls ==> !e.Command?
    decreases v, 0, |v.elems| - i
  {
    if i >= |v.elems| then Outcome(unit, [])
    else
      var o := Eval(env, v.elems[i]);
      if o.ret != unit then o
      else
        var rest := AndOr(env, v, i + 1, unit);
        Outcome(rest.ret, o.calls + rest.calls)
  }

  function Not(env: Env, v: Value): (o: Outcome)
    requires v.Arr?
    ensures -1 <= o.ret <= 1
    ensures forall e :: e in o.calls ==> !e.Command?
    decreases v, 0, 0
  {
    var tb := Slots([AString, AnArray, Anything], v.elems);
    if tb[1].None? then Outcome(-1, [])
    else
      var o := Eval(env, tb[1].value);
      Outcome(Negated(o.ret), o.calls)
  }

  function Negated(ret: int): int {
    if ret < 0 then ret else 1 - ret
  }

  /** handle_expr_isdir */
  function IsDir(env: Env, vs: seq<Value>): (o: Outcome)
    ensures -1 <= o.ret <= 1
    ensures forall e :: e in o.calls ==> !e.Command?
  {
    var tb := Slots([AString, AString, Anything], vs);
    if tb[1].None? then Outcome(-1, [])
    else
      var pattern := tb[1].value.text;
      match Expand(env, pattern)
      case None => Outcome(-1, Looks(env, pattern))
      case Some(path) => Outcome(Truth(env.isDir(path)), Looks(env, pattern))
  }

  // -------- the laws of and, or and not --------

  function Both(es: seq<Value>): Value {
    Arr([Str("and")] + es)
  }

  function Either(es: seq<Value>): Value {
    Arr([Str("or")] + es)
  }

  function Deny(e: Value): Value {
    Arr([Str("not"), e])
  }

  function DenyAll(es: seq<Value>): (ds: seq<Value>)
    ensures |ds| == |es| && forall i :: 0 <= i < |es| ==> ds[i] == Deny(es[i])
  {
    seq(|es|, i requires 0 <= i < |es| => Deny(es[i]))
  }

  lemma Denied(env: Env, e: Value)
    ensures Eval(env, Deny(e)).ret == Negated(Eval(env, e).ret)
    ensures e.Arr? ==> Eval(env, Deny(e)).calls == Eval(env, e).calls
  {
    var want, vs := [AString, AnArray, Anything], [Str("not"), e];
    assert vs[1..] == [e] && want[1..] == [AnArray, Anything];
    if e.Arr? {
      assert Slots(want, vs)[1] == Slots(want[1..], [e])[0] == Some(e);
    } else {
      assert [e][1..] == [];
      assert Slots(want[1..], [e]) == Slots(want[1..], []);
      assert Slots(want, vs)[1] == Slots(want[1..], [e])[0] == None;
    }
  }

  /** From the i-th element on; `and` and `or` change places. */
  lemma {:induction false} DeMorganFrom(env: Env, v: Value, w: Value, i: nat, unit: int)
    requires v.Arr? && w.Arr? && |v.elems| == |w.elems| && 1 <= i <= |v.elems| && 0 <= unit <= 1
    requires forall k :: 1 <= k < |v.elems| ==> w.elems[k] == Deny(v.elems[k])
    ensures AndOr(env, w, i, 1 - unit).ret == Negated(AndOr(env, v, i, unit).ret)
    ensures (forall k :: 1 <= k < |v.elems| ==> v.elems[k].Arr?) ==>
            AndOr(env, w, i, 1 - unit).calls == AndOr(env, v, i, unit).calls
    decreases |v.elems| - i
  {
    if i < |v.elems| {
      Denied(env, v.elems[i]);
      DeMorganFrom(env, v, w, i + 1, unit);
    }
  }

  /** Both results and errors obey De Morgan's laws, and the same callbacks are called when all
      parts are arrays. */
  lemma DeMorganAnd(env: Env, es: seq<Value>)
    ensures Eval(env, Deny(Both(es))).ret == Eval(env, Either(DenyAll(es))).ret
    ensures (forall e :: e in es ==> e.Arr?) ==> Eval(env, Deny(Both(es))) == Eval(env, Either(DenyAll(es)))
  {
    Denied(env, Both(es));
    DeMorganFrom(env, Both(es), Either(DenyAll(es)), 1, 1);
  }

  lemma DeMorganOr(env: Env, es: seq<Value>)
    ensures Eval(env, Deny(Either(es))).ret == Eval(env, Both(DenyAll(es))).ret
    ensures (forall e :: e in es ==> e.Arr?) ==> Eval(env, Deny(Either(es))) == Eval(env, Both(DenyAll(es)))
  {
    Denied(env, Either(es));
    DeMorganFrom(env, Either(es), Both(DenyAll(es)), 1, 0);
  }
}
