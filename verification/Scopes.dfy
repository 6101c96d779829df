/** Symbols. Each running script has a sorted list of its own; lists of the scripts it was called from are
    kept, with their labels and handles, on a stack, innermost first. */
module Scopes {
  import opened Common
  import opened Expr
  import Script

  datatype Symbol = Symbol(name: string, binding: Binding)

  type Scope = map<string, Binding>

  type Labels = seq<Script.Label>

  datatype Handles = Handles(input: int, output: int, error: int)

  datatype Saved = Saved(handles: Handles, symbols: seq<Symbol>, labels: Labels)

  function MapOf(list: seq<Symbol>): Scope {
    if list == [] then map[] else MapOf(list[1..])[list[0].name := list[0].binding]
  }

  /** In strcmp order, each name once. */
  ghost predicate Sorted(list: seq<Symbol>) {
    forall i, j :: 0 <= i < j < |list| ==> Before(list[i].name, list[j].name)
  }

  /** Where a name is, or would go. */
  ghost predicate Place(list: seq<Symbol>, i: nat, name: string) {
    && i <= |list|
    && (forall j :: 0 <= j < i ==> Before(list[j].name, name))
    && (i < |list| ==> !Before(list[i].name, name))
  }

  function Put(list: seq<Symbol>, i: nat, s: Symbol): seq<Symbol>
    requires i <= |list|
  {
    list[..i] + [s] + if i < |list| && list[i].name == s.name then list[i + 1..] else list[i..]
  }

  lemma PutSorted(list: seq<Symbol>, i: nat, s: Symbol)
    requires Sorted(list) && Place(list, i, s.name)
    ensures Sorted(Put(list, i, s))
  {
    var now := Put(list, i, s);
    if i < |list| { BeforeIsOrder(list[i].name, s.name, s.name); }
    forall a, b | 0 <= a < b < |now| ensures Before(now[a].name, now[b].name) {
      if a == i && i < |list| {
        var k := if list[i].name == s.name then b else b - 1;
        if k > i { BeforeIsOrder(s.name, list[i].name, list[k].name); }
      }
      if a < i && b > i { BeforeIsOrder(now[a].name, s.name, now[b].name); }
    }
  }

  /** Putting a symbol in the list binds its name, and only its name. */
  lemma {:induction false} PutMap(list: seq<Symbol>, i: nat, s: Symbol)
    requires Place(list, i, s.name)
    ensures MapOf(Put(list, i, s)) == MapOf(list)[s.name := s.binding]
    decreases i
  {
    var now := Put(list, i, s);
    if i == 0 {
      assert now[1..] == if |list| > 0 && list[0].name == s.name then list[1..] else list;
    } else {
      BeforeIsOrder(list[0].name, s.name, s.name);
      assert now[1..] == Put(list[1..], i - 1, s);
      PutMap(list[1..], i - 1, s);
    }
  }

  lemma {:induction false} MapOfHas(list: seq<Symbol>, i: nat, name: string)
    requires i <= |list| && (forall j :: 0 <= j < i ==> list[j].name != name)
    ensures i == |list| ==> name !in MapOf(list)
    ensures i < |list| && list[i].name == name ==> name in MapOf(list) && MapOf(list)[name] == list[i].binding
    decreases i
  {
    if i > 0 {
      MapOfHas(list[1..], i - 1, name);
    }
  }

  /** Bindings made one after another. */
  function BindAll(args: seq<Symbol>): Scope {
    if args == [] then map[] else BindAll(args[..|args| - 1])[args[|args| - 1].name := args[|args| - 1].binding]
  }

  /** Of several arguments with one name the last counts. */
  lemma {:induction false} BindAllIs(args: seq<Symbol>, name: string)
    ensures name in BindAll(args) <==> exists i :: 0 <= i < |args| && args[i].name == name
    ensures forall i ::
              0 <= i < |args| && args[i].name == name && (forall j :: i < j < |args| ==> args[j].name != name) ==>
              name in BindAll(args) && BindAll(args)[name] == args[i].binding
  {
    if args != [] {
      var n := |args| - 1;
      BindAllIs(args[..n], name);
      assert forall i :: 0 <= i < n ==> args[..n][i] == args[i];
    }
  }

  function ScopesOf(scripts: seq<Saved>): seq<Scope> {
    if scripts == [] then [] else [MapOf(scripts[0].symbols)] + ScopesOf(scripts[1..])
  }

  lemma ScopesAt(scripts: seq<Saved>)
    ensures |ScopesOf(scripts)| == |scripts|
    ensures forall k :: 0 <= k < |scripts| ==> ScopesOf(scripts)[k] == MapOf(scripts[k].symbols)
  {}

  lemma ReplaceScope(scripts: seq<Saved>, k: nat, list: seq<Symbol>)
    requires k < |scripts|
    ensures |ScopesOf(scripts)| == |scripts|
    ensures ScopesOf(scripts[k := scripts[k].(symbols := list)]) == ScopesOf(scripts)[k := MapOf(list)]
  {
    ScopesAt(scripts);
    ScopesAt(scripts[k := scripts[k].(symbols := list)]);
  }

  /** The scope a level number means: the outermost when there are not that many. */
  function ScopeIndex(depth: nat, level: nat): nat {
    if level <= depth then level else depth
  }

  /** A binding made at a level, as insert_symbol takes it. */
  datatype Bound = Bound(s: Symbol, level: nat)

  function ApplyOne(scopes: seq<Scope>, b: Bound): (r: seq<Scope>)
    requires scopes != []
    ensures |r| == |scopes|
  {
    var t := ScopeIndex(|scopes| - 1, b.level);
    scopes[t := scopes[t][b.s.name := b.s.binding]]
  }

  /** Bindings made one after another, each at its level. */
  function ApplyAll(scopes: seq<Scope>, bs: seq<Bound>): (r: seq<Scope>)
    requires scopes != []
    ensures |r| == |scopes|
  {
    if bs == [] then scopes else ApplyOne(ApplyAll(scopes, bs[..|bs| - 1]), bs[|bs| - 1])
  }

  /** The bindings that go past the innermost scope, at their levels as seen from the next. */
  function Outward(bs: seq<Bound>): seq<Bound> {
    if bs == [] then []
    else
      var last := bs[|bs| - 1];
      Outward(bs[..|bs| - 1]) + if last.level == 0 then [] else [last.(level := last.level - 1)]
  }

  /** What a script does that matters here, in the order in which it does it: it binds a symbol at some level, notes or
      skips to labels, or runs another script. */
  datatype Cmd =
    | Bind(s: Symbol, level: nat)
    | Relabel(labels: Labels, skip: string)
    | Run(input: Handles, args: seq<Symbol>, script: seq<Cmd>)

  /** The bindings of a command that go past its script's own scope, at their levels as seen by the caller. */
  function Out(c: Cmd): seq<Bound> {
    match c
    case Bind(s, level) => if level == 0 then [] else [Bound(s, level - 1)]
    case Relabel(_, _) => []
    case Run(_, _, script) => Outward(Outs(script))
  }

  function Outs(script: seq<Cmd>): seq<Bound> {
    if script == [] then [] else Outs(script[..|script| - 1]) + Out(script[|script| - 1])
  }

  lemma OutsSnoc(script: seq<Cmd>, i: nat)
    requires i < |script|
    ensures Outs(script[..i + 1]) == Outs(script[..i]) + Out(script[i])
  {
    assert script[..i + 1][..i] == script[..i];
  }

  lemma NoOuts()
    ensures Outs([]) == []
  {}

  lemma {:induction false} ApplyMore(scopes: seq<Scope>, a: seq<Bound>, b: seq<Bound>)
    requires scopes != []
    ensures ApplyAll(scopes, a + b) == ApplyAll(ApplyAll(scopes, a), b)
  {
    if b == [] {
      assert a + b == a;
    } else {
      assert (a + b)[..|a + b| - 1] == a + b[..|b| - 1];
      ApplyMore(scopes, a, b[..|b| - 1]);
    }
  }

  /** Seen from the next scope outward, bindings are those of them that go there. */
  lemma {:induction false} OutwardApplies(scopes: seq<Scope>, bs: seq<Bound>)
    requires |scopes| >= 2
    ensures ApplyAll(scopes, bs)[1..] == ApplyAll(scopes[1..], Outward(bs))
  {
    if bs != [] {
      var init, last := bs[..|bs| - 1], bs[|bs| - 1];
      OutwardApplies(scopes, init);
      var was, out := ApplyAll(scopes, init), Outward(init);
      if last.level > 0 {
        var moved := last.(level := last.level - 1);
        assert Outward(bs) == out + [moved] && (out + [moved])[..|out|] == out;
        assert ApplyOne(was, last)[1..] == ApplyOne(was[1..], moved);
      } else {
        assert Outward(bs) == out;
      }
    }
  }

  /** A sorted list is determined by the map it stands for. */
  lemma {:induction false} MapTellsList(a: seq<Symbol>, b: seq<Symbol>)
    requires Sorted(a) && Sorted(b) && MapOf(a) == MapOf(b)
    ensures a == b
  {
    assert a != [] ==> a[0].name in MapOf(a);
    assert b != [] ==> b[0].name in MapOf(b);
    if a != [] && b != [] {
      FirstIsLeast(a, b[0].name);
      FirstIsLeast(b, a[0].name);
      BeforeIsOrder(a[0].name, b[0].name, a[0].name);
      RestOfMap(a);
      RestOfMap(b);
      MapTellsList(a[1..], b[1..]);
      assert a == [a[0]] + a[1..] && b == [b[0]] + b[1..];
    }
  }

  lemma {:induction false} FirstIsLeast(list: seq<Symbol>, name: string)
    requires list != [] && Sorted(list) && name in MapOf(list)
    ensures list[0].name == name || Before(list[0].name, name)
  {
    if list[0].name != name {
      FirstIsLeast(list[1..], name);
      BeforeIsOrder(list[0].name, list[1].name, name);
    }
  }

  lemma RestOfMap(list: seq<Symbol>)
    requires list != [] && Sorted(list)
    ensures MapOf(list[1..]) == MapOf(list) - {list[0].name}
  {
    BeforeIsOrder(list[0].name, list[0].name, list[0].name);
    if list[0].name in MapOf(list[1..]) {
      FirstIsLeast(list[1..], list[0].name);
      BeforeIsOrder(list[0].name, list[1].name, list[0].name);
    }
  }

  /** The saved scripts are the same but for their symbols. */
  ghost predicate SameFrames(was: seq<Saved>, now: seq<Saved>) {
    && |now| == |was|
    && forall k :: 0 <= k < |was| ==> now[k].labels == was[k].labels && now[k].handles == was[k].handles
  }

  /** The innermost saved script is the caller. */
  ghost predicate SavedCaller(handles: Handles, labels: Labels, was: seq<Saved>, now: seq<Saved>) {
    now != [] && now[0].handles == handles && now[0].labels == labels && SameFrames(was, now[1..])
  }

  /** With no scope changed, no list has. */
  lemma SameScopesSameLists(was: seq<Saved>, now: seq<Saved>, symbols: seq<Symbol>, symbols': seq<Symbol>)
    requires SameFrames(was, now) && Sorted(symbols) && Sorted(symbols')
    requires forall k :: 0 <= k < |was| ==> Sorted(was[k].symbols) && Sorted(now[k].symbols)
    requires [MapOf(symbols)] + ScopesOf(was) == [MapOf(symbols')] + ScopesOf(now)
    ensures symbols == symbols' && was == now
  {
    hide Sorted, MapOf, ScopesOf;
    var x, y := [MapOf(symbols)] + ScopesOf(was), [MapOf(symbols')] + ScopesOf(now);
    assert MapOf(symbols) == x[0] == y[0] == MapOf(symbols');
    assert ScopesOf(was) == x[1..] == y[1..] == ScopesOf(now);
    MapTellsList(symbols, symbols');
    forall k: nat | k < |was| ensures was[k] == now[k] { SameSavedList(was, now, k); }
  }

  lemma SameSavedList(was: seq<Saved>, now: seq<Saved>, k: nat)
    requires SameFrames(was, now) && k < |was| && ScopesOf(was) == ScopesOf(now)
    requires Sorted(was[k].symbols) && Sorted(now[k].symbols)
    ensures was[k] == now[k]
  {
    hide Sorted, MapOf, ScopesOf;
    ScopesAt(was);
    ScopesAt(now);
    MapTellsList(was[k].symbols, now[k].symbols);
  }

  /** The scopes lookup_symbol goes through. Past the outermost it starts over with the innermost saved one. */
  function SearchOrder(depth: nat, level: nat): seq<nat> {
    if level <= depth then seq(depth + 1 - level, k requires 0 <= k => level + k)
    else [depth] + seq(depth, k requires 0 <= k => 1 + k)
  }

  function FirstIn(scopes: seq<Scope>, order: seq<nat>, name: string): Option<Binding> {
    if order == [] then None
    else if order[0] < |scopes| && name in scopes[order[0]] then Some(scopes[order[0]][name])
    else FirstIn(scopes, order[1..], name)
  }

  lemma FirstInStep(scopes: seq<Scope>, order: seq<nat>, t: nat, name: string)
    requires t < |order| && order[t] < |scopes|
    ensures FirstIn(scopes, order[t..], name) ==
            if name in scopes[order[t]] then Some(scopes[order[t]][name])
            else if t + 1 == |order| then None else FirstIn(scopes, order[t + 1..], name)
  {
    assert order[t..][1..] == order[t + 1..];
  }

  lemma OrderAt(depth: nat, level: nat)
    ensures var order := SearchOrder(depth, level);
            && |order| == (if level <= depth then depth + 1 - level else depth + 1)
            && order[0] == ScopeIndex(depth, level)
            && (forall t :: 0 < t < |order| ==> order[t] == (if level <= depth then level + t else t))
  {}

  /** The binding in the innermost scope that has one. */
  function Innermost(scopes: seq<Scope>, name: string): Option<Binding> {
    if scopes == [] then None
    else if name in scopes[0] then Some(scopes[0][name])
    else Innermost(scopes[1..], name)
  }

  /** The innermost binding is in a scope inside of which there is none. */
  lemma {:induction false} InnermostIs(scopes: seq<Scope>, name: string)
    ensures match Innermost(scopes, name)
            case None => forall k :: 0 <= k < |scopes| ==> name !in scopes[k]
            case Some(b) =>
              exists k :: 0 <= k < |scopes| && name in scopes[k] && scopes[k][name] == b
                && forall j :: 0 <= j < k ==> name !in scopes[j]
  {
    if scopes != [] && name !in scopes[0] {
      InnermostIs(scopes[1..], name);
      assert forall j :: 0 < j < |scopes| ==> scopes[1..][j - 1] == scopes[j];
    }
  }

  /** From any level there is, scopes are searched from that one outward. */
  lemma LookupFrom(scopes: seq<Scope>, level: nat, name: string)
    requires level < |scopes|
    ensures FirstIn(scopes, SearchOrder(|scopes| - 1, level), name) == Innermost(scopes[level..], name)
  {
    OrderAt(|scopes| - 1, level);
    CountingUp(scopes, SearchOrder(|scopes| - 1, level), level, name);
  }

  lemma {:induction false} CountingUp(scopes: seq<Scope>, order: seq<nat>, from: nat, name: string)
    requires from <= |scopes| && |order| == |scopes| - from && forall k :: 0 <= k < |order| ==> order[k] == from + k
    ensures FirstIn(scopes, order, name) == Innermost(scopes[from..], name)
    decreases |order|
  {
    if order != [] { CountingUp(scopes, order[1..], from + 1, name); }
  }

  lemma {:induction false} InnermostNone(scopes: seq<Scope>, name: string)
    ensures Innermost(scopes, name) == None <==> forall m <- scopes :: name !in m
  {
    if scopes != [] && name !in scopes[0] {
      InnermostNone(scopes[1..], name);
      assert scopes == [scopes[0]] + scopes[1..];
    }
  }

  /** Looking up from the current scope finds the innermost binding. */
  lemma LookupIsInnermost(scopes: seq<Scope>, name: string)
    requires scopes != []
    ensures FirstIn(scopes, SearchOrder(|scopes| - 1, 0), name) == Innermost(scopes, name)
  {
    CountingUp(scopes, SearchOrder(|scopes| - 1, 0), 0, name);
    assert scopes[0..] == scopes;
  }

  /** A level past the outermost is meant to look there only. It does so exactly when the name is bound
      there or in no saved scope. */
  lemma GlobalLookup(scopes: seq<Scope>, level: nat, name: string)
    requires scopes != [] && level >= |scopes|
    ensures var global := scopes[|scopes| - 1];
            FirstIn(scopes, SearchOrder(|scopes| - 1, level), name) ==
              (if name in global then Some(global[name]) else None)
            <==> (name in global || forall m <- scopes[1..] :: name !in m)
  {
    var n := |scopes| - 1;
    var order := SearchOrder(n, level);
    assert order[0] == n;
    CountingUp(scopes, order[1..], 1, name);
    InnermostNone(scopes[1..], name);
  }

  class Interpreter {
    var symbols: seq<Symbol>
    var labels: Labels
    var handles: Handles
    var scripts: seq<Saved>
    var exited: bool
    var skiplabel: string

    ghost predicate Valid()
      reads this
    {
      Sorted(symbols) && forall k :: 0 <= k < |scripts| ==> Sorted(scripts[k].symbols)
    }

    /** The stack of maps this stands for, innermost first. */
    ghost function Scopes(): seq<Scope>
      reads this
    {
      [MapOf(symbols)] + ScopesOf(scripts)
    }

    constructor (handles: Handles)
      ensures Valid() && Scopes() == [map[]] && scripts == [] && this.handles == handles && !exited
    {
      symbols, labels, scripts, exited, skiplabel := [], [], [], false, "";
      this.handles := handles;
    }

    method FindPlace(list: seq<Symbol>, name: string) returns (i: nat)
      ensures Place(list, i, name)
    {
      i := 0;
      while i < |list| && Before(list[i].name, name)
        invariant i <= |list| && forall j :: 0 <= j < i ==> Before(list[j].name, name)
      {
        i := i + 1;
      }
    }

    /** insert_symbol: binds the name in the one scope meant, and nothing else anywhere. */
    method InsertSymbol(s: Symbol, level: nat)
      requires Valid()
      modifies this`symbols, this`scripts
      ensures Valid() && |scripts| == old(|scripts|)
      ensures var t := ScopeIndex(old(|scripts|), level);
              t < |old(Scopes())| && Scopes() == old(Scopes())[t := old(Scopes())[t][s.name := s.binding]]
      ensures level == 0 ==> scripts == old(scripts)
      ensures forall k :: 0 <= k < |scripts| ==>
                scripts[k].labels == old(scripts[k].labels) && scripts[k].handles == old(scripts[k].handles)
    {
      hide Before, ScopesOf, MapOf, Put, Sorted, Place;
      var t := 0;
      if level != 0 {
        while t < |scripts| && t < level
          invariant t <= |scripts| && t <= level
        {
          t := t + 1;
        }
      }
      ScopesAt(scripts);
      if t == 0 {
        var i := FindPlace(symbols, s.name);
        PutSorted(symbols, i, s);
        PutMap(symbols, i, s);
        symbols := Put(symbols, i, s);
      } else {
        var list := scripts[t - 1].symbols;
        var i := FindPlace(list, s.name);
        PutSorted(list, i, s);
        PutMap(list, i, s);
        ReplaceScope(scripts, t - 1, Put(list, i, s));
        scripts := scripts[t - 1 := scripts[t - 1].(symbols := Put(list, i, s))];
      }
    }

    method SearchList(list: seq<Symbol>, name: string) returns (r: Option<Binding>)
      ensures r == if name in MapOf(list) then Some(MapOf(list)[name]) else None
    {
      var i := 0;
      while i < |list| && list[i].name != name
        invariant i <= |list| && forall j :: 0 <= j < i ==> list[j].name != name
      {
        i := i + 1;
      }
      MapOfHas(list, i, name);
      return if i < |list| then Some(list[i].binding) else None;
    }

    /** lookup_symbol. */
    method LookupSymbol(name: string, level: nat) returns (r: Option<Binding>)
      ensures |Scopes()| == |scripts| + 1
      ensures r == FirstIn(Scopes(), SearchOrder(|scripts|, level), name)
    {
      hide FirstIn, SearchOrder, ScopesOf, MapOf;
      ScopesAt(scripts);
      OrderAt(|scripts|, level);
      var at := 0;
      if level != 0 {
        while at < |scripts| && at < level
          invariant at <= |scripts| && at <= level
        {
          at := at + 1;
        }
      }
      var after := if level <= |scripts| then level + 1 else 1;
      ghost var order := SearchOrder(|scripts|, level);
      ghost var t := 0;
      assert order[0..] == order;
      while true
        invariant 0 <= t < |order| && at == order[t] <= |scripts|
        invariant 1 <= after == |scripts| + 1 - (|order| - t - 1)
        invariant FirstIn(Scopes(), order, name) == FirstIn(Scopes(), order[t..], name)
        decreases |order| - t
      {
        r := SearchList(if at == 0 then symbols else scripts[at - 1].symbols, name);
        FirstInStep(Scopes(), order, t, name);
        if r.Some? || after > |scripts| { return; }
        at, after, t := after, after + 1, t + 1;
      }
    }

    /** int_script: a new script starts with a scope of its own, holding its arguments. */
    method IntScript(input: Handles, args: seq<Symbol>)
      requires Valid()
      modifies this`symbols, this`labels, this`handles, this`scripts
      ensures Valid() && scripts == [Saved(old(handles), old(symbols), old(labels))] + old(scripts)
      ensures handles == input && labels == []
      ensures |Scopes()| == |old(Scopes())| + 1 && Scopes()[1..] == old(Scopes())
      ensures MapOf(symbols) == BindAll(args)
    {
      scripts := [Saved(handles, symbols, labels)] + scripts;
      handles, symbols, labels := input, [], [];
      for i := 0 to |args|
        invariant Valid() && scripts == [Saved(old(handles), old(symbols), old(labels))] + old(scripts)
        invariant handles == input && labels == []
        invariant MapOf(symbols) == BindAll(args[..i])
      {
        assert Scopes()[0] == MapOf(symbols);
        InsertSymbol(args[i], 0);
        assert Scopes()[0] == MapOf(symbols) && args[..i + 1][..i] == args[..i];
      }
      assert args[..|args|] == args;
    }

    method ExitScript()
      requires Valid()
      modifies this
      ensures Valid()
      ensures old(scripts) == [] ==>
                && exited && symbols == old(symbols) && labels == old(labels) && handles == old(handles)
                && scripts == [] && skiplabel == old(skiplabel)
      ensures old(scripts) != [] ==>
                && scripts == old(scripts[1..]) && skiplabel == "" && exited == old(exited)
                && Scopes() == old(Scopes())[1..]
                && symbols == old(scripts[0].symbols) && labels == old(scripts[0].labels)
                && handles == old(scripts[0].handles)
    {
      if scripts == [] {
        exited := true;
      } else {
        skiplabel := "";
        handles := scripts[0].handles;
        labels := scripts[0].labels;
        symbols := scripts[0].symbols;
        scripts := scripts[1..];
      }
    }

    /** Runs a script. When it is over, of all the bindings made by it and by the scripts it ran those are left that
        went outward, and labels, handles and saved scripts are the caller's. A script that binds nothing outward
        leaves no trace. */
    method CallScript(input: Handles, args: seq<Symbol>, script: seq<Cmd>)
      requires Valid()
      modifies this
      ensures Valid() && labels == old(labels) && handles == old(handles) && SameFrames(old(scripts), scripts)
      ensures skiplabel == "" && exited == old(exited)
      ensures Scopes() == ApplyAll(old(Scopes()), Outs(script))
      ensures Outs(script) == [] ==> symbols == old(symbols) && scripts == old(scripts)
      ensures symbols == old(symbols) && scripts == old(scripts) <==>
                ApplyAll(old(Scopes()), Outs(script)) == old(Scopes())
      decreases script, 2
    {
      hide Sorted, MapOf, ScopesOf, ApplyAll, Outward, Outs;
      ghost var caller := Scopes();
      IntScript(input, args);
      NoOuts();
      ApplyNone(caller);
      for i := 0 to |script|
        invariant Valid() && SavedCaller(old(handles), old(labels), old(scripts), scripts) && exited == old(exited)
        invariant |Scopes()| >= 2 && Scopes()[1..] == ApplyAll(caller, Outs(script[..i]))
      {
        OutsSnoc(script, i);
        RunCmd(script[i], caller, Outs(script[..i]));
      }
      assert script[..|script|] == script;
      ExitScript();
      if Scopes() == caller { SameScopesSameLists(old(scripts), scripts, old(symbols), symbols); }
    }

    /** One command of a script: of what it binds, its caller sees what goes outward. */
    method RunCmd(c: Cmd, ghost caller: seq<Scope>, ghost outward: seq<Bound>)
      requires Valid() && scripts != [] && caller != [] && |Scopes()| >= 2 && Scopes()[1..] == ApplyAll(caller, outward)
      modifies this
      ensures Valid() && |Scopes()| >= 2 && Scopes()[1..] == ApplyAll(caller, outward + Out(c))
      ensures SameFrames(old(scripts), scripts) && handles == old(handles) && exited == old(exited)
      decreases c, 1
    {
      hide Sorted, MapOf, ScopesOf, ApplyAll, Outward, Outs;
      match c
      case Bind(s, level) =>
        ScriptBinds(s, level, caller, outward);
      case Relabel(labels', skip) =>
        labels, skiplabel := labels', skip;
        assert outward + Out(c) == outward;
      case Run(input, args, script) =>
        ghost var before := Scopes();
        CallScript(input, args, script);
        OutwardApplies(before, Outs(script));
        ApplyMore(caller, outward, Outward(Outs(script)));
    }

    /** A script binds a symbol: in its own scope, or in one of its caller's. */
    method ScriptBinds(s: Symbol, level: nat, ghost caller: seq<Scope>, ghost outward: seq<Bound>)
      requires Valid() && scripts != [] && caller != [] && |Scopes()| >= 2 && Scopes()[1..] == ApplyAll(caller, outward)
      modifies this`symbols, this`scripts
      ensures Valid() && |Scopes()| >= 2
      ensures Scopes()[1..] == ApplyAll(caller, outward + if level == 0 then [] else [Bound(s, level - 1)])
      ensures SameFrames(old(scripts), scripts)
    {
      hide Sorted, MapOf, ScopesOf, ApplyAll, ApplyOne, Outward, ScopeIndex;
      ghost var was := Scopes();
      ScopesAt(scripts);
      InsertSymbol(s, level);
      Single(was, Bound(s, level));
      OutwardApplies(was, [Bound(s, level)]);
      ApplyMore(caller, outward, Outward([Bound(s, level)]));
    }
  }

  lemma Single(scopes: seq<Scope>, b: Bound)
    requires scopes != []
    ensures var t := ScopeIndex(|scopes| - 1, b.level);
            t < |scopes| && ApplyAll(scopes, [b]) == scopes[t := scopes[t][b.s.name := b.s.binding]]
    ensures Outward([b]) == if b.level == 0 then [] else [Bound(b.s, b.level - 1)]
  {
    assert [b][..0] == [];
  }

  lemma ApplyNone(scopes: seq<Scope>)
    requires scopes != []
    ensures ApplyAll(scopes, []) == scopes
  {}
}
