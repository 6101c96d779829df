/** The interpreter's evaluation routines, as loops over the text; each comes to what `Expr` says. */
module Evaluator {
  import opened Common
  import opened Numbers
  import opened Expr

  method SkipSpaces(s: CString, p: nat) returns (q: nat)
    requires p <= |s|
    ensures q == Skip(s, p)
  {
    q := p;
    while q < |s| && Space(s[q])
      invariant p <= q <= |s| && Skip(s, p) == Skip(s, q)
    {
      q := q + 1;
    }
  }

  method NameMatches(name: string, s: CString, p: nat) returns (yes: bool)
    requires p <= |s| && '\0' !in name
    ensures yes <==> Matches(name, s, p)
  {
    var i := 0;
    MatchesAt(name, s, p);
    while i < |name| && At(s, p + i) == name[i]
      invariant i <= |name| && p + i <= |s| && forall k :: 0 <= k < i ==> name[k] == s[p + k]
    {
      assert name[i] in name;
      i := i + 1;
    }
    yes := i == |name|;
  }

  lemma MatchesAt(name: string, s: CString, p: nat)
    requires p <= |s|
    ensures Matches(name, s, p) <==> p + |name| <= |s| && forall k :: 0 <= k < |name| ==> name[k] == s[p + k]
  {
    var rest := s[p..];
    assert forall k :: 0 <= k < |rest| ==> rest[k] == s[p + k];
  }

  lemma FirstMatchStep(s: CString, p: nat, j: nat)
    requires j < |OPERATORS|
    ensures FirstMatch(s, p, j) == if Matches(OPERATORS[j].0, s, p) then j else FirstMatch(s, p, j + 1)
    ensures Matches(OPERATORS[j].0, s, p) ==> p + |OPERATORS[j].0| <= |s|
    ensures FirstMatch(s, p, |OPERATORS|) == |OPERATORS|
  {}

  /** The table is searched from its top; the text position moves only if an operator is found. */
  method GetOperator(s: CString, p: nat) returns (j: nat, q: nat)
    requires p <= |s|
    ensures j == FirstMatch(s, Skip(s, p), 0)
    ensures if j < |OPERATORS| then q <= |s| && q == Skip(s, Skip(s, p) + |OPERATORS[j].0|) else q == p
  {
    hide FirstMatch, Matches, Skip;
    var b := SkipSpaces(s, p);
    j, q := 0, p;
    while j < |OPERATORS|
      invariant j <= |OPERATORS| && FirstMatch(s, b, 0) == FirstMatch(s, b, j)
    {
      ShortNames(j);
      FirstMatchStep(s, b, j);
      var yes := NameMatches(OPERATORS[j].0, s, b);
      if yes {
        q := SkipSpaces(s, b + |OPERATORS[j].0|);
        return;
      }
      j := j + 1;
    }
  }

  lemma ShortNames(j: nat)
    requires j < |OPERATORS|
    ensures '\0' !in OPERATORS[j].0
  {}

  /** One character of a literal, behind what has been read of it. */
  lemma StringTurn(s: CString, q: nat, quote: char, t: CString)
    requires q < |s| && s[q] != quote
    ensures var (c, n) := if s[q] == '\\' && q + 1 < |s| then (Unescape(s[q + 1]), q + 2) else (s[q], q + 1);
            var (u, e) := ReadString(s, q, quote);
            if s[q] == '\\' && q + 1 == |s| then u == "" && e == q + 1
            else t + u == t + [c] + ReadString(s, n, quote).0 && e == ReadString(s, n, quote).1
  {}

  method GetString(s: CString, p: nat, quote: char) returns (t: CString, q: nat)
    requires p <= |s|
    ensures (t, q) == ReadString(s, p, quote)
  {
    t, q := "", p;
    assert "" + ReadString(s, p, quote).0 == ReadString(s, p, quote).0;
    while q < |s| && s[q] != quote
      invariant p <= q <= |s|
      invariant var (u, e) := ReadString(s, q, quote); ReadString(s, p, quote) == (t + u, e)
    {
      hide ReadString;
      StringTurn(s, q, quote, t);
      var d := s[q];
      if d == '\\' {
        q := q + 1;
        if q == |s| {
          assert t + "" == t;
          return;
        }
        d := Unescape(s[q]);
      }
      q := q + 1;
      t := t + [d];
    }
    assert t + "" == t;
    if q < |s| { q := q + 1; }
  }

  method GetOperand(s: CString, p: nat, env: Symbols) returns (r: Result)
    requires p <= |s|
    ensures r == Operand(s, p, env)
    decreases |s| - p, 1
  {
    hide Evaluate, ReadArguments, ReadString, ReadNumber;
    var q := SkipSpaces(s, p);
    var c := At(s, q);
    if '0' <= c <= '9' {
      var v, e := Atoi(s, q);
      e := SkipSpaces(s, e);
      ReadsOn(s, q);
      return Ok(Int(v), e);
    }
    if c == '"' || c == '\'' {
      var t, e := GetString(s, q + 1, c);
      e := SkipSpaces(s, e);
      return Ok(Str(t), e);
    }
    if SymbolStart(c) {
      var e := q + 1;
      while e < |s| && SymbolChar(s[e])
        invariant q + 1 <= e <= |s| && SymbolEnd(s, q + 1) == SymbolEnd(s, e)
      {
        e := e + 1;
      }
      r := GetSymbol(s, q, e, env);
      return;
    }
    if c == '(' {
      r := EvaluateText(s, q + 1, ')', env);
      return;
    }
    return Err(BADPARAM);
  }

  /** A variable's value, or a function applied to the parenthesised text after its name. */
  method GetSymbol(s: CString, q: nat, e: nat, env: Symbols) returns (r: Result)
    requires q < |s| && SymbolStart(s[q]) && !Space(s[q]) && e == SymbolEnd(s, q + 1)
    ensures r == Operand(s, q, env)
    decreases |s| - q, 0
  {
    var name := s[q..e];
    if name !in env { return Err(UNDEFSYMBOL); }
    match env[name] {
      case Var(v) =>
        var n := SkipSpaces(s, e);
        r := Ok(v, n);
      case Fn(params, f) =>
        var n := SkipSpaces(s, e);
        if params == [] { return Returned(f([]), n); }
        if At(s, n) != '(' { return Err(MISSINGPARAM); }
        var args := GetArguments(s, n + 1, params, env);
        if args.BadArgs? { return Err(args.st); }
        n := SkipSpaces(s, args.rest);
        r := Returned(f(args.vs), n);
    }
  }

  /** A function's arguments, one after another, each converted before the next is looked at. */
  method GetArguments(s: CString, p: nat, params: seq<Kind>, env: Symbols) returns (r: Arguments)
    requires p <= |s| && params != []
    ensures r == ReadArguments(s, p, params, env)
    decreases |s| - p, 3
  {
    hide Evaluate, Convert;
    var vs: seq<Value>, q, k := [], p, 0;
    ghost var all := ReadArguments(s, p, params, env);
    while true
      invariant p <= q <= |s| && k < |params|
      invariant all == Joined(vs, ReadArguments(s, q, params[k..], env))
      decreases |params| - k
    {
      ArgumentTurn(s, q, params[k..], env);
      var v := EvaluateText(s, q, if k + 1 == |params| then ')' else ',', env);
      if v.Err? { return BadArgs(v.st); }
      var w := Convert(params[k], v.v);
      if w.Fail? { return BadArgs(w.st); }
      k := k + 1;
      assert params[k - 1..][1..] == params[k..];
      if k == |params| { return Args(vs + [w.v], v.rest); }
      JoinedMore(vs, [w.v], ReadArguments(s, v.rest, params[k..], env));
      vs, q := vs + [w.v], v.rest;
    }
  }

  lemma ArgumentTurn(s: CString, p: nat, params: seq<Kind>, env: Symbols)
    requires p <= |s| && params != []
    ensures ReadArguments(s, p, params, env) ==
            match Evaluate(s, p, if |params| == 1 then ')' else ',', env)
            case Err(st) => BadArgs(st)
            case Ok(v, q) =>
              match Convert(params[0], v)
              case Fail(st) => BadArgs(st)
              case Val(w) => if |params| == 1 then Args([w], q) else Joined([w], ReadArguments(s, q, params[1..], env))
  {
    hide Evaluate, Convert;
  }

  lemma JoinedMore(a: seq<Value>, b: seq<Value>, more: Arguments)
    ensures Joined(a, Joined(b, more)) == Joined(a + b, more)
  {
    if more.Args? { assert a + (b + more.vs) == a + b + more.vs; }
  }

  method EvaluateText(s: CString, p: nat, term: char, env: Symbols) returns (r: Result)
    requires p <= |s|
    ensures r == Evaluate(s, p, term, env)
    decreases |s| - p, 2
  {
    hide Operand, Rest, Apply, FirstMatch, Skip, Matches;
    r := GetOperand(s, p, env);
    if r.Err? { return; }
    var left, q := r.v, r.rest;
    while true
      invariant p < q <= |s|
      invariant Evaluate(s, p, term, env) == Rest(s, q, left, term, env)
      decreases |s| - q
    {
      var j, n := GetOperator(s, q);
      if j == |OPERATORS| {
        RestEnds(s, q, left, term, env);
        if term == '\0' { return Ok(left, q); }
        if At(s, q) != term { return Err(BADPARAM); }
        n := SkipSpaces(s, q + 1);
        return Ok(left, n);
      }
      RestTurns(s, q, left, term, env);
      var right := GetOperand(s, n, env);
      if right.Err? { return right; }
      match Apply(OPERATORS[j].1, left, right.v) {
        case Fail(st) => return Err(st);
        case Val(v) => left, q := v, right.rest;
      }
    }
  }
}
