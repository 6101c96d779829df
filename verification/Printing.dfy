/** Expression trees, their left-to-right value, and the text that stands for them. Evaluating the text
    gives the value. */
module Printing {
  import opened Common
  import opened Numbers
  import opened Expr

  /** `j` is an entry of the operator table. */
  datatype Tree =
    | Lit(i: Word) | Quote(s: CString) | Name(n: string) | Bin(j: nat, l: Tree, r: Tree) | Call(n: string, args: List)

  /** The arguments of a call, of which there is at least one. */
  datatype List = One(arg: Tree) | More(arg: Tree, rest: List)

  function Length(args: List): (n: nat)
    ensures n > 0
  {
    match args case One(_) => 1 case More(_, rest) => 1 + Length(rest)
  }

  predicate IsName(n: string) {
    n != "" && SymbolStart(n[0]) && forall c <- n :: SymbolChar(c)
  }

  ghost predicate WellFormed(e: Tree, env: Symbols)
    decreases e
  {
    match e
    case Lit(_) => true
    case Quote(_) => true
    case Name(n) => IsName(n)
    case Bin(j, l, r) => j < |OPERATORS| && WellFormed(l, env) && WellFormed(r, env)
    case Call(n, args) =>
      IsName(n) && n in env && env[n].Fn? && Length(args) == |env[n].params| && AllWellFormed(args, env)
  }

  ghost predicate AllWellFormed(args: List, env: Symbols)
    decreases args
  {
    WellFormed(args.arg, env) && (args.More? ==> AllWellFormed(args.rest, env))
  }

  /** A function without parameters is used like a variable. */
  function Meaning(e: Tree, env: Symbols): Outcome
    requires WellFormed(e, env)
    decreases e
  {
    match e
    case Lit(i) => Val(Int(i))
    case Quote(s) => Val(Str(s))
    case Name(n) =>
      if n !in env then Fail(UNDEFSYMBOL)
      else if env[n].Var? then Val(env[n].v)
      else if env[n].params == [] then env[n].f([])
      else Fail(MISSINGPARAM)
    case Bin(j, l, r) =>
      var lv := Meaning(l, env);
      if lv.Fail? then lv
      else
        var rv := Meaning(r, env);
        if rv.Fail? then rv else Apply(OPERATORS[j].1, lv.v, rv.v)
    case Call(n, args) =>
      match Meanings(args, env[n].params, env)
      case BadArgs(st) => Fail(st)
      case Args(vs, _) => env[n].f(vs)
  }

  /** The arguments' values, or the first failure, be it of an argument or of its conversion. */
  function Meanings(args: List, params: seq<Kind>, env: Symbols): Arguments
    requires AllWellFormed(args, env) && Length(args) == |params|
    decreases args
  {
    match Meaning(args.arg, env)
    case Fail(st) => BadArgs(st)
    case Val(v) =>
      match Convert(params[0], v)
      case Fail(st) => BadArgs(st)
      case Val(w) => if args.One? then Args([w], 0) else Joined([w], Meanings(args.rest, params[1..], env))
  }

  function Escape(t: string): string {
    if t == "" then ""
    else (if t[0] == '"' || t[0] == '\\' then ['\\', t[0]] else [t[0]]) + Escape(t[1..])
  }

  function Print(e: Tree, env: Symbols): string
    requires WellFormed(e, env)
    decreases e, 0
  {
    match e
    case Lit(i) => Numeral(i, 10)
    case Quote(s) => "\"" + Escape(s) + "\""
    case Name(n) => n
    case Bin(j, l, r) => Print(l, env) + OPERATORS[j].0 + Closed(r, env)
    case Call(n, args) => n + "(" + PrintAll(args, env)
  }

  function PrintAll(args: List, env: Symbols): string
    requires AllWellFormed(args, env)
    decreases args, 0
  {
    match args
    case One(arg) => Print(arg, env) + ")"
    case More(arg, rest) => Print(arg, env) + "," + PrintAll(rest, env)
  }

  /** A right operand: parenthesised if it is itself compound. */
  function Closed(e: Tree, env: Symbols): string
    requires WellFormed(e, env)
    decreases e, 1
  {
    if e.Bin? then "(" + Print(e, env) + ")" else Print(e, env)
  }

  predicate Stands(text: string, s: string, p: nat) {
    p + |text| <= |s| && s[p..p + |text|] == text
  }

  lemma StandsApart(a: string, b: string, s: string, p: nat)
    requires Stands(a + b, s, p)
    ensures Stands(a, s, p) && Stands(b, s, p + |a|)
  {
    assert s[p..p + |a|] == s[p..p + |a + b|][..|a|];
    assert s[p + |a|..p + |a + b|] == s[p..p + |a + b|][|a|..];
  }

  /** A character that ends any operand. */
  predicate Boundary(c: char) {
    !SymbolChar(c) && !Space(c) && c != '('
  }

  lemma FirstMatchIsFirst(s: string, p: nat, i: nat, k: nat)
    requires i <= k < |OPERATORS| && Matches(OPERATORS[k].0, s, p)
    ensures FirstMatch(s, p, i) <= k
    decreases |OPERATORS| - i
  {}

  lemma TableShape(k: nat)
    requires k < |OPERATORS|
    ensures |OPERATORS[k].0| == if k < 10 then 2 else 1
    ensures OPERATORS[k].0[0] in "|^>=<&!/-+*%"
    ensures k < 10 ==> OPERATORS[k].0[1] in "|^>=<&"
  {}

  lemma NamesDiffer(k: nat, m: nat)
    requires k < m < |OPERATORS|
    ensures OPERATORS[k].0 != OPERATORS[m].0
  {
    TableShape(k);
    TableShape(m);
  }

  /** The table finds the longest operator that stands in the text: the two-character names come first. */
  lemma FirstIsLongest(s: string, p: nat, k: nat)
    requires k < |OPERATORS| && Matches(OPERATORS[k].0, s, p)
    ensures var j := FirstMatch(s, p, 0);
            j < |OPERATORS| && |OPERATORS[k].0| <= |OPERATORS[j].0|
  {
    FirstMatchIsFirst(s, p, 0, k);
    TableShape(k);
    TableShape(FirstMatch(s, p, 0));
  }

  /** An operator followed by the start of an operand is read as just that operator. */
  lemma OperatorReads(s: string, p: nat, j: nat)
    requires j < |OPERATORS| && Stands(OPERATORS[j].0, s, p)
    requires At(s, p + |OPERATORS[j].0|) !in "|^>=<&"
    ensures FirstMatch(s, p, 0) == j
  {
    assert Matches(OPERATORS[j].0, s, p);
    FirstMatchIsFirst(s, p, 0, j);
    var m := FirstMatch(s, p, 0);
    TableShape(j);
    TableShape(m);
    if m < j { NamesDiffer(m, j); }
  }

  lemma SkipStays(s: string, p: nat)
    requires p <= |s| && !Space(At(s, p))
    ensures Skip(s, p) == p
  {}

  lemma {:induction false} NameReads(s: string, p: nat, n: string)
    requires Stands(n, s, p) && (forall c <- n :: SymbolChar(c)) && !SymbolChar(At(s, p + |n|))
    ensures SymbolEnd(s, p) == p + |n|
    decreases |n|
  {
    if n != "" {
      StandsApart(n[..1], n[1..], s, p);
      assert n == n[..1] + n[1..] && s[p] == s[p..p + |n|][0];
      NameReads(s, p + 1, n[1..]);
    }
  }

  /** One character of a literal, escaped or not. */
  lemma QuoteStep(s: CString, p: nat, c: char, q: nat, t: CString, e: nat)
    requires c != '\0'
    requires if c == '"' || c == '\\' then q == p + 2 && At(s, p) == '\\' && At(s, p + 1) == c
             else q == p + 1 && At(s, p) == c
    requires q <= |s| && ReadString(s, q, '"') == (t, e)
    ensures ReadString(s, p, '"') == ([c] + t, e)
  {}

  lemma {:induction false} QuoteReads(s: CString, p: nat, t: CString)
    requires Stands(Escape(t) + "\"", s, p)
    ensures ReadString(s, p, '"') == (t, p + |Escape(t)| + 1)
    decreases |t|
  {
    hide ReadString;
    if t == "" {
      assert s[p] == s[p..p + 1][0];
      assert ReadString(s, p, '"') == ("", p + 1) by { EmptyQuote(s, p); }
    } else {
      var rest: CString := t[1..];
      var first := if t[0] == '"' || t[0] == '\\' then ['\\', t[0]] else [t[0]];
      assert Escape(t) + "\"" == first + (Escape(rest) + "\"");
      StandsApart(first, Escape(rest) + "\"", s, p);
      assert s[p] == s[p..p + |first|][0];
      if |first| == 2 { assert s[p + 1] == s[p..p + 2][1]; }
      QuoteReads(s, p + |first|, rest);
      QuoteStep(s, p, t[0], p + |first|, rest, p + |Escape(t)| + 1);
      assert t == [t[0]] + rest;
    }
  }

  /** A backslash: b, n, r and t stand for control characters, any other character for itself. */
  lemma EscapedReads(s: CString, p: nat, quote: char)
    requires p + 1 < |s| && s[p] == '\\' && quote != '\\'
    ensures var (t, e) := ReadString(s, p, quote);
            && t != "" && (t[1..], e) == ReadString(s, p + 2, quote)
            && (s[p + 1] == 'b' ==> t[0] as int == 8) && (s[p + 1] == 't' ==> t[0] as int == 9)
            && (s[p + 1] == 'n' ==> t[0] as int == 10) && (s[p + 1] == 'r' ==> t[0] as int == 13)
            && (s[p + 1] !in {'b', 'n', 'r', 't'} ==> t[0] == s[p + 1])
  {
    hide ReadString;
    QuoteTurn(s, p, quote);
  }

  lemma QuoteTurn(s: CString, p: nat, quote: char)
    requires p + 1 < |s| && s[p] == '\\' && quote != '\\'
    ensures var (t, e) := ReadString(s, p + 2, quote); ReadString(s, p, quote) == ([Unescape(s[p + 1])] + t, e)
  {}

  /** Text without backslashes and quotes of its kind may stand in either quotes as it is. */
  lemma {:induction false} PlainQuoteReads(s: CString, p: nat, t: CString, quote: char)
    requires Stands(t + [quote], s, p) && quote != '\\' && quote !in t && '\\' !in t
    ensures ReadString(s, p, quote) == (t, p + |t| + 1)
    decreases |t|
  {
    if t == "" {
      assert s[p] == s[p..p + 1][0];
    } else {
      assert t + [quote] == t[..1] + (t[1..] + [quote]) && t[0] in t;
      StandsApart(t[..1], t[1..] + [quote], s, p);
      assert s[p] == s[p..p + |t + [quote]|][0];
      PlainQuoteReads(s, p + 1, t[1..], quote);
      assert t == [t[0]] + t[1..];
    }
  }

  lemma OperandSkips(s: CString, p: nat, env: Symbols)
    requires p <= |s|
    ensures Operand(s, p, env) == Operand(s, Skip(s, p), env)
  {
    hide Evaluate, ReadArguments, ReadNumber, ReadString, SymbolEnd, Skip, Space;
    SkipAgain(s, p);
  }

  lemma SkipAgain(s: string, p: nat)
    requires p <= |s|
    ensures Skip(s, Skip(s, p)) == Skip(s, p)
  {}

  /** Blanks before an operand, and before an operator or the end, make no difference. */
  lemma BlanksIgnored(s: CString, p: nat, left: Value, term: char, env: Symbols)
    requires p < |s| && Space(s[p])
    ensures Operand(s, p, env) == Operand(s, p + 1, env)
    ensures FirstMatch(s, Skip(s, p), 0) < |OPERATORS| ==>
              Rest(s, p, left, term, env) == Rest(s, p + 1, left, term, env)
  {
    hide Operand, FirstMatch, Apply, Rest, OPERATORS;
    assert Skip(s, p) == Skip(s, p + 1);
    OperandSkips(s, p, env);
    OperandSkips(s, p + 1, env);
    if FirstMatch(s, Skip(s, p), 0) < |OPERATORS| {
      RestTurns(s, p, left, term, env);
      RestTurns(s, p + 1, left, term, env);
    }
  }

  /** Any value is text; a number is one already, or is text that is a number from end to end. */
  lemma ConvertIs(v: Value, i: Word)
    ensures Convert(Text, v) == Val(Str(AsText(v)))
    ensures Convert(Number, Int(i)) == Convert(Number, Str(AsText(Int(i)))) == Val(Int(i))
  {
    var s := Numeral(i, 10);
    NumeralIsCString(i);
    NumeralStarts(i);
    assert s[0..0 + |s|] == s;
    RoundTrip(s, 0, i);
  }

  /** Text that ends in no digit is no number. */
  lemma NoNumber(s: CString)
    requires s != "" && DigitValue(s[|s| - 1], 10) < 0 && DigitValue(s[|s| - 1], 16) < 0
    requires s[|s| - 1] !in {'x', 'X'}
    ensures Convert(Number, Str(s)) == Fail(BADPARAM)
  {
    if At(s, 0) == '0' && At(s, 1) in {'x', 'X'} { StopsAtLast(s, 2, 16, 0); } else { StopsAtLast(s, 0, 10, 0); }
  }

  lemma {:induction false} StopsAtLast(s: string, p: nat, base: nat, acc: nat)
    requires p < |s| && acc < WORD && DigitValue(s[|s| - 1], base) < 0
    ensures ReadDigits(s, p, base, acc).1 < |s|
    decreases |s| - p
  {
    if DigitValue(s[p], base) >= 0 { StopsAtLast(s, p + 1, base, (acc * base + DigitValue(s[p], base)) % WORD); }
  }

  lemma EmptyQuote(s: CString, p: nat)
    requires At(s, p) == '"'
    ensures ReadString(s, p, '"') == ("", p + 1)
  {}

  /** How an operand's text starts. */
  predicate OperandStart(c: char) {
    '0' <= c <= '9' || c == '"' || c == '(' || SymbolStart(c)
  }

  lemma {:induction false} PrintStarts(e: Tree, env: Symbols)
    requires WellFormed(e, env)
    ensures Print(e, env) != "" && OperandStart(Print(e, env)[0])
    ensures Closed(e, env) != "" && OperandStart(Closed(e, env)[0])
  {
    match e
    case Lit(i) => NumeralStarts(i);
    case Quote(_) =>
    case Name(n) =>
    case Bin(j, l, r) => PrintStarts(l, env);
    case Call(n, args) =>
  }

  lemma {:induction false} NumeralStarts(v: nat)
    ensures '0' <= Numeral(v, 10)[0] <= '9'
    ensures v == 0 ==> Numeral(v, 10) == "0"
  {
    if v >= 10 { NumeralStarts(v / 10); }
  }

  ghost function Done(o: Outcome, q: nat): Result {
    match o
    case Fail(st) => Err(st)
    case Val(v) => Ok(v, q)
  }

  lemma LitReads(i: Word, s: CString, p: nat, env: Symbols)
    requires Stands(Numeral(i, 10), s, p) && Boundary(At(s, p + |Numeral(i, 10)|))
    ensures Operand(s, p, env) == Ok(Int(i), p + |Numeral(i, 10)|)
  {
    NumeralStarts(i);
    assert s[p] == s[p..p + |Numeral(i, 10)|][0];
    RoundTrip(s, p, i);
  }

  lemma NameOperand(n: string, s: CString, p: nat, env: Symbols)
    requires IsName(n) && Stands(n, s, p) && Boundary(At(s, p + |n|))
    ensures Operand(s, p, env) == Done(Meaning(Name(n), env), p + |n|)
  {
    assert s[p] == s[p..p + |n|][0];
    NameReads(s, p, n);
    assert s[p..p + |n|] == n;
  }

  lemma ClosesAt(s: CString, p: nat, v: Value, term: char, env: Symbols)
    requires p < |s| && s[p] == term && term in {')', ','} && !Space(At(s, p + 1))
    ensures Rest(s, p, v, term, env) == Ok(v, p + 1)
  {
    hide FirstMatch;
    NoOperator(s, p);
    RestEnds(s, p, v, term, env);
  }

  lemma NoOperator(s: CString, p: nat)
    requires p <= |s| && At(s, p) in {')', ',', '}', '\0'}
    ensures Skip(s, p) == p && FirstMatch(s, p, 0) == |OPERATORS|
  {
    hide OPERATORS;
    var j := FirstMatch(s, p, 0);
    if j < |OPERATORS| { TableShape(j); }
  }

  /** Parenthesised, or as a function's argument: the text up to the closing character is evaluated whole. */
  lemma {:induction false} InnerReads(e: Tree, s: CString, p: nat, term: char, env: Symbols)
    requires WellFormed(e, env) && Stands(Print(e, env) + [term], s, p) && term in {')', ','}
    requires !Space(At(s, p + |Print(e, env)| + 1))
    ensures Evaluate(s, p, term, env) == Done(Meaning(e, env), p + |Print(e, env)| + 1)
    decreases e, 3
  {
    hide Rest, Evaluate, Operand, Meaning, Print;
    var n := |Print(e, env)|;
    StandsApart(Print(e, env), [term], s, p);
    assert s[p + n] == s[p + n..p + n + 1][0] == term;
    PrintReads(e, s, p, term, env);
    if Meaning(e, env).Val? { ClosesAt(s, p + n, Meaning(e, env).v, term, env); }
  }

  lemma {:induction false} OperandReads(e: Tree, s: CString, p: nat, env: Symbols)
    requires WellFormed(e, env) && Stands(Closed(e, env), s, p) && Boundary(At(s, p + |Closed(e, env)|))
    ensures Operand(s, p, env) == Done(Meaning(e, env), p + |Closed(e, env)|)
    decreases e, if e.Bin? then 4 else 1
  {
    hide Rest, Evaluate, Operand, Apply;
    match e
    case Lit(i) => LitReads(i, s, p, env);
    case Quote(t) => QuoteOperand(t, s, p, env);
    case Name(n) => NameOperand(n, s, p, env);
    case Bin(j, l, r) =>
      var text := Print(e, env) + ")";
      assert Closed(e, env) == "(" + text;
      StandsApart("(", text, s, p);
      assert s[p] == s[p..p + 1][0];
      InnerReads(e, s, p + 1, ')', env);
      ParenOperand(s, p, env);
    case Call(n, args) => CallReads(n, args, s, p, env);
  }

  lemma ParenOperand(s: CString, p: nat, env: Symbols)
    requires At(s, p) == '('
    ensures Operand(s, p, env) == Evaluate(s, p + 1, ')', env)
  {
    hide Evaluate;
  }

  lemma QuoteOperand(t: CString, s: CString, p: nat, env: Symbols)
    requires Stands(Print(Quote(t), env), s, p) && Boundary(At(s, p + |Print(Quote(t), env)|))
    ensures Operand(s, p, env) == Ok(Str(t), p + |Print(Quote(t), env)|)
  {
    hide Evaluate, ReadString;
    assert Print(Quote(t), env) == "\"" + (Escape(t) + "\"");
    StandsApart("\"", Escape(t) + "\"", s, p);
    assert s[p] == s[p..p + 1][0];
    QuoteReads(s, p + 1, t);
    SkipStays(s, p + |Print(Quote(t), env)|);
  }

  lemma {:induction false} CallReads(n: string, args: List, s: CString, p: nat, env: Symbols)
    requires WellFormed(Call(n, args), env) && Stands(Print(Call(n, args), env), s, p)
    requires Boundary(At(s, p + |Print(Call(n, args), env)|))
    ensures Operand(s, p, env) == Done(Meaning(Call(n, args), env), p + |Print(Call(n, args), env)|)
    decreases args, 5
  {
    hide Rest, Evaluate, Apply, Operand, ReadArguments, Meanings, PrintAll, Skip;
    var inner := PrintAll(args, env);
    assert Print(Call(n, args), env) == n + ("(" + inner);
    StandsApart(n, "(" + inner, s, p);
    StandsApart("(", inner, s, p + |n|);
    assert s[p + |n|] == s[p + |n|..p + |n| + 1][0] == '(';
    ArgumentsRead(args, env[n].params, s, p + |n| + 1, env);
    CallOperand(n, s, p, env);
    SkipStays(s, p + |n| + 1 + |inner|);
  }

  /** Printed arguments are read back as their values, with the same failures. */
  lemma {:induction false} ArgumentsRead(args: List, params: seq<Kind>, s: CString, p: nat, env: Symbols)
    requires AllWellFormed(args, env) && Length(args) == |params|
    requires Stands(PrintAll(args, env), s, p) && !Space(At(s, p + |PrintAll(args, env)|))
    ensures ReadArguments(s, p, params, env) == Ending(Meanings(args, params, env), p + |PrintAll(args, env)|)
    decreases args, 4
  {
    hide Evaluate, Meaning, Print, Convert;
    var text, term := Print(args.arg, env), if args.One? then ')' else ',';
    var more := if args.One? then "" else PrintAll(args.rest, env);
    assert PrintAll(args, env) == (text + [term]) + more;
    StandsApart(text + [term], more, s, p);
    if args.More? { AllStart(args.rest, s, p + |text| + 1, env); }
    InnerReads(args.arg, s, p, term, env);
    if args.More? { ArgumentsRead(args.rest, params[1..], s, p + |text| + 1, env); }
  }

  /** Arguments do not begin with a blank. */
  lemma AllStart(args: List, s: CString, p: nat, env: Symbols)
    requires AllWellFormed(args, env) && Stands(PrintAll(args, env), s, p)
    ensures !Space(At(s, p))
  {
    hide Print;
    PrintStarts(args.arg, env);
    assert PrintAll(args, env)[0] == Print(args.arg, env)[0];
    assert s[p] == s[p..p + |PrintAll(args, env)|][0];
  }

  ghost function Ending(args: Arguments, rest: nat): Arguments {
    if args.BadArgs? then args else Args(args.vs, rest)
  }

  lemma CallOperand(n: string, s: CString, p: nat, env: Symbols)
    requires IsName(n) && Stands(n, s, p) && At(s, p + |n|) == '(' && n in env && env[n].Fn? && env[n].params != []
    ensures Operand(s, p, env) == match ReadArguments(s, p + |n| + 1, env[n].params, env)
                                  case BadArgs(st) => Err(st)
                                  case Args(vs, rest) => Returned(env[n].f(vs), Skip(s, rest))
  {
    hide Evaluate, ReadArguments;
    assert s[p] == s[p..p + |n|][0];
    NameReads(s, p, n);
    assert s[p..p + |n|] == n;
  }

  /** The heart of it: wherever the printed text stands, evaluating from its start comes to the tree's
      outcome at its end and goes on from there. */
  lemma {:induction false} PrintReads(e: Tree, s: CString, p: nat, term: char, env: Symbols)
    requires WellFormed(e, env) && Stands(Print(e, env), s, p) && Boundary(At(s, p + |Print(e, env)|))
    ensures Evaluate(s, p, term, env) == GoOn(Meaning(e, env), s, p + |Print(e, env)|, term, env)
    decreases e, 2
  {
    hide Rest, Operand, Meaning, Print;
    match e
    case Bin(j, l, r) => BinReads(j, l, r, s, p, term, env);
    case Lit(_) => OperandReads(e, s, p, env);
    case Quote(_) => OperandReads(e, s, p, env);
    case Name(_) => OperandReads(e, s, p, env);
    case Call(n, args) => CallReads(n, args, s, p, env);
  }

  lemma {:induction false} BinReads(j: nat, l: Tree, r: Tree, s: CString, p: nat, term: char, env: Symbols)
    requires WellFormed(Bin(j, l, r), env) && Stands(Print(Bin(j, l, r), env), s, p)
    requires Boundary(At(s, p + |Print(Bin(j, l, r), env)|))
    ensures var e := Bin(j, l, r);
            Evaluate(s, p, term, env) == GoOn(Meaning(e, env), s, p + |Print(e, env)|, term, env)
    decreases Bin(j, l, r), 0
  {
    hide Rest, Operand, Evaluate, Apply, Closed, FirstMatch, OPERATORS, Numeral, Escape, Skip;
    var left, more := Print(l, env), OPERATORS[j].0 + Closed(r, env);
    assert Print(Bin(j, l, r), env) == left + more;
    StandsApart(left, more, s, p);
    var q := p + |left|;
    TableShape(j);
    assert s[q] == s[q..q + |more|][0];
    PrintReads(l, s, p, term, env);
    if Meaning(l, env).Val? { RightReads(j, Meaning(l, env).v, r, s, q, term, env); }
  }

  /** An operator and its right operand, standing after a left-hand value. */
  lemma {:induction false} RightReads(j: nat, left: Value, r: Tree, s: CString, q: nat, term: char, env: Symbols)
    requires j < |OPERATORS| && WellFormed(r, env) && Stands(OPERATORS[j].0 + Closed(r, env), s, q)
    requires Boundary(At(s, q + |OPERATORS[j].0 + Closed(r, env)|))
    ensures var end := q + |OPERATORS[j].0 + Closed(r, env)|;
            Rest(s, q, left, term, env) ==
            match Meaning(r, env)
            case Fail(st) => Err(st)
            case Val(right) => GoOn(Apply(OPERATORS[j].1, left, right), s, end, term, env)
    decreases r, 5
  {
    hide Operand, Evaluate, Apply, Closed, Meaning, FirstMatch, Print, Rest, Skip, OPERATORS;
    var name, right := OPERATORS[j].0, Closed(r, env);
    StandsApart(name, right, s, q);
    TableShape(j);
    PrintStarts(r, env);
    assert s[q] == s[q..q + |name|][0];
    assert s[q + |name|] == s[q + |name|..q + |name| + |right|][0];
    OperatorReads(s, q, j);
    OperandReads(r, s, q + |name|, env);
    SkipStays(s, q);
    SkipStays(s, q + |name|);
    RestTurns(s, q, left, term, env);
    assert q + |name + right| == q + |name| + |right|;
  }

  lemma {:induction false} PrintIsCString(e: Tree, env: Symbols)
    requires WellFormed(e, env)
    ensures '\0' !in Print(e, env)
    decreases e
  {
    match e
    case Lit(i) => NumeralIsCString(i);
    case Quote(t) => EscapeIsCString(t);
    case Name(n) =>
    case Bin(j, l, r) => PrintIsCString(l, env); PrintIsCString(r, env); NamesAreCStrings(j);
    case Call(n, args) => AllIsCString(args, env);
  }

  lemma {:induction false} AllIsCString(args: List, env: Symbols)
    requires AllWellFormed(args, env)
    ensures '\0' !in PrintAll(args, env)
    decreases args
  {
    PrintIsCString(args.arg, env);
    if args.More? { AllIsCString(args.rest, env); }
  }

  lemma {:induction false} EscapeIsCString(t: CString)
    ensures '\0' !in Escape(t)
    decreases |t|
  {
    if t != "" { EscapeIsCString(t[1..]); }
  }

  lemma NamesAreCStrings(j: nat)
    requires j < |OPERATORS|
    ensures '\0' !in OPERATORS[j].0
  {}

  /** Evaluating the whole text of a tree gives the tree's value, or its first failure, and uses all of it. */
  lemma PrintThenEvaluate(e: Tree, env: Symbols)
    requires WellFormed(e, env)
    ensures '\0' !in Print(e, env)
    ensures Evaluate(Print(e, env), 0, '\0', env) == Done(Meaning(e, env), |Print(e, env)|)
  {
    hide Evaluate, Meaning, Print;
    PrintIsCString(e, env);
    var s := Print(e, env);
    assert s[0..|s|] == s;
    PrintReads(e, s, 0, '\0', env);
    NoOperator(s, |s|);
    if Meaning(e, env).Val? { RestEnds(s, |s|, Meaning(e, env).v, '\0', env); }
  }
}
