/** The command interpreter's expressions: operands joined by operators that all bind alike, taken
    from left to right, with parentheses. Text is read at a position; the methods in `Evaluator`
    do what these functions say. */
module Expr {
  import opened Common
  import opened Numbers

  datatype Value = Int(i: Word) | Str(s: CString)

  /** What a function takes for an argument. */
  datatype Kind = Number | Text

  /** What a name stands for: a variable, or a function of some arguments, which may refuse them. */
  datatype Binding = Var(v: Value) | Fn(params: seq<Kind>, f: seq<Value> -> Outcome)

  type Symbols = map<string, Binding>

  /** TRAP is a division by zero; SHIFT a shift by the word size or more, which C leaves open. */
  datatype Status = BADPARAM | MISSINGPARAM | UNDEFSYMBOL | TRAP | SHIFT

  datatype Result = Ok(v: Value, rest: nat) | Err(st: Status)

  datatype Outcome = Val(v: Value) | Fail(st: Status)

  /** Arguments that have been read, and where they end. */
  datatype Arguments = Args(vs: seq<Value>, rest: nat) | BadArgs(st: Status)

  datatype Op =
    | Add | BitAnd | BitOr | BitXor | BoolAnd | BoolOr | BoolXor | Divide | Eq | Gt | Ge | Lt | Le | Ne
    | Modulus | Multiply | ShLeft | ShRight | Subtract

  const OPERATORS: seq<(string, Op)> := [
    ("||", BoolOr), ("^^", BoolXor), (">>", ShRight), (">=", Ge), ("==", Eq), ("<>", Ne), ("<=", Le),
    ("<<", ShLeft), ("&&", BoolAnd), ("!=", Ne), ("|", BitOr), ("^", BitXor), (">", Gt), ("<", Lt),
    ("/", Divide), ("-", Subtract), ("+", Add), ("*", Multiply), ("&", BitAnd), ("%", Modulus)]

  predicate SymbolStart(c: char) { c == '_' || 'a' <= c <= 'z' || 'A' <= c <= 'Z' }

  predicate SymbolChar(c: char) { SymbolStart(c) || '0' <= c <= '9' }

  function SymbolEnd(s: string, p: nat): (q: nat)
    requires p <= |s|
    ensures p <= q <= |s|
    decreases |s| - p
  {
    if p < |s| && SymbolChar(s[p]) then SymbolEnd(s, p + 1) else p
  }

  function Unescape(c: char): char {
    if c == 'b' then '\U{08}' else if c == 'n' then '\n' else if c == 'r' then '\r' else if c == 't' then '\t' else c
  }

  /** The rest of a string literal and where it ends; running out of text ends it too. */
  function ReadString(s: CString, p: nat, quote: char): (r: (CString, nat))
    requires p <= |s|
    ensures p <= r.1 <= |s|
    decreases |s| - p
  {
    if p == |s| then ("", p)
    else if s[p] == quote then ("", p + 1)
    else if s[p] == '\\' then
      if p + 1 == |s| then ("", p + 1)
      else
        var (t, q) := ReadString(s, p + 2, quote);
        ([Unescape(s[p + 1])] + t, q)
    else
      var (t, q) := ReadString(s, p + 1, quote);
      ([s[p]] + t, q)
  }

  predicate Matches(name: string, s: string, p: nat) {
    p <= |s| && name <= s[p..]
  }

  /** The first entry of the operator table, from `i` on, whose name stands at `p`. */
  function FirstMatch(s: string, p: nat, i: nat): (j: nat)
    requires i <= |OPERATORS|
    ensures i <= j <= |OPERATORS|
    ensures j < |OPERATORS| ==> Matches(OPERATORS[j].0, s, p)
    decreases |OPERATORS| - i
  {
    if i == |OPERATORS| || Matches(OPERATORS[i].0, s, p) then i else FirstMatch(s, p, i + 1)
  }

  function AsText(v: Value): CString {
    match v
    case Int(i) => NumeralIsCString(i); Numeral(i, 10)
    case Str(s) => s
  }

  lemma {:induction false} NumeralIsCString(v: nat)
    ensures '\0' !in Numeral(v, 10)
  {
    if v >= 10 { NumeralIsCString(v / 10); }
  }

  function Before(p: string, q: string): bool {
    q != [] && (p == [] || p[0] < q[0] || (p[0] == q[0] && Before(p[1..], q[1..])))
  }

  /** Strings are strictly and totally ordered. */
  lemma {:induction false} BeforeIsOrder(p: string, q: string, r: string)
    ensures !Before(p, p)
    ensures Before(p, q) && Before(q, r) ==> Before(p, r)
    ensures Before(p, q) || Before(q, p) || p == q
    decreases |p|
  {
    if p != [] {
      BeforeIsOrder(p[1..], if q == [] then q else q[1..], if r == [] then r else r[1..]);
      if q != [] && p[0] == q[0] && p[1..] == q[1..] { assert p == [p[0]] + p[1..] && q == [q[0]] + q[1..]; }
    }
  }

  predicate Less(l: Value, r: Value) {
    if l.Int? && r.Int? then l.i < r.i else Before(AsText(l), AsText(r))
  }

  predicate Compares(op: Op) { op in {Eq, Gt, Ge, Lt, Le, Ne} }

  function Truth(b: bool): Value { Int(if b then 1 else 0) }

  function Comparison(op: Op, l: Value, r: Value): bool
    requires Compares(op)
  {
    match op
    case Eq => !Less(l, r) && !Less(r, l)
    case Gt => Less(r, l)
    case Ge => !Less(l, r)
    case Lt => Less(l, r)
    case Le => !Less(r, l)
    case Ne => Less(l, r) || Less(r, l)
  }

  /** `p` with the first occurrence of `q` cut out. */
  function Cut(p: string, q: string): (r: string)
    ensures forall c <- r :: c in p
  {
    if q <= p then p[|q|..] else if p == [] then [] else [p[0]] + Cut(p[1..], q)
  }

  function Bit(op: Op, x: bool, y: bool): nat {
    match op
    case BitAnd => if x && y then 1 else 0
    case BitOr => if x || y then 1 else 0
    case _ => if x != y then 1 else 0
  }

  /** The low `n` bits of a bitwise operation. */
  function Bitwise(op: Op, a: nat, b: nat, n: nat): (r: nat)
    ensures r < Pow(2, n)
  {
    if n == 0 then 0
    else 2 * Bitwise(op, a / 2, b / 2, n - 1) + Bit(op, a % 2 == 1, b % 2 == 1)
  }

  lemma {:induction false} PowerOfTwo(n: nat)
    ensures Pow(2, n) > 0 && Pow(2, 32) == WORD
  {
    if n > 0 { PowerOfTwo(n - 1); }
    assert Pow(2, 8) == 256 && Pow(2, 16) == 65536 && Pow(2, 24) == 16777216;
  }

  function Quotient(a: Word, b: nat): Word
    requires b > 0
  {
    QuotientSmall(a, b);
    a / b
  }

  lemma QuotientSmall(a: nat, b: nat)
    requires b > 0
    ensures 0 <= a / b <= a
  {
    var q, r := a / b, a % b;
    assert a == b * q + r;
    MulAtLeast(b, q);
  }

  lemma MulAtLeast(b: nat, q: int)
    requires b > 0
    ensures q >= 0 ==> b * q >= q
    ensures q < 0 ==> b * q <= q
  {
    if b > 1 {
      MulAtLeast(b - 1, q);
      assert b * q == (b - 1) * q + q;
    }
  }

  function IntOp(op: Op, a: Word, b: Word): Outcome
    requires !Compares(op)
  {
    PowerOfTwo(b);
    match op
    case Add => Val(Int((a + b) % WORD))
    case Subtract => Val(Int((a + WORD - b) % WORD))
    case Multiply => Val(Int((a * b) % WORD))
    case Divide => if b == 0 then Fail(TRAP) else Val(Int(Quotient(a, b)))
    case Modulus => if b == 0 then Fail(TRAP) else Val(Int(a % b))
    case ShLeft => if b >= 32 then Fail(SHIFT) else Val(Int((a * Pow(2, b)) % WORD))
    case ShRight => if b >= 32 then Fail(SHIFT) else Val(Int(Quotient(a, Pow(2, b))))
    case BitAnd => Val(Int(Bitwise(op, a, b, 32)))
    case BitOr => Val(Int(Bitwise(op, a, b, 32)))
    case BitXor => Val(Int(Bitwise(op, a, b, 32)))
    case BoolAnd => Val(Truth(a != 0 && b != 0))
    case BoolOr => Val(Truth(a != 0 || b != 0))
    case BoolXor => Val(Truth((a != 0) != (b != 0)))
  }

  function Apply(op: Op, l: Value, r: Value): Outcome {
    if Compares(op) then Val(Truth(Comparison(op, l, r)))
    else if l.Int? && r.Int? then IntOp(op, l.i, r.i)
    else match op
         case Add => Val(Str(AsText(l) + AsText(r)))
         case Subtract => Val(Str(Cut(AsText(l), AsText(r))))
         case _ => Fail(BADPARAM)
  }

  function Operand(s: CString, p: nat, env: Symbols): (r: Result)
    requires p <= |s|
    ensures r.Ok? ==> p < r.rest <= |s|
    decreases |s| - p, 0
  {
    var q := Skip(s, p);
    var c := At(s, q);
    if '0' <= c <= '9' then
      var (v, e) := ReadNumber(s, q);
      ReadsOn(s, q);
      Ok(Int(v), Skip(s, e))
    else if c == '"' || c == '\'' then
      var (t, e) := ReadString(s, q + 1, c);
      Ok(Str(t), Skip(s, e))
    else if SymbolStart(c) then
      var e := SymbolEnd(s, q + 1);
      if s[q..e] !in env then Err(UNDEFSYMBOL)
      else match env[s[q..e]]
           case Var(v) => Ok(v, Skip(s, e))
           case Fn(params, f) =>
             if params == [] then Returned(f([]), Skip(s, e))
             else
               var b := Skip(s, e);
               if At(s, b) != '(' then Err(MISSINGPARAM)
               else
                 match ReadArguments(s, b + 1, params, env)
                 case BadArgs(st) => Err(st)
                 case Args(vs, rest) => Returned(f(vs), Skip(s, rest))
    else if c == '(' then Evaluate(s, q + 1, ')', env)
    else Err(BADPARAM)
  }

  /** Arguments are expressions between commas, the last before a parenthesis. */
  function ReadArguments(s: CString, p: nat, params: seq<Kind>, env: Symbols): (r: Arguments)
    requires p <= |s| && params != []
    ensures r.Args? ==> p < r.rest <= |s| && |r.vs| == |params|
    decreases |s| - p, 2
  {
    match Evaluate(s, p, if |params| == 1 then ')' else ',', env)
    case Err(st) => BadArgs(st)
    case Ok(v, q) =>
      match Convert(params[0], v)
      case Fail(st) => BadArgs(st)
      case Val(w) => if |params| == 1 then Args([w], q) else Joined([w], ReadArguments(s, q, params[1..], env))
  }

  function Joined(vs: seq<Value>, more: Arguments): Arguments {
    if more.BadArgs? then more else Args(vs + more.vs, more.rest)
  }

  /** A value as an argument: a string is a number only if it is one throughout. */
  function Convert(kind: Kind, v: Value): Outcome {
    if kind == Text then Val(Str(AsText(v)))
    else if v.Int? then Val(v)
    else
      var (i, e) := ReadNumber(v.s, 0);
      if e == |v.s| then Val(Int(i)) else Fail(BADPARAM)
  }

  function Returned(o: Outcome, rest: nat): Result {
    match o case Val(v) => Ok(v, rest) case Fail(st) => Err(st)
  }

  function Evaluate(s: CString, p: nat, term: char, env: Symbols): (r: Result)
    requires p <= |s|
    ensures r.Ok? ==> p < r.rest <= |s|
    decreases |s| - p, 1
  {
    match Operand(s, p, env)
    case Err(st) => Err(st)
    case Ok(v, q) => Rest(s, q, v, term, env)
  }

  /** From a left-hand value on: operators and operands for as long as there are operators. */
  function Rest(s: CString, p: nat, left: Value, term: char, env: Symbols): (r: Result)
    requires p <= |s|
    ensures r.Ok? ==> p <= r.rest <= |s|
    decreases |s| - p, 1
  {
    var q := Skip(s, p);
    var j := FirstMatch(s, q, 0);
    if j == |OPERATORS| then
      if term == '\0' then Ok(left, p)
      else if At(s, p) != term then Err(BADPARAM)
      else Ok(left, Skip(s, p + 1))
    else
      NamesAreShort(j);
      match Operand(s, Skip(s, q + |OPERATORS[j].0|), env)
      case Err(st) => Err(st)
      case Ok(right, n) =>
        match Apply(OPERATORS[j].1, left, right)
        case Fail(st) => Err(st)
        case Val(v) => Rest(s, n, v, term, env)
  }

  lemma NamesAreShort(j: nat)
    requires j < |OPERATORS|
    ensures 1 <= |OPERATORS[j].0| <= 2
  {}

  lemma ReadsOn(s: string, p: nat)
    requires p < |s| && '0' <= s[p] <= '9'
    ensures ReadNumber(s, p).1 > p
  {}

  /** What evaluation does once the left-hand side has come to an outcome at `q`. */
  function GoOn(o: Outcome, s: CString, q: nat, term: char, env: Symbols): Result
    requires q <= |s|
  {
    match o
    case Fail(st) => Err(st)
    case Val(v) => Rest(s, q, v, term, env)
  }

  /** What it does once the right-hand operand of operator `j` has been read. */
  function Turn(left: Value, j: nat, r: Result, s: CString, term: char, env: Symbols): Result
    requires j < |OPERATORS| && (r.Ok? ==> r.rest <= |s|)
  {
    match r
    case Err(st) => Err(st)
    case Ok(right, end) => GoOn(Apply(OPERATORS[j].1, left, right), s, end, term, env)
  }

  /** One turn of the evaluation, while there is an operator. */
  lemma RestTurns(s: CString, q: nat, left: Value, term: char, env: Symbols)
    requires q <= |s| && FirstMatch(s, Skip(s, q), 0) < |OPERATORS|
    ensures var j := FirstMatch(s, Skip(s, q), 0);
            var m := Skip(s, q) + |OPERATORS[j].0|;
            && m <= |s|
            && Rest(s, q, left, term, env) == Turn(left, j, Operand(s, Skip(s, m), env), s, term, env)
  {
    hide Operand, Apply, FirstMatch, Skip;
    NamesAreShort(FirstMatch(s, Skip(s, q), 0));
  }

  /** ... and when there is none. */
  lemma RestEnds(s: CString, q: nat, left: Value, term: char, env: Symbols)
    requires q <= |s| && FirstMatch(s, Skip(s, q), 0) == |OPERATORS|
    ensures Rest(s, q, left, term, env) ==
            if term == '\0' then Ok(left, q) else if At(s, q) != term then Err(BADPARAM) else Ok(left, Skip(s, q + 1))
  {
    hide FirstMatch, Skip;
  }
}
