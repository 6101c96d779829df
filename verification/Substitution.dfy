/** Expressions in braces on a command line: each is replaced by the text of its value, outside single quotes and
    where the brace is not escaped. */
module Substitution {
  import opened Common
  import opened Numbers
  import opened Expr
  import opened Printing
  import Evaluator

  datatype Line = Line(text: string) | Error(st: Status)

  /** What an opening brace leads to: text for it, and where its closing brace is. */
  datatype Braced = Value(text: string, close: nat) | Undefined(close: nat) | Failure(st: Status)

  /** The text from `k` on is what follows the brace. A lone name that is not defined is passed over. */
  function Brace(s: CString, k: nat, env: Symbols): (r: Braced)
    requires k <= |s|
    ensures r.Value? || r.Undefined? ==> k <= r.close < |s|
  {
    var e := if SymbolStart(At(s, k)) then SymbolEnd(s, k + 1) else k;
    if SymbolStart(At(s, k)) && At(s, e) == '}' && s[k..e] !in env then Undefined(e)
    else
      match Evaluate(s, k, '\0', env)
      case Err(st) => Failure(st)
      case Ok(v, p) => if At(s, p) == '}' then Value(AsText(v), p) else Failure(BADPARAM)
  }

  function Before(t: string, line: Line): Line {
    if line.Error? then line else Line(t + line.text)
  }

  /** The line from `i` on with its expressions replaced. */
  function Substituted(s: CString, i: nat, quoted: bool, env: Symbols): Line
    requires i <= |s|
    decreases |s| - i
  {
    if i == |s| then Line("")
    else if s[i] == '\\' then
      if i + 1 == |s| then Line("") else Before(['\\', s[i + 1]], Substituted(s, i + 2, quoted, env))
    else if s[i] == '\'' then Before("'", Substituted(s, i + 1, !quoted, env))
    else if !quoted && s[i] == '{' then
      match Brace(s, i + 1, env)
      case Undefined(close) => Substituted(s, close + 1, quoted, env)
      case Failure(st) => Error(st)
      case Value(text, close) => Before(text, Substituted(s, close + 1, quoted, env))
    else Before([s[i]], Substituted(s, i + 1, quoted, env))
  }

  /** One brace, as the interpreter reads it. */
  method ReadBrace(s: CString, k: nat, env: Symbols) returns (r: Braced)
    requires k <= |s|
    ensures r == Brace(s, k, env)
  {
    hide Evaluate, AsText;
    if SymbolStart(At(s, k)) {
      var j := k + 1;
      while j < |s| && SymbolChar(s[j])
        invariant k + 1 <= j <= |s| && SymbolEnd(s, k + 1) == SymbolEnd(s, j)
      {
        j := j + 1;
      }
      if At(s, j) == '}' && s[k..j] !in env { return Undefined(j); }
    }
    var v := Evaluator.EvaluateText(s, k, '\0', env);
    match v
    case Err(st) => r := Failure(st);
    case Ok(value, p) => r := if At(s, p) == '}' then Value(AsText(value), p) else Failure(BADPARAM);
  }

  /** A larger buffer with the same beginning. */
  method Grow(outbuf: array<char>, o: nat, more: nat) returns (larger: array<char>)
    requires o <= outbuf.Length && more > 0
    ensures fresh(larger) && larger.Length == outbuf.Length + more && larger[..o] == outbuf[..o]
  {
    larger := new char[outbuf.Length + more](_ => '\0');
    forall x | 0 <= x < o { larger[x] := outbuf[x]; }
  }

  /** Copies text to the output, which is made larger first if it might not hold that and the null. */
  method PutText(outbuf: array<char>, o: nat, t: string, more: nat) returns (out: array<char>, o': nat)
    requires o < outbuf.Length && more > |t|
    modifies outbuf
    ensures (out == outbuf || fresh(out)) && o' == o + |t| < out.Length && out[..o'] == old(outbuf[..o]) + t
  {
    out := outbuf;
    if o + |t| >= out.Length { out := Grow(out, o, more); }
    forall x | 0 <= x < |t| { out[o + x] := t[x]; }
    o' := o + |t|;
  }

  /** Copies one character, after its backslash if it has one. */
  method PutChar(outbuf: array<char>, o: nat, escaped: bool, c: char, more: nat) returns (out: array<char>, o': nat)
    requires o < outbuf.Length && more >= 2
    modifies outbuf
    ensures (out == outbuf || fresh(out)) && o' < out.Length
    ensures out[..o'] == old(outbuf[..o]) + (if escaped then ['\\', c] else [c])
  {
    out, o' := outbuf, o;
    if escaped {
      out[o'] := '\\';
      o' := o' + 1;
    }
    ghost var was := out[..o'];
    if o' + 1 >= out.Length { out := Grow(out, o', more); }
    out[o'] := c;
    assert out[..o'] == was;
    o' := o' + 1;
  }

  /** One turn: what the line's beginning has come to, followed by what is left. */
  lemma Turn(s: CString, i: nat, q: bool, done: string, env: Symbols)
    requires i < |s|
    ensures var c := s[i];
            Before(done, Substituted(s, i, q, env)) ==
              if c == '\\' then
                if i + 1 == |s| then Line(done) else Before(done + ['\\', s[i + 1]], Substituted(s, i + 2, q, env))
              else if c == '\'' then Before(done + [c], Substituted(s, i + 1, !q, env))
              else if !q && c == '{' then
                match Brace(s, i + 1, env)
                case Undefined(close) => Before(done, Substituted(s, close + 1, q, env))
                case Failure(st) => Error(st)
                case Value(text, close) => Before(done + text, Substituted(s, close + 1, q, env))
              else Before(done + [c], Substituted(s, i + 1, q, env))
  {
    hide Brace;
    if s[i] == '\\' && i + 1 == |s| { assert done + "" == done; }
  }

  /** substitute: the output buffer grows as needed, and no character is ever put past its end. */
  method Substitute(s: CString, env: Symbols) returns (st: Option<Status>, outbuf: array<char>, o: nat)
    ensures match Substituted(s, 0, false, env)
            case Error(error) => st == Some(error)
            case Line(text) => st == None && o == |text| < outbuf.Length && outbuf[..o] == text && outbuf[o] == '\0'
  {
    hide Brace, Substituted;
    outbuf := new char[|s| + 8](_ => '\0');
    o := 0;
    var i, q := 0, false;
    Starts(s, env);
    while i < |s|
      invariant i <= |s| && o < outbuf.Length && fresh(outbuf)
      invariant Substituted(s, 0, false, env) == Before(outbuf[..o], Substituted(s, i, q, env))
      decreases |s| - i
    {
      Turn(s, i, q, outbuf[..o], env);
      if s[i] == '\\' {
        if i + 1 == |s| { break; }
        outbuf, o := PutChar(outbuf, o, true, s[i + 1], |s| - i - 1 + 8);
        i := i + 2;
      } else if !q && s[i] == '{' {
        var b := ReadBrace(s, i + 1, env);
        match b {
          case Undefined(close) => i := close + 1;
          case Failure(error) => return Some(error), outbuf, o;
          case Value(text, close) =>
            outbuf, o := PutText(outbuf, o, text, |text| + (|s| - close) + 8);
            i := close + 1;
        }
      } else {
        if s[i] == '\'' { q := !q; }
        outbuf, o := PutChar(outbuf, o, false, s[i], |s| - i + 8);
        i := i + 1;
      }
    }
    Ends(s, q, outbuf[..o], env);
    outbuf[o] := '\0';
    st := None;
  }

  lemma Starts(s: CString, env: Symbols)
    ensures Before("", Substituted(s, 0, false, env)) == Substituted(s, 0, false, env)
  {
    hide Substituted;
  }

  lemma Ends(s: CString, q: bool, done: string, env: Symbols)
    ensures Before(done, Substituted(s, |s|, q, env)) == Line(done)
  {}

  /** A line made of text to leave alone and expressions to replace. */
  datatype Part = Plain(t: string) | InBraces(e: Tree)

  predicate LeaveAlone(t: string) {
    forall c <- t :: c !in "\\'{\0"
  }

  ghost predicate GoodPart(p: Part, env: Symbols) {
    match p case Plain(t) => LeaveAlone(t) case InBraces(e) => WellFormed(e, env)
  }

  ghost predicate IsTemplate(parts: seq<Part>, env: Symbols) {
    forall i :: 0 <= i < |parts| ==> GoodPart(parts[i], env)
  }

  function PartText(p: Part, env: Symbols): string
    requires GoodPart(p, env)
  {
    match p case Plain(t) => t case InBraces(e) => "{" + Print(e, env) + "}"
  }

  function LineOf(parts: seq<Part>, env: Symbols): string
    requires IsTemplate(parts, env)
  {
    if parts == [] then "" else PartText(parts[0], env) + LineOf(parts[1..], env)
  }

  /** The parts filled in: an expression counts for its value's text, a lone undefined name for nothing, and the
      first expression that fails is what the line comes to. */
  function Fill(parts: seq<Part>, env: Symbols): Line
    requires IsTemplate(parts, env)
  {
    if parts == [] then Line("")
    else
      var rest := Fill(parts[1..], env);
      match parts[0]
      case Plain(t) => Before(t, rest)
      case InBraces(e) =>
        if e.Name? && e.n !in env then rest
        else
          match Meaning(e, env)
          case Fail(st) => Error(st)
          case Val(v) => Before(AsText(v), rest)
  }

  /** Substitution on the text of a template is filling it in. */
  lemma {:induction false} TemplateFills(parts: seq<Part>, s: CString, i: nat, env: Symbols)
    requires IsTemplate(parts, env) && Stands(LineOf(parts, env), s, i) && i + |LineOf(parts, env)| == |s|
    ensures Substituted(s, i, false, env) == Fill(parts, env)
    decreases |parts|
  {
    hide Print, Meaning, Brace, Before, Substituted, PartText, GoodPart;
    if parts == [] {
      Ends(s, false, "", env);
      BeforeNothing(Substituted(s, |s|, false, env));
    } else {
      var first, more := PartText(parts[0], env), LineOf(parts[1..], env);
      StandsApart(first, more, s, i);
      TemplateFills(parts[1..], s, i + |first|, env);
      PartReads(parts[0], s, i, env);
    }
  }

  lemma BeforeNothing(line: Line)
    ensures Before("", line) == line
  {}

  /** One part, and what it comes to in front of the rest. */
  lemma PartReads(p: Part, s: CString, i: nat, env: Symbols)
    requires GoodPart(p, env) && Stands(PartText(p, env), s, i)
    ensures var rest := Substituted(s, i + |PartText(p, env)|, false, env);
            Substituted(s, i, false, env) ==
            match p
            case Plain(t) => Before(t, rest)
            case InBraces(e) =>
              if e.Name? && e.n !in env then rest
              else match Meaning(e, env) case Fail(st) => Error(st) case Val(v) => Before(AsText(v), rest)
  {
    hide Print, Meaning, Brace, Before, AsText, WellFormed, Substituted, LeaveAlone, Stands;
    match p
    case Plain(t) => PlainReads(t, s, i, env);
    case InBraces(e) =>
      assert PartText(p, env) == "{" + Print(e, env) + "}";
      InBracesReads(e, s, i, env);
  }

  lemma InBracesReads(e: Tree, s: CString, i: nat, env: Symbols)
    requires WellFormed(e, env) && Stands("{" + Print(e, env) + "}", s, i)
    ensures var rest := Substituted(s, i + |"{" + Print(e, env) + "}"|, false, env);
            Substituted(s, i, false, env) ==
            if e.Name? && e.n !in env then rest
            else match Meaning(e, env) case Fail(st) => Error(st) case Val(v) => Before(AsText(v), rest)
  {
    hide Print, Meaning, Brace, Before, AsText, WellFormed, Substituted;
    var text := Print(e, env);
    assert "{" + text + "}" == "{" + (text + "}");
    StandsApart("{", text + "}", s, i);
    assert s[i] == s[i..i + 1][0] == '{';
    BraceReads(e, s, i + 1, env);
    BraceStep(s, i, env);
    assert i + 1 + |text| + 1 == i + |"{" + text + "}"|;
  }

  lemma BraceStep(s: CString, i: nat, env: Symbols)
    requires i < |s| && s[i] == '{'
    ensures Substituted(s, i, false, env) ==
            match Brace(s, i + 1, env)
            case Undefined(close) => Substituted(s, close + 1, false, env)
            case Failure(st) => Error(st)
            case Value(text, close) => Before(text, Substituted(s, close + 1, false, env))
  {
    hide Brace, Before;
  }

  lemma {:induction false} PlainReads(t: string, s: CString, i: nat, env: Symbols)
    requires LeaveAlone(t) && Stands(t, s, i)
    ensures Substituted(s, i, false, env) == Before(t, Substituted(s, i + |t|, false, env))
    decreases |t|
  {
    hide Substituted, Before;
    if t == "" {
      BeforeNothing(Substituted(s, i, false, env));
    } else {
      StandsApart(t[..1], t[1..], s, i);
      assert t == t[..1] + t[1..] && t[0] in t;
      assert s[i] == s[i..i + |t|][0] == t[0];
      PlainStep(s, i, env);
      PlainReads(t[1..], s, i + 1, env);
      BeforeTwice(t[..1], t[1..], Substituted(s, i + |t|, false, env));
      assert t[..1] == [s[i]] && i + 1 + |t[1..]| == i + |t|;
    }
  }

  /** What stands in single quotes is left alone, braces and all. */
  lemma QuotedStays(t: string, s: CString, i: nat, env: Symbols)
    requires Stands("'" + t + "'", s, i) && '\'' !in t && '\\' !in t
    ensures Substituted(s, i, false, env) == Before("'" + t + "'", Substituted(s, i + |t| + 2, false, env))
  {
    hide Brace;
    var whole := "'" + t + "'";
    assert whole == "'" + (t + "'");
    StandsApart("'", t + "'", s, i);
    StandsApart(t, "'", s, i + 1);
    assert s[i] == s[i..i + 1][0] && s[i + 1 + |t|] == s[i + 1 + |t|..i + 1 + |t| + 1][0];
    InQuotes(t, s, i + 1, env);
    var rest := Substituted(s, i + |t| + 2, false, env);
    BeforeTwice(t, "'", rest);
    BeforeTwice("'", t + "'", rest);
  }

  lemma {:induction false} InQuotes(t: string, s: CString, i: nat, env: Symbols)
    requires Stands(t, s, i) && '\'' !in t && '\\' !in t
    ensures Substituted(s, i, true, env) == Before(t, Substituted(s, i + |t|, true, env))
    decreases |t|
  {
    if t == "" {
      BeforeNothing(Substituted(s, i, true, env));
    } else {
      StandsApart(t[..1], t[1..], s, i);
      assert t == t[..1] + t[1..] && t[0] in t && s[i] == s[i..i + |t|][0] == t[0];
      InQuotes(t[1..], s, i + 1, env);
      BeforeTwice(t[..1], t[1..], Substituted(s, i + |t|, true, env));
      assert t[..1] == [s[i]] && i + 1 + |t[1..]| == i + |t|;
    }
  }

  /** A backslash leaves the next character alone, be it a brace or a quote; both stay in the line. */
  lemma EscapedStays(s: CString, i: nat, quoted: bool, env: Symbols)
    requires i + 1 < |s| && s[i] == '\\'
    ensures Substituted(s, i, quoted, env) == Before(s[i..i + 2], Substituted(s, i + 2, quoted, env))
  {
    hide Brace;
    assert s[i..i + 2] == ['\\', s[i + 1]];
  }

  lemma PlainStep(s: CString, i: nat, env: Symbols)
    requires i < |s| && s[i] !in "\\'{\0"
    ensures Substituted(s, i, false, env) == Before([s[i]], Substituted(s, i + 1, false, env))
  {
    hide Brace;
    assert "\\'{\0"[0] == '\\' && "\\'{\0"[1] == '\'' && "\\'{\0"[2] == '{';
  }

  lemma BeforeTwice(a: string, b: string, line: Line)
    ensures Before(a, Before(b, line)) == Before(a + b, line)
  {}

  /** The text of an expression, followed by its closing brace. */
  lemma BraceReads(e: Tree, s: CString, k: nat, env: Symbols)
    requires WellFormed(e, env) && Stands(Print(e, env) + "}", s, k)
    ensures var close := k + |Print(e, env)|;
            Brace(s, k, env) ==
              if e.Name? && e.n !in env then Undefined(close)
              else match Meaning(e, env) case Fail(st) => Failure(st) case Val(v) => Value(AsText(v), close)
  {
    hide Print, Meaning, Evaluate, Rest, FirstMatch, SymbolEnd, AsText, Skip;
    var text := Print(e, env);
    StandsApart(text, "}", s, k);
    var close := k + |text|;
    assert s[close] == s[close..close + 1][0] == '}';
    NameEnds(e, s, k, env);
    if !(e.Name? && e.n !in env) {
      PrintReads(e, s, k, '\0', env);
      NoOperator(s, close);
      if Meaning(e, env).Val? { RestEnds(s, close, Meaning(e, env).v, '\0', env); }
      assert !(SymbolStart(At(s, k)) && At(s, SymbolEnd(s, k + 1)) == '}' && s[k..SymbolEnd(s, k + 1)] !in env);
    }
  }

  /** A name that an expression's text starts with is followed by the closing brace only if it is all there is. */
  lemma {:induction false} NameEnds(e: Tree, s: CString, k: nat, env: Symbols)
    requires WellFormed(e, env) && Stands(Print(e, env), s, k) && Boundary(At(s, k + |Print(e, env)|))
    ensures Print(e, env) != "" && k < |s|
    ensures e.Name? ==> Print(e, env) == e.n == s[k..k + |e.n|]
    ensures e.Name? ==> SymbolStart(s[k]) && SymbolEnd(s, k + 1) == k + |e.n|
    ensures !e.Name? && SymbolStart(s[k]) ==> At(s, SymbolEnd(s, k + 1)) != '}'
    decreases e
  {
    hide SymbolEnd, Closed, IsName, Numeral, Escape;
    match e
    case Lit(i) => LitStarts(i, s, k);
    case Quote(t) => QuoteStarts(t, s, k);
    case Name(n) => NameAt(n, s, k);
    case Call(n, args) => CallStarts(n, args, s, k, env);
    case Bin(j, l, r) =>
      BinStarts(j, l, r, s, k, env);
      NameEnds(l, s, k, env);
  }

  lemma LitStarts(i: Word, s: CString, k: nat)
    requires Stands(Numeral(i, 10), s, k)
    ensures k < |s| && !SymbolStart(s[k])
  {
    NumeralStarts(i);
    assert s[k] == s[k..k + |Numeral(i, 10)|][0];
  }

  lemma QuoteStarts(t: CString, s: CString, k: nat)
    requires Stands("\"" + Escape(t) + "\"", s, k)
    ensures k < |s| && !SymbolStart(s[k])
  {
    assert s[k] == s[k..k + |"\"" + Escape(t) + "\""|][0];
  }

  lemma CallStarts(n: string, args: List, s: CString, k: nat, env: Symbols)
    requires IsName(n) && WellFormed(Call(n, args), env) && Stands(Print(Call(n, args), env), s, k)
    ensures k < |s| && SymbolEnd(s, k + 1) == k + |n| && At(s, k + |n|) == '('
  {
    var more := "(" + PrintAll(args, env);
    assert Print(Call(n, args), env) == n + more;
    StandsApart(n, more, s, k);
    assert s[k + |n|] == s[k + |n|..k + |n| + |more|][0] == '(';
    NameAt(n, s, k);
  }

  lemma BinStarts(j: nat, l: Tree, r: Tree, s: CString, k: nat, env: Symbols)
    requires WellFormed(Bin(j, l, r), env) && WellFormed(l, env) && Stands(Print(Bin(j, l, r), env), s, k)
    ensures Stands(Print(l, env), s, k)
    ensures Boundary(At(s, k + |Print(l, env)|)) && At(s, k + |Print(l, env)|) != '}'
  {
    hide Closed, Boundary, Print, WellFormed;
    BinText(j, l, r, env);
    var name, right := OPERATORS[j].0, Closed(r, env);
    StandsApart(Print(l, env), name + right, s, k);
    OperatorStarts(j);
    var q := k + |Print(l, env)|;
    assert s[q] == s[q..q + |name + right|][0] == name[0];
  }

  lemma BinText(j: nat, l: Tree, r: Tree, env: Symbols)
    requires WellFormed(Bin(j, l, r), env)
    ensures j < |OPERATORS| && WellFormed(l, env) && WellFormed(r, env)
    ensures Print(Bin(j, l, r), env) == Print(l, env) + (OPERATORS[j].0 + Closed(r, env))
  {
    hide Closed;
  }

  lemma OperatorStarts(j: nat)
    requires j < |OPERATORS|
    ensures OPERATORS[j].0 != "" && Boundary(OPERATORS[j].0[0]) && OPERATORS[j].0[0] != '}'
  {
    TableShape(j);
  }

  lemma NameAt(n: string, s: CString, k: nat)
    requires IsName(n) && Stands(n, s, k) && !SymbolChar(At(s, k + |n|))
    ensures k < |s| && SymbolStart(s[k]) && SymbolEnd(s, k + 1) == k + |n| && s[k..k + |n|] == n
  {
    assert s[k] == s[k..k + |n|][0] == n[0];
    NameReads(s, k, n);
  }
}
