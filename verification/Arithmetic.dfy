/** What the entries of the operator table compute, each by its name and in terms of arithmetic, bits and strings. */
module Arithmetic {
  import opened Common
  import opened Numbers
  import opened Expr
  import opened Printing

  predicate Named(j: nat, name: string) {
    j < |OPERATORS| && OPERATORS[j].0 == name
  }

  function On(j: nat, l: Value, r: Value): Outcome
    requires j < |OPERATORS|
  {
    Apply(OPERATORS[j].1, l, r)
  }

  /** The outcome is what the text of two numbers with the operator between them evaluates to. */
  lemma TextComputes(j: nat, a: Word, b: Word, env: Symbols)
    requires j < |OPERATORS|
    ensures var s := Numeral(a, 10) + OPERATORS[j].0 + Numeral(b, 10);
            '\0' !in s && Evaluate(s, 0, '\0', env) == Done(On(j, Int(a), Int(b)), |s|)
  {
    hide Evaluate, Apply, Numeral;
    var e := Bin(j, Lit(a), Lit(b));
    PrintThenEvaluate(e, env);
    assert Print(Lit(a), env) == Numeral(a, 10) && Closed(Lit(b), env) == Print(Lit(b), env) == Numeral(b, 10);
    assert Meaning(Lit(a), env) == Val(Int(a)) && Meaning(Lit(b), env) == Val(Int(b));
    assert Print(e, env) == Numeral(a, 10) + OPERATORS[j].0 + Numeral(b, 10);
  }

  /** ... and likewise for two strings in quotes. */
  lemma StringsCompute(j: nat, s: CString, t: CString, env: Symbols)
    requires j < |OPERATORS|
    ensures var text := "\"" + Escape(s) + "\"" + OPERATORS[j].0 + "\"" + Escape(t) + "\"";
            '\0' !in text && Evaluate(text, 0, '\0', env) == Done(On(j, Str(s), Str(t)), |text|)
  {
    hide Evaluate, Apply, Escape;
    var e := Bin(j, Quote(s), Quote(t));
    PrintThenEvaluate(e, env);
    var left, right := "\"" + Escape(s) + "\"", "\"" + Escape(t) + "\"";
    assert Print(Quote(s), env) == left && Closed(Quote(t), env) == Print(Quote(t), env) == right;
    assert Meaning(Quote(s), env) == Val(Str(s)) && Meaning(Quote(t), env) == Val(Str(t));
    assert Print(e, env) == left + OPERATORS[j].0 + right;
    assert left + OPERATORS[j].0 + right == left + OPERATORS[j].0 + "\"" + Escape(t) + "\"";
  }

  /** Sums and differences are those of the integers but for a multiple of the word, and undo each other. */
  lemma SumAndDifference(plus: nat, minus: nat, a: Word, b: Word)
    requires Named(plus, "+") && Named(minus, "-")
    ensures On(plus, Int(a), Int(b)) == Val(Int(if a + b < WORD then a + b else a + b - WORD))
    ensures On(minus, Int(a), Int(b)) == Val(Int(if b <= a then a - b else a - b + WORD))
    ensures var d := On(minus, Int(a), Int(b)).v; On(plus, d, Int(b)) == Val(Int(a))
  {}

  /** Products likewise. */
  lemma Product(times: nat, a: Word, b: Word) returns (q: nat)
    requires Named(times, "*")
    ensures var r := On(times, Int(a), Int(b));
            r.Val? && r.v.Int? && a * b == q * WORD + r.v.i
  {
    q := a * b / WORD;
  }

  /** Quotient and remainder, and no value for a division by zero. */
  lemma Division(over: nat, rem: nat, a: Word, b: Word)
    requires Named(over, "/") && Named(rem, "%")
    ensures b == 0 ==> On(over, Int(a), Int(b)) == On(rem, Int(a), Int(b)) == Fail(TRAP)
    ensures b > 0 ==>
              var q, r := On(over, Int(a), Int(b)), On(rem, Int(a), Int(b));
              q.Val? && q.v.Int? && r.Val? && r.v.Int? && a == b * q.v.i + r.v.i && r.v.i < b
  {}

  /** Shifts multiply and divide by powers of two; one by the word's size or more has no value. */
  lemma ShiftLeft(left: nat, a: Word, b: Word) returns (p: nat)
    requires Named(left, "<<")
    ensures b >= 32 ==> On(left, Int(a), Int(b)) == Fail(SHIFT)
    ensures var r := On(left, Int(a), Int(b));
            b < 32 ==> r.Val? && r.v.Int? && a * DoublingTimes(b) == p * WORD + r.v.i
  {
    DoublingIsPow(b);
    p := a * Pow(2, b) / WORD;
  }

  lemma ShiftRight(right: nat, a: Word, b: Word) returns (q: nat)
    requires Named(right, ">>")
    ensures b >= 32 ==> On(right, Int(a), Int(b)) == Fail(SHIFT)
    ensures var r := On(right, Int(a), Int(b));
            b < 32 ==> r.Val? && r.v.Int? && a == DoublingTimes(b) * r.v.i + q && q < DoublingTimes(b)
  {
    PowerOfTwo(b);
    DoublingIsPow(b);
    q := a % Pow(2, b);
  }

  /** One, doubled so many times. */
  function DoublingTimes(n: nat): nat {
    if n == 0 then 1 else DoublingTimes(n - 1) + DoublingTimes(n - 1)
  }

  lemma {:induction false} DoublingIsPow(n: nat)
    ensures DoublingTimes(n) == Pow(2, n)
  {
    if n > 0 { DoublingIsPow(n - 1); }
  }

  /** Bit `k` of a number. */
  predicate HasBit(v: nat, k: nat) {
    if k == 0 then v % 2 == 1 else HasBit(v / 2, k - 1)
  }

  /** Each bit of the result comes from the same bit of the operands. */
  lemma Bits(conj: nat, disj: nat, excl: nat, a: Word, b: Word, k: nat)
    requires Named(conj, "&") && Named(disj, "|") && Named(excl, "^") && k < 32
    ensures var c, d, e := On(conj, Int(a), Int(b)), On(disj, Int(a), Int(b)), On(excl, Int(a), Int(b));
            && c.Val? && c.v.Int? && (HasBit(c.v.i, k) <==> HasBit(a, k) && HasBit(b, k))
            && d.Val? && d.v.Int? && (HasBit(d.v.i, k) <==> HasBit(a, k) || HasBit(b, k))
            && e.Val? && e.v.Int? && (HasBit(e.v.i, k) <==> HasBit(a, k) != HasBit(b, k))
  {
    BitOps(conj, disj, excl);
    hide OPERATORS, Bitwise, HasBit;
    BitOf(BitAnd, a, b, 32, k);
    BitOf(BitOr, a, b, 32, k);
    BitOf(BitXor, a, b, 32, k);
  }

  lemma BitOps(conj: nat, disj: nat, excl: nat)
    requires Named(conj, "&") && Named(disj, "|") && Named(excl, "^")
    ensures OPERATORS[conj].1 == BitAnd && OPERATORS[disj].1 == BitOr && OPERATORS[excl].1 == BitXor
  {}

  lemma {:induction false} BitOf(op: Op, a: nat, b: nat, n: nat, k: nat)
    requires k < n && op in {BitAnd, BitOr, BitXor}
    ensures HasBit(Bitwise(op, a, b, n), k) <==>
              match op
              case BitAnd => HasBit(a, k) && HasBit(b, k)
              case BitOr => HasBit(a, k) || HasBit(b, k)
              case _ => HasBit(a, k) != HasBit(b, k)
  {
    if k > 0 { BitOf(op, a / 2, b / 2, n - 1, k - 1); }
  }

  /** A number is its 32 bits, so the three results are what their bits say. */
  lemma {:induction false} BitsTell(v: nat, w: nat, n: nat)
    requires v < DoublingTimes(n) && w < DoublingTimes(n) && forall k: nat | k < n :: HasBit(v, k) == HasBit(w, k)
    ensures v == w
  {
    if n > 0 {
      assert HasBit(v, 0) == HasBit(w, 0);
      forall k: nat | k < n - 1 ensures HasBit(v / 2, k) == HasBit(w / 2, k) {
        assert HasBit(v, k + 1) == HasBit(w, k + 1);
      }
      BitsTell(v / 2, w / 2, n - 1);
    }
  }

  /** The truth tables of the operators that do not look at single bits. */
  lemma Truths(both: nat, either: nat, one: nat, a: Word, b: Word)
    requires Named(both, "&&") && Named(either, "||") && Named(one, "^^")
    ensures On(both, Int(a), Int(b)) == Val(Int(if a == 0 || b == 0 then 0 else 1))
    ensures On(either, Int(a), Int(b)) == Val(Int(if a == 0 && b == 0 then 0 else 1))
    ensures On(one, Int(a), Int(b)) == Val(Int(if a == 0 <==> b == 0 then 0 else 1))
  {}

  predicate IsComparison(eq: nat, ne: nat, ne': nat, lt: nat, le: nat, gt: nat, ge: nat) {
    && Named(eq, "==") && Named(ne, "!=") && Named(ne', "<>")
    && Named(lt, "<") && Named(le, "<=") && Named(gt, ">") && Named(ge, ">=")
  }

  /** Numbers are compared as numbers. */
  lemma NumbersCompared(eq: nat, ne: nat, ne': nat, lt: nat, le: nat, gt: nat, ge: nat, a: Word, b: Word)
    requires IsComparison(eq, ne, ne', lt, le, gt, ge)
    ensures On(eq, Int(a), Int(b)) == Val(Int(if a == b then 1 else 0))
    ensures On(ne, Int(a), Int(b)) == On(ne', Int(a), Int(b)) == Val(Int(if a == b then 0 else 1))
    ensures On(lt, Int(a), Int(b)) == Val(Int(if a < b then 1 else 0))
    ensures On(le, Int(a), Int(b)) == Val(Int(if a <= b then 1 else 0))
    ensures On(gt, Int(a), Int(b)) == Val(Int(if a > b then 1 else 0))
    ensures On(ge, Int(a), Int(b)) == Val(Int(if a >= b then 1 else 0))
  {}

  /** The text a value is compared and joined as. */
  function TextOf(v: Value): string {
    match v case Int(i) => Numeral(i, 10) case Str(s) => s
  }

  /** Everything else is compared as text: by the first character that differs, or else the shorter comes first. */
  lemma TextsCompared(eq: nat, ne: nat, ne': nat, lt: nat, le: nat, gt: nat, ge: nat, l: Value, r: Value)
    requires IsComparison(eq, ne, ne', lt, le, gt, ge) && (l.Str? || r.Str?)
    ensures On(eq, l, r) == Val(Int(if TextOf(l) == TextOf(r) then 1 else 0))
    ensures On(ne, l, r) == On(ne', l, r) == Val(Int(if TextOf(l) == TextOf(r) then 0 else 1))
    ensures On(lt, l, r) == On(gt, r, l) == Val(Int(if ComesFirst(TextOf(l), TextOf(r)) then 1 else 0))
    ensures On(le, l, r) == On(ge, r, l) ==
            Val(Int(if TextOf(l) == TextOf(r) || ComesFirst(TextOf(l), TextOf(r)) then 1 else 0))
  {
    hide OPERATORS;
    ComparisonOps(eq, ne, ne', lt, le, gt, ge);
    var p, q := TextOf(l), TextOf(r);
    BeforeIsOrder(p, q, p);
    BeforeComesFirst(p, q);
    BeforeComesFirst(q, p);
  }

  lemma ComparisonOps(eq: nat, ne: nat, ne': nat, lt: nat, le: nat, gt: nat, ge: nat)
    requires IsComparison(eq, ne, ne', lt, le, gt, ge)
    ensures OPERATORS[eq].1 == Eq && OPERATORS[ne].1 == OPERATORS[ne'].1 == Ne
    ensures OPERATORS[lt].1 == Lt && OPERATORS[le].1 == Le && OPERATORS[gt].1 == Gt && OPERATORS[ge].1 == Ge
  {}

  ghost predicate ComesFirst(p: string, q: string) {
    exists k: nat :: k <= |p| && k < |q| && p[..k] == q[..k] && (k == |p| || p[k] < q[k])
  }

  lemma {:induction false} BeforeComesFirst(p: string, q: string)
    ensures Before(p, q) <==> ComesFirst(p, q)
  {
    if q != [] && p != [] && p[0] == q[0] {
      BeforeComesFirst(p[1..], q[1..]);
      if ComesFirst(p[1..], q[1..]) {
        var k: nat :| k <= |p[1..]| && k < |q[1..]| && p[1..][..k] == q[1..][..k]
                      && (k == |p[1..]| || p[1..][k] < q[1..][k]);
        assert p[..k + 1] == [p[0]] + p[1..][..k] && q[..k + 1] == [q[0]] + q[1..][..k];
        assert ComesFirst(p, q);
      }
      if ComesFirst(p, q) {
        var k: nat :| k <= |p| && k < |q| && p[..k] == q[..k] && (k == |p| || p[k] < q[k]);
        assert k > 0;
        assert p[1..][..k - 1] == p[..k][1..] && q[1..][..k - 1] == q[..k][1..];
        assert ComesFirst(p[1..], q[1..]);
      }
    } else if q != [] {
      assert p[..0] == q[..0];
      forall k: nat | 0 < k <= |p| && k < |q| ensures p[..k] != q[..k] {
        assert p[..k][0] != q[..k][0];
      }
    }
  }

  /** Strings are joined; taking one from another cuts it out where it first stands, if it does. Nothing else is done
      with strings. */
  lemma JoinAndCut(plus: nat, minus: nat, l: Value, r: Value)
    requires Named(plus, "+") && Named(minus, "-") && (l.Str? || r.Str?)
    ensures var o := On(plus, l, r); o.Val? && o.v.Str? && o.v.s == TextOf(l) + TextOf(r)
    ensures var o := On(minus, l, r); o.Val? && o.v.Str? && IsCut(TextOf(l), TextOf(r), o.v.s)
  {
    hide Cut, IsCut;
    CutIsCut(TextOf(l), TextOf(r));
  }

  /** `r` is `p` without the first occurrence of `q`. */
  ghost predicate IsCut(p: string, q: string, r: string) {
    if exists i :: StandsAt(p, q, i) then
      exists i :: StandsAt(p, q, i) && (forall k :: 0 <= k < i ==> !StandsAt(p, q, k)) && r == p[..i] + p[i + |q|..]
    else r == p
  }

  ghost predicate StandsAt(p: string, q: string, i: int) {
    0 <= i <= i + |q| <= |p| && p[i..i + |q|] == q
  }

  lemma {:induction false} CutIsCut(p: string, q: string)
    ensures IsCut(p, q, Cut(p, q))
  {
    if q <= p {
      assert StandsAt(p, q, 0);
      assert Cut(p, q) == p[..0] + p[|q|..];
    } else if p != [] {
      CutIsCut(p[1..], q);
      CutLater(p, q, Cut(p[1..], q));
    } else {
      assert forall i :: !StandsAt(p, q, i);
    }
  }

  lemma StandsLater(p: string, q: string, i: int)
    requires p != [] && i > 0
    ensures StandsAt(p, q, i) <==> StandsAt(p[1..], q, i - 1)
  {
    if i + |q| <= |p| { assert p[i..i + |q|] == p[1..][i - 1..i - 1 + |q|]; }
  }

  lemma CutLater(p: string, q: string, r: string)
    requires p != [] && !(q <= p) && IsCut(p[1..], q, r)
    ensures IsCut(p, q, [p[0]] + r)
  {
    hide StandsAt;
    var t := p[1..];
    assert !StandsAt(p, q, 0) by { NotAtStart(p, q); }
    if j :| StandsAt(t, q, j) {
      NotAtStart(t, q);
      var i :| StandsAt(t, q, i) && (forall k :: 0 <= k < i ==> !StandsAt(t, q, k)) && r == t[..i] + t[i + |q|..];
      CutFound(p, q, r, i);
    } else {
      forall i ensures !StandsAt(p, q, i) {
        if i > 0 { StandsLater(p, q, i); } else if i < 0 { NotAtStart(p, q); }
      }
      assert [p[0]] + t == p;
    }
  }

  lemma NotAtStart(p: string, q: string)
    ensures StandsAt(p, q, 0) <==> q <= p
    ensures forall i :: StandsAt(p, q, i) ==> i >= 0 && i + |q| <= |p|
  {}

  lemma CutFound(p: string, q: string, r: string, i: int)
    requires p != [] && !StandsAt(p, q, 0) && StandsAt(p[1..], q, i)
    requires forall k :: 0 <= k < i ==> !StandsAt(p[1..], q, k)
    requires 0 <= i <= i + |q| <= |p| - 1 && r == p[1..][..i] + p[1..][i + |q|..]
    ensures IsCut(p, q, [p[0]] + r)
  {
    hide StandsAt;
    StandsLater(p, q, i + 1);
    forall k | 0 <= k < i + 1 ensures !StandsAt(p, q, k) {
      if k > 0 { StandsLater(p, q, k); }
    }
    NotAtStart(p, q);
    assert [p[0]] + r == p[..i + 1] + p[i + 1 + |q|..];
  }

  /** With a string, every operator but these and the comparisons fails. */
  lemma OnlyThose(j: nat, l: Value, r: Value)
    requires j < |OPERATORS| && (l.Str? || r.Str?)
    requires OPERATORS[j].0 !in {"+", "-", "==", "!=", "<>", "<", "<=", ">", ">="}
    ensures On(j, l, r) == Fail(BADPARAM)
  {}
}
