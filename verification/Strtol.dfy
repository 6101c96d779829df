/** strtol and strtoul: reading the digits of a base for as long as the value fits. */
module Strtol {
  import opened Common

  type Base = b: nat | 2 <= b <= 36 witness 10

  /** The digit that a character is in a base, or -1. */
  function Digit(c: char, base: Base): (d: int)
    ensures -1 <= d < base
  {
    if '0' <= c <= '9' && c as int - '0' as int < base then c as int - '0' as int
    else if base > 10 && 'a' <= c && c as int - 'a' as int < base - 10 then c as int - 'a' as int + 10
    else if base > 10 && 'A' <= c && c as int - 'A' as int < base - 10 then c as int - 'A' as int + 10
    else -1
  }

  /** Letters follow on the digits, whatever their case, as far as the base goes; nothing else is a digit. */
  lemma DigitsAre(base: Base, d: nat)
    requires d < 36
    ensures d < 10 ==> Digit('0' + d as char, base) == if d < base then d else -1
    ensures d >= 10 ==>
              Digit('a' + (d - 10) as char, base) == Digit('A' + (d - 10) as char, base) == if d < base then d else -1
    ensures forall c: char :: c < '0' || '9' < c < 'A' || 'Z' < c < 'a' || 'z' < c ==> Digit(c, base) == -1
  {}

  ghost predicate AllDigits(s: string, base: Base) {
    forall i :: 0 <= i < |s| ==> Digit(s[i], base) >= 0
  }

  /** Positional notation. */
  function Value(s: string, base: Base): nat
    requires AllDigits(s, base)
  {
    if s == "" then 0 else Value(s[..|s| - 1], base) * base + Digit(s[|s| - 1], base)
  }

  lemma NoDigits(base: Base)
    ensures Value("", base) == 0 && Digit('\0', base) == -1
  {}

  /** A further digit is worth one, and multiplies the others by the base. */
  lemma ValueIs(s: string, c: char, base: Base)
    requires AllDigits(s, base) && Digit(c, base) >= 0
    ensures AllDigits(s + [c], base) && Value(s + [c], base) == Value(s, base) * base + Digit(c, base)
  {
    assert (s + [c])[..|s|] == s;
  }

  /** The digits from `start` up to `end` are as many as there can be without the value passing `max`. */
  ghost predicate Longest(s: string, start: nat, end: nat, base: Base, max: nat) {
    && start <= end <= |s| && AllDigits(s[start..end], base) && Value(s[start..end], base) <= max
    && forall j :: end < j <= |s| && AllDigits(s[start..j], base) ==> Value(s[start..j], base) > max
  }

  lemma LongestIsUnique(s: string, start: nat, end: nat, end': nat, base: Base, max: nat)
    requires Longest(s, start, end, base, max) && Longest(s, start, end', base, max)
    ensures end == end'
  {}

  lemma TimesBase(v: nat, base: Base)
    ensures 2 * v <= v * base
  {
    assert v * base == 2 * v + v * (base - 2);
  }

  /** Appending digits never makes a value smaller. */
  lemma {:induction false} ValueGrows(s: string, j: nat, base: Base)
    requires j <= |s| && AllDigits(s, base)
    ensures Value(s[..j], base) <= Value(s, base)
  {
    hide Digit;
    if j < |s| {
      var t := s[..|s| - 1];
      ValueGrows(t, j, base);
      assert t[..j] == s[..j];
      TimesBase(Value(t, base), base);
    } else {
      assert s[..j] == s;
    }
  }

  /** Reading stops for good where the next character is no digit, or is one that does not fit. */
  lemma StopsThere(s: string, start: nat, end: nat, base: Base, max: nat)
    requires start <= end <= |s| && AllDigits(s[start..end], base) && Value(s[start..end], base) <= max
    requires end < |s| && Digit(s[end], base) >= 0 ==> Value(s[start..end], base) * base + Digit(s[end], base) > max
    ensures Longest(s, start, end, base, max)
  {
    forall j | end < j <= |s| && AllDigits(s[start..j], base) ensures Value(s[start..j], base) > max {
      var t := s[start..j];
      assert t[end - start] == s[end];
      assert t[..end + 1 - start] == s[start..end + 1] && s[start..end + 1][..end - start] == s[start..end];
      ValueGrows(t, end + 1 - start, base);
    }
  }

  function Signed(negative: bool, v: nat): int {
    if negative then 0 - v else v
  }

  datatype Head = Head(negative: bool, start: nat, base: Base)

  /** What comes before the digits: blanks, for a signed number a sign, and a prefix that may choose the base. */
  function HeadOf(s: string, signed: bool, base: nat): (h: Head)
    requires base == 0 || 2 <= base <= 36
    ensures h.start <= |s|
  {
    var b := Skip(s, 0);
    var p := if signed && At(s, b) in {'+', '-'} then b + 1 else b;
    var negative := signed && At(s, b) == '-';
    if base in {0, 16} && At(s, p) == '0' && At(s, p + 1) in {'x', 'X'} then Head(negative, p + 2, 16)
    else if base != 0 then Head(negative, p, base)
    else Head(negative, p, if At(s, p) == '0' then 8 else 10)
  }

  ghost predicate AllSpace(w: string) {
    forall c <- w :: Space(c)
  }

  /** Without sign and prefix: base 0 means ten, or eight after a zero, which is a digit like any other. */
  lemma PlainHead(w: string, t: string, signed: bool, base: nat)
    requires AllSpace(w) && (base == 0 || 2 <= base <= 36) && t != "" && !Space(t[0]) && t[0] !in {'+', '-'}
    requires t[0] == '0' ==> |t| == 1 || t[1] !in {'x', 'X'}
    ensures HeadOf(w + t, signed, base) ==
            Head(false, |w|, if base != 0 then base else if t[0] == '0' then 8 else 10)
  {
    BlanksSkipped(w, t);
  }

  /** After `0x` in either case base 0 means sixteen, and like sixteen itself it passes over it. No other base does. */
  lemma HexHead(w: string, t: string, signed: bool, base: nat)
    requires AllSpace(w) && (base == 0 || 2 <= base <= 36) && |t| >= 2 && t[0] == '0' && t[1] in {'x', 'X'}
    ensures HeadOf(w + t, signed, base) == if base in {0, 16} then Head(false, |w| + 2, 16) else Head(false, |w|, base)
  {
    BlanksSkipped(w, t);
  }

  /** A sign is passed over, and minus noted, if the number is signed; else it is where the digits would start. */
  lemma SignedHead(w: string, sign: char, t: string, base: nat)
    requires AllSpace(w) && (base == 0 || 2 <= base <= 36) && sign in {'+', '-'}
    requires t != "" && !Space(t[0]) && t[0] !in {'+', '-'}
    ensures var h := HeadOf(t, true, base);
            HeadOf(w + [sign] + t, true, base) == Head(sign == '-', |w| + 1 + h.start, h.base)
    ensures HeadOf(w + [sign] + t, false, base) == Head(false, |w|, if base != 0 then base else 10)
  {
    BlanksSkipped(w, [sign] + t);
    BlanksSkipped("", t);
    assert w + [sign] + t == w + ([sign] + t);
    assert "" + t == t;
  }

  lemma BlanksSkipped(w: string, t: string)
    requires AllSpace(w) && t != "" && !Space(t[0])
    ensures Skip(w + t, 0) == |w| && forall i :: 0 <= i ==> At(w + t, |w| + i) == At(t, i)
  {
    assert forall i :: 0 <= i < |w| ==> (w + t)[i] in w;
    SkipIs(w + t, 0, |w|);
  }

  /** Blanks, sign and prefix, as the two functions skip them. */
  method ReadHead(s: string, signed: bool, base: nat) returns (h: Head)
    requires base == 0 || 2 <= base <= 36
    ensures h == HeadOf(s, signed, base)
  {
    var p := 0;
    while Space(At(s, p))
      invariant p <= |s| && Skip(s, 0) == Skip(s, p)
      decreases |s| - p
    {
      p := p + 1;
    }
    var negative, radix := false, base;
    if signed && At(s, p) in {'+', '-'} {
      negative := At(s, p) == '-';
      p := p + 1;
    }
    if radix == 0 || radix == 16 {
      if At(s, p) == '0' && At(s, p + 1) in {'x', 'X'} {
        radix := 16;
        p := p + 2;
      }
    }
    if radix == 0 && At(s, p) == '0' { radix := 8; }
    if radix == 0 { radix := 10; }
    h := Head(negative, p, radix);
  }

  /** The digits. A sum past `max` comes out `modulus` lower, for signed and unsigned numbers alike, and is told by
      being less than what the digit was added to. */
  method ReadDigitsOf(s: string, start: nat, base: Base, max: nat, modulus: nat) returns (accum: nat, end: nat)
    requires start <= |s| && max < modulus && max >= 36
    ensures Longest(s, start, end, base, max) && accum == Value(s[start..end], base)
  {
    hide Digit, Value;
    var pmo := max / base;
    accum, end := 0, start;
    NoDigits(base);
    assert s[start..start] == "";
    while accum <= pmo
      invariant start <= end <= |s| && AllDigits(s[start..end], base) && accum == Value(s[start..end], base) <= max
      decreases |s| - end
    {
      var d := Digit(At(s, end), base);
      if d < 0 { break; }
      var accumb := accum * base;
      FitsProduct(accum, base, max);
      var accumn := if accumb + d > max then accumb + d - modulus else accumb + d;
      if accumn < accumb { break; }
      ValueIs(s[start..end], s[end], base);
      assert s[start..end + 1] == s[start..end] + [s[end]];
      end := end + 1;
      accum := accumn;
    }
    FitsProduct(accum, base, max);
    StopsThere(s, start, end, base, max);
  }

  /** What the accumulator is compared to decides whether the product fits. */
  lemma FitsProduct(accum: nat, base: Base, max: nat)
    ensures accum <= max / base <==> accum * base <= max
  {
    var q, r := max / base, max % base;
    assert max == q * base + r;
    if accum <= q { assert accum * base <= q * base; } else { assert accum * base >= (q + 1) * base; }
  }

  /** `max` is the largest value of the signed type, and half the number of its values less one. */
  method Strtol(s: string, base: nat, max: nat) returns (value: int, end: nat)
    requires (base == 0 || 2 <= base <= 36) && max >= 36
    ensures var h := HeadOf(s, true, base);
            && Longest(s, h.start, end, h.base, max)
            && value == Signed(h.negative, Value(s[h.start..end], h.base))
    ensures Signed(true, max) <= value <= max
  {
    var h := ReadHead(s, true, base);
    var accum: nat;
    accum, end := ReadDigitsOf(s, h.start, h.base, max, 2 * (max + 1));
    value := accum;
    if h.negative { value := 0 - value; }
  }

  method Strtoul(s: string, base: nat, max: nat) returns (value: nat, end: nat)
    requires (base == 0 || 2 <= base <= 36) && max >= 36
    ensures var h := HeadOf(s, false, base);
            Longest(s, h.start, end, h.base, max) && value == Value(s[h.start..end], h.base) <= max
  {
    var h := ReadHead(s, false, base);
    value, end := ReadDigitsOf(s, h.start, h.base, max, max + 1);
  }

  /** A number printed in a base, in lower case. */
  function DigitOf(d: nat): char
    requires d < 36
  {
    if d < 10 then '0' + d as char else 'a' + (d - 10) as char
  }

  function Leading(v: nat, base: Base): (q: nat)
    ensures v >= base ==> 0 < q < v
  {
    var q, r := v / base, v % base;
    assert v == q * base + r;
    TimesBase(q, base);
    q
  }

  function Last(v: nat, base: Base): (r: nat)
    ensures r < base && v == Leading(v, base) * base + r
  {
    v % base
  }

  function Printed(v: nat, base: Base): (s: string)
    ensures |s| > 0
  {
    if v < base then [DigitOf(v)] else Printed(Leading(v, base), base) + [DigitOf(Last(v, base))]
  }

  lemma {:induction false} PrintedValue(v: nat, base: Base)
    ensures AllDigits(Printed(v, base), base) && Value(Printed(v, base), base) == v
  {
    hide Leading, Last, Digit, DigitOf;
    if v < base {
      DigitIs(v, base);
      assert Printed(v, base)[..0] == "";
    } else {
      var s, t := Printed(v, base), Printed(Leading(v, base), base);
      PrintedValue(Leading(v, base), base);
      DigitIs(Last(v, base), base);
      assert s[..|s| - 1] == t && s[|s| - 1] == DigitOf(Last(v, base));
    }
  }

  lemma DigitIs(d: nat, base: Base)
    requires d < base
    ensures Digit(DigitOf(d), base) == d && (DigitOf(d) == '0' <==> d == 0)
  {}

  /** The text of a signed number, whatever follows it, is read back as that number and no further, except for the
      lowest one: its digits are one too many, since the digits are held to the largest value before the sign counts. */
  lemma ReadsBack(v: int, rest: string, base: Base, max: nat, value: int, end: nat)
    requires max >= 36 && Signed(true, max + 1) <= v <= max
    requires rest != "" ==> Digit(rest[0], base) < 0 && (base == 16 && v == 0 ==> rest[0] !in {'x', 'X'})
    requires var s := (if v < 0 then "-" else "") + Printed(if v < 0 then 0 - v else v, base) + rest;
             var h := HeadOf(s, true, base);
             Longest(s, h.start, end, h.base, max) && value == Signed(h.negative, Value(s[h.start..end], h.base))
    ensures value == v && end == (if v < 0 then 1 else 0) + |Printed(if v < 0 then 0 - v else v, base)|
            <==> v != Signed(true, max + 1)
  {
    var sign, digits := if v < 0 then "-" else "", Printed(if v < 0 then 0 - v else v, base);
    var s := sign + digits + rest;
    PrintedValue(if v < 0 then 0 - v else v, base);
    PrintedHead(sign, if v < 0 then 0 - v else v, rest, base);
    if v != Signed(true, max + 1) {
      var stop := |sign| + |digits|;
      assert s[|sign|..stop] == digits;
      assert stop < |s| ==> s[stop] == rest[0];
      StopsThere(s, |sign|, stop, base, max);
      LongestIsUnique(s, |sign|, end, stop, base, max);
    }
  }

  lemma PrintedHead(sign: string, v: nat, rest: string, base: Base)
    requires sign == "" || sign == "-"
    requires rest != "" ==> Digit(rest[0], base) < 0 && (base == 16 && v == 0 ==> rest[0] !in {'x', 'X'})
    ensures HeadOf(sign + Printed(v, base) + rest, true, base) == Head(sign == "-", |sign|, base)
  {
    var digits := Printed(v, base);
    var s := sign + digits + rest;
    PrintedValue(v, base);
    assert At(s, |sign|) == digits[0];
    assert Digit(digits[0], base) >= 0;
    if base == 16 && digits[0] == '0' {
      PrintedLeads(v, base);
      assert v == 0 && |digits| == 1;
      assert At(s, |sign| + 1) == At(rest, 0);
    }
  }

  /** A printed number has no leading zero. */
  lemma {:induction false} PrintedLeads(v: nat, base: Base)
    ensures Printed(v, base)[0] == '0' <==> v == 0
  {
    hide Leading, Last, DigitOf;
    if v < base { DigitIs(v, base); } else { PrintedLeads(Leading(v, base), base); }
  }
}
