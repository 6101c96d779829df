/** The number printer and reader of the common routines, on unsigned 32-bit values. */
module Numbers {
  import opened Common

  function DigitChar(d: nat): char
    requires d < 16
  {
    if d < 10 then '0' + d as char else 'A' + (d - 10) as char
  }

  /** The digit a character stands for in base 10 or 16, if any. */
  function DigitValue(c: char, base: nat): int {
    if '0' <= c <= '9' then c as int - '0' as int
    else if base == 16 && 'A' <= c <= 'F' then c as int - 'A' as int + 10
    else if base == 16 && 'a' <= c <= 'f' then c as int - 'a' as int + 10
    else -1
  }

  /** Positional notation, most significant digit first. */
  function Numeral(v: nat, base: nat): (s: string)
    requires 2 <= base <= 16
    ensures |s| > 0
  {
    if v < base then [DigitChar(v)] else Numeral(v / base, base) + [DigitChar(v % base)]
  }

  /** Reads digits from `p` into `acc`, wrapping at the word size. */
  function ReadDigits(s: string, p: nat, base: nat, acc: nat): (r: (nat, nat))
    requires p <= |s| && acc < WORD
    ensures p <= r.1 <= |s| && r.0 < WORD
    decreases |s| - p
  {
    if p == |s| || DigitValue(s[p], base) < 0 then (acc, p)
    else ReadDigits(s, p + 1, base, (acc * base + DigitValue(s[p], base)) % WORD)
  }

  function ReadNumber(s: string, p: nat): (r: (nat, nat))
    requires p <= |s|
    ensures p <= r.1 <= |s| && r.0 < WORD
  {
    if At(s, p) == '0' && At(s, p + 1) in {'x', 'X'} then ReadDigits(s, p + 2, 16, 0)
    else ReadDigits(s, p, 10, 0)
  }

  function Pow(b: nat, k: nat): nat {
    if k == 0 then 1 else b * Pow(b, k - 1)
  }

  /** The digits in their order, from '0' and, for ten and more, from 'A'; small letters are read like capitals. */
  lemma DigitsAre(d: nat)
    requires d < 16
    ensures d < 10 ==> DigitChar(d) == '0' + d as char && DigitValue('0' + d as char, 10) == d
    ensures d >= 10 ==> DigitChar(d) == 'A' + (d - 10) as char && DigitValue('a' + (d - 10) as char, 16) == d
    ensures DigitValue(DigitChar(d), 16) == d
    ensures forall c: char :: c < '0' || '9' < c ==> DigitValue(c, 10) == -1
    ensures forall c: char :: c < '0' || '9' < c < 'A' || 'F' < c < 'a' || 'f' < c ==> DigitValue(c, 16) == -1
  {}

  /** Digits as an integer, however many: each is worth its value, and multiplies those before it by the base. */
  function Horner(t: string, base: nat): int {
    if t == "" then 0 else Horner(t[..|t| - 1], base) * base + DigitValue(t[|t| - 1], base)
  }

  /** Digits are read as that integer, wrapped at the word size, and up to the first character that is no digit. */
  lemma {:induction false} ReadsHorner(s: string, p: nat, q: nat, base: nat)
    requires p <= q <= |s| && base in {10, 16} && forall i :: p <= i < q ==> DigitValue(s[i], base) >= 0
    ensures Horner(s[p..q], base) >= 0
    ensures ReadDigits(s, p, base, 0) == ReadDigits(s, q, base, Horner(s[p..q], base) % WORD)
    decreases q - p
  {
    hide ReadDigits, DigitValue, Horner;
    if p < q {
      ReadsHorner(s, p, q - 1, base);
      var before, c := s[p..q - 1], s[q - 1];
      assert s[p..q] == before + [c];
      HornerMore(before, c, base);
      ReadMore(s, q - 1, base, Horner(before, base));
    } else {
      assert s[p..q] == "";
      HornerMore("", '0', base);
    }
  }

  lemma HornerMore(t: string, c: char, base: nat)
    ensures Horner(t + [c], base) == Horner(t, base) * base + DigitValue(c, base) && Horner("", base) == 0
  {
    assert (t + [c])[..|t|] == t;
  }

  /** Wrapping at each digit is wrapping at the end. */
  lemma ReadMore(s: string, q: nat, base: nat, v: nat)
    requires q < |s| && base in {10, 16} && DigitValue(s[q], base) >= 0
    ensures ReadDigits(s, q, base, v % WORD) == ReadDigits(s, q + 1, base, (v * base + DigitValue(s[q], base)) % WORD)
  {
    hide DigitValue;
    var d := DigitValue(s[q], base);
    if base == 10 { assert (v % WORD * 10 + d) % WORD == (v * 10 + d) % WORD; }
    else { assert (v % WORD * 16 + d) % WORD == (v * 16 + d) % WORD; }
  }

  /** A number is hexadecimal after `0x` or `0X`, and else decimal, also after a zero. */
  lemma NumberIs(s: string, p: nat, q: nat)
    requires p <= q <= |s| && DigitValue(At(s, q), 10) < 0 && forall i :: p <= i < q ==> DigitValue(s[i], 10) >= 0
    requires q == p + 1 && s[p] == '0' ==> At(s, q) !in {'x', 'X'}
    ensures ReadNumber(s, p) == (Horner(s[p..q], 10) % WORD, q)
  {
    ReadsHorner(s, p, q, 10);
  }

  lemma HexNumberIs(s: string, p: nat, q: nat)
    requires p + 2 <= q <= |s| && DigitValue(At(s, q), 16) < 0
    requires forall i :: p + 2 <= i < q ==> DigitValue(s[i], 16) >= 0
    requires s[p] == '0' && s[p + 1] in {'x', 'X'}
    ensures ReadNumber(s, p) == (Horner(s[p + 2..q], 16) % WORD, q)
  {
    ReadsHorner(s, p + 2, q, 16);
  }

  lemma {:induction false} NumeralLength(v: nat, base: nat, k: nat)
    requires (base == 10 || base == 16) && 1 <= k && v < Pow(base, k)
    ensures |Numeral(v, base)| <= k
  {
    if v >= base {
      var smaller := Pow(base, k - 1);
      if base == 10 { assert v / 10 < smaller; } else { assert v / 16 < smaller; }
      assert k > 1;
      NumeralLength(v / base, base, k - 1);
    }
  }

  lemma WordFits()
    ensures WORD <= Pow(10, 10) && WORD == Pow(16, 8)
  {
    assert Pow(10, 2) == 100 && Pow(16, 2) == 256;
    assert Pow(10, 4) == 10000 && Pow(16, 4) == 65536;
    assert Pow(10, 6) == 1000000 && Pow(16, 6) == 16777216;
    assert Pow(10, 8) == 100000000 && Pow(16, 8) == 4294967296;
  }

  /** Appending a digit to what has been read. */
  lemma ReadOne(s: string, p: nat, base: nat, v: nat)
    requires (base == 10 || base == 16) && v < WORD && p < |s| && s[p] == DigitChar(v % base)
    ensures ReadDigits(s, p, base, v / base) == ReadDigits(s, p + 1, base, v)
  {
    assert DigitValue(s[p], base) == v % base;
    if base == 10 { assert (v / 10) * 10 + v % 10 == v; } else { assert (v / 16) * 16 + v % 16 == v; }
  }

  /** Reading on past a numeral that stands at `p`. */
  lemma {:induction false} ReadNumeral(s: string, p: nat, v: nat, base: nat)
    requires base == 10 || base == 16
    requires v < WORD && p + |Numeral(v, base)| <= |s| && s[p..p + |Numeral(v, base)|] == Numeral(v, base)
    ensures ReadDigits(s, p, base, 0) == ReadDigits(s, p + |Numeral(v, base)|, base, v)
  {
    hide ReadDigits;
    var n, q, d := Numeral(v, base), v / base, DigitChar(v % base);
    if v < base {
      assert q == 0 && n == [d];
      assert s[p] == s[p..p + |n|][0];
      ReadOne(s, p, base, v);
    } else {
      var m := Numeral(q, base);
      var last := p + |m|;
      assert n == m + [d];
      assert s[p..last] == s[p..p + |n|][..|m|] == m;
      assert s[last] == s[p..p + |n|][|m|] == d;
      assert q < v by { if base == 10 { assert v / 10 < v; } else { assert v / 16 < v; } }
      ReadNumeral(s, p, q, base);
      ReadOne(s, last, base, v);
    }
  }

  /** Reading back what was printed gives the value and uses exactly the numeral, whatever other text
      follows it. */
  lemma RoundTrip(s: string, p: nat, v: nat)
    requires v < WORD && p + |Numeral(v, 10)| <= |s| && s[p..p + |Numeral(v, 10)|] == Numeral(v, 10)
    requires DigitValue(At(s, p + |Numeral(v, 10)|), 10) < 0
    requires v == 0 ==> At(s, p + 1) !in {'x', 'X'}
    ensures ReadNumber(s, p) == (v, p + |Numeral(v, 10)|)
  {
    ReadNumeral(s, p, v, 10);
  }

  lemma HexRoundTrip(s: string, p: nat, v: nat)
    requires v < WORD && p + |Numeral(v, 16)| <= |s| && s[p..p + |Numeral(v, 16)|] == Numeral(v, 16)
    requires DigitValue(At(s, p + |Numeral(v, 16)|), 16) < 0
    ensures ReadDigits(s, p, 16, 0) == (v, p + |Numeral(v, 16)|)
  {
    ReadNumeral(s, p, v, 16);
  }

  function Truncated(s: string, size: nat): string {
    if size == 0 then "" else if |s| < size then s else s[..size - 1]
  }

  /** What does not fit before the null is cut off at the end; no buffer holds nothing. */
  lemma TruncatedIs(s: string, size: nat)
    ensures Truncated(s, size) <= s
    ensures |Truncated(s, size)| == if size == 0 then 0 else if |s| < size - 1 then |s| else size - 1
  {}

  lemma NumeralFitsTemp(v: nat, base: nat)
    requires (base == 10 || base == 16) && v < WORD
    ensures |Numeral(v, base)| <= 10
  {
    WordFits();
    if base == 10 { NumeralLength(v, 10, 10); } else { NumeralLength(v, 16, 8); }
  }

  lemma Peel(v: nat, base: nat)
    requires base == 10 || base == 16
    ensures v < base ==> v / base == 0 && Numeral(v, base) == [DigitChar(v % base)]
    ensures v >= base ==> 0 < v / base < v && Numeral(v, base) == Numeral(v / base, base) + [DigitChar(v % base)]
  {
    if base == 10 {} else {}
  }

  /** oz_hw_itoa and oz_hw_ztoa: digits go into a small temp area from its end, which always holds them. */
  method ToString(valu: nat, size: nat, base: nat) returns (buff: string)
    requires valu < WORD && (base == 10 || base == 16)
    ensures buff == Truncated(Numeral(valu, base), size)
  {
    var temp := new char[12];
    var i, v := 11, valu;
    temp[i] := '\0';
    hide Numeral, DigitChar;
    NumeralFitsTemp(valu, base);
    ghost var done := "";
    while true
      invariant 0 <= v < WORD
      invariant Numeral(valu, base) == Numeral(v, base) + done
      invariant |done| == 11 - i && temp[i..11] == done && |Numeral(v, base)| <= i <= 11
      decreases v
    {
      Peel(v, base);
      ghost var d := DigitChar(v % base);
      i := i - 1;
      temp[i] := DigitChar(v % base);
      assert temp[i..11] == [d] + done;
      done := [d] + done;
      if v < base { break; }
      v := v / base;
    }
    buff := Truncated(temp[i..11], size);
  }

  /** oz_hw_atoz, and the decimal loop of oz_hw_atoi. */
  method ReadLoop(s: string, p: nat, base: nat) returns (accum: nat, q: nat)
    requires p <= |s| && (base == 10 || base == 16)
    ensures (accum, q) == ReadDigits(s, p, base, 0)
  {
    accum, q := 0, p;
    while q < |s|
      invariant p <= q <= |s| && accum < WORD
      invariant ReadDigits(s, p, base, 0) == ReadDigits(s, q, base, accum)
    {
      var d := DigitValue(s[q], base);
      if d < 0 { break; }
      accum := (accum * base + d) % WORD;
      q := q + 1;
    }
  }

  method Atoi(s: string, p: nat) returns (accum: nat, q: nat)
    requires p <= |s|
    ensures (accum, q) == ReadNumber(s, p)
  {
    if At(s, p) == '0' && At(s, p + 1) in {'x', 'X'} {
      accum, q := ReadLoop(s, p + 2, 16);
    } else {
      accum, q := ReadLoop(s, p, 10);
    }
  }
}
