/** What several modules share: optional values, the machine's bytes and words, and C strings. */
module Common {

  datatype Option<T> = None | Some(value: T)

  type byte = x: int | 0 <= x < 256

  const WORD: nat := 0x1_0000_0000

  type Word = x: nat | x < WORD

  /** A C string: the terminating null is not part of it. */
  type CString = s: string | '\0' !in s

  function At(s: string, p: nat): char {
    if p < |s| then s[p] else '\0'
  }

  // Characters are signed in the source, so those from 128 up count as below the space.

  predicate Blank(c: char) { c <= ' ' || c as int >= 128 }

  predicate Space(c: char) { c != '\0' && Blank(c) }

  function Skip(s: string, p: nat): (q: nat)
    requires p <= |s|
    ensures p <= q <= |s| && !Space(At(s, q))
    decreases |s| - p
  {
    if p < |s| && Space(s[p]) then Skip(s, p + 1) else p
  }

  /** What is skipped is blank, and it is skipped to the first that is not. */
  lemma {:induction false} SkipIs(s: string, p: nat, q: nat)
    requires p <= q <= |s| && (forall i :: p <= i < q ==> Space(s[i])) && !Space(At(s, q))
    ensures Skip(s, p) == q
    decreases q - p
  {
    if p < q { SkipIs(s, p + 1, q); }
  }

  ghost predicate Distinct<T>(list: seq<T>) {
    forall i, j :: 0 <= i < j < |list| ==> list[i] != list[j]
  }

  /** A part of a part. */
  lemma Slice<T>(s: seq<T>, start: nat, n: nat, from: nat, upto: nat)
    requires start + n <= |s| && from <= upto <= n
    ensures s[start..start + n][from..upto] == s[start + from..start + upto]
  {
    var x, y := s[start..start + n][from..upto], s[start + from..start + upto];
    assert |x| == |y|;
    forall k | 0 <= k < |x| ensures x[k] == y[k] {
      assert x[k] == s[start..start + n][from + k];
    }
  }
}
