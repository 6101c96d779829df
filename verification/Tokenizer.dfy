/** Chopping a command line up in its own buffer: characters are moved down over ones already read,
    words end in nulls, and a vector points at them. */
module Tokenizer {
  import opened Common
  import opened CommandLine

  /** The C string that starts at `p`. */
  function CStringAt(b: seq<char>, p: nat): string
    decreases |b| - p
  {
    if p >= |b| || b[p] == '\0' then "" else [b[p]] + CStringAt(b, p + 1)
  }

  /** Words laid end to end, each with its null. */
  function Laid(words: seq<string>): string {
    if words == [] then "" else Laid(words[..|words| - 1]) + words[|words| - 1] + "\0"
  }

  function Current(cur: Option<string>): string {
    if cur.Some? then cur.value else ""
  }

  /** The buffer part way: from `i` on it is still the line, and from `i0` up to `j <= i` it holds the words
      so far. Words are few enough for the vector. */
  ghost predicate Scanned(b: seq<char>, v: seq<nat>, s: CString, i0: nat, i: nat, j: nat, n: nat,
                          cur: Option<string>, words: seq<string>)
  {
    && |b| == |s| + 1 && |v| == |s| / 2 + 2
    && i0 <= j <= i <= |s|
    && b[i..] == s[i..] + "\0"
    && b[i0..j] == Laid(words) + Current(cur)
    && n == |Close(words, cur)|
    && 2 * n <= i - i0 + (if cur.Some? then 1 else 0)
    && (forall k :: 0 <= k < n ==> v[k] == i0 + |Laid(Close(words, cur)[..k])|)
    && (forall w <- Close(words, cur) :: '\0' !in w)
  }

  lemma LaidSnoc(words: seq<string>, w: string)
    ensures Laid(words + [w]) == Laid(words) + w + "\0"
  {
    assert (words + [w])[..|words|] == words;
  }

  lemma MovedDown(b: seq<char>, s: CString, i: nat, i': nat, j: nat, c: char)
    requires |b| == |s| + 1 && j <= i < i' <= |s| && b[i..] == s[i..] + "\0"
    ensures b[j := c][i'..] == s[i'..] + "\0"
  {
    assert b[j := c][i'..] == b[i'..] == b[i..][i' - i..];
    assert (s[i..] + "\0")[i' - i..] == s[i'..] + "\0";
  }

  lemma NewWordStep(b: seq<char>, v: seq<nat>, s: CString, i0: nat, i: nat, j: nat, n: nat, words: seq<string>,
                    i': nat, c: char)
    requires Scanned(b, v, s, i0, i, j, n, None, words) && i < i' <= |s| && c != '\0'
    ensures n < |v|
    ensures Scanned(b[j := c], v[n := j], s, i0, i', j + 1, n + 1, Some([c]), words)
  {
    MovedDown(b, s, i, i', j, c);
    assert b[j := c][i0..j + 1] == b[i0..j] + [c];
    assert b[i0..j] == Laid(words);
    var now := words + [[c]];
    forall k | 0 <= k < n ensures now[..k] == words[..k] {}
    assert now[..n] == words;
  }

  lemma MoreWordStep(b: seq<char>, v: seq<nat>, s: CString, i0: nat, i: nat, j: nat, n: nat, w: string,
                     words: seq<string>, i': nat, c: char)
    requires Scanned(b, v, s, i0, i, j, n, Some(w), words) && i < i' <= |s| && c != '\0'
    ensures Scanned(b[j := c], v, s, i0, i', j + 1, n, Some(w + [c]), words)
  {
    MovedDown(b, s, i, i', j, c);
    assert b[j := c][i0..j + 1] == b[i0..j] + [c];
    assert b[i0..j] + [c] == Laid(words) + (w + [c]);
    var was, now := words + [w], words + [w + [c]];
    assert was[|words|] == w;
    forall k | 0 <= k < n ensures now[..k] == was[..k] {}
  }

  lemma EndWordStep(b: seq<char>, v: seq<nat>, s: CString, i0: nat, i: nat, j: nat, n: nat,
                    cur: Option<string>, words: seq<string>)
    requires Scanned(b, v, s, i0, i, j, n, cur, words) && i < |s| && cur.Some?
    ensures Scanned(b[j := '\0'], v, s, i0, i + 1, j + 1, n, None, words + [cur.value])
  {
    MovedDown(b, s, i, i + 1, j, '\0');
    assert b[j := '\0'][i0..j + 1] == b[i0..j] + "\0";
    LaidSnoc(words, cur.value);
  }

  lemma PassStep(b: seq<char>, v: seq<nat>, s: CString, i0: nat, i: nat, j: nat, n: nat,
                 cur: Option<string>, words: seq<string>)
    requires Scanned(b, v, s, i0, i, j, n, cur, words) && i < |s|
    ensures Scanned(b, v, s, i0, i + 1, j, n, cur, words)
  {
    assert b[i + 1..] == b[i..][1..];
    assert (s[i..] + "\0")[1..] == s[i + 1..] + "\0";
  }

  lemma {:induction false} ReadsCString(b: seq<char>, p: nat, w: string)
    requires '\0' !in w && p + |w| < |b| && b[p..p + |w|] == w && b[p + |w|] == '\0'
    ensures CStringAt(b, p) == w
    decreases |w|
  {
    if w != "" {
      assert b[p] == b[p..p + |w|][0];
      assert b[p + 1..p + |w|] == b[p..p + |w|][1..];
      ReadsCString(b, p + 1, w[1..]);
    }
  }

  /** A word laid among others reads as a C string. */
  lemma LaidReads(b: seq<char>, i0: nat, words: seq<string>, k: nat)
    requires k < |words| && (forall w <- words :: '\0' !in w)
    requires i0 + |Laid(words)| <= |b| && b[i0..i0 + |Laid(words)|] == Laid(words)
    ensures CStringAt(b, i0 + |Laid(words[..k])|) == words[k]
    decreases |words|
  {
    hide CStringAt;
    var m := |words| - 1;
    var init, last := words[..m], words[m];
    assert words == init + [last];
    var all, before := Laid(words), Laid(init);
    assert all == before + last + "\0";
    if k < m {
      Slice(b, i0, |all|, 0, |before|);
      LaidReads(b, i0, init, k);
      assert init[..k] == words[..k];
    } else {
      Slice(b, i0, |all|, |before|, |before| + |last|);
      Slice(b, i0, |all|, |before| + |last|, |all|);
      assert b[i0 + |all| - 1..i0 + |all|] == "\0";
      ReadsCString(b, i0 + |before|, last);
    }
  }

  lemma Finish(b: seq<char>, v: seq<nat>, s: CString, i0: nat, i: nat, j: nat, n: nat,
               cur: Option<string>, words: seq<string>)
    requires Scanned(b, v, s, i0, i, j, n, cur, words)
    ensures n < |v|
    ensures forall k :: 0 <= k < n ==> CStringAt(b[j := '\0'], v[k]) == Close(words, cur)[k]
    ensures forall i' :: i < i' <= |s| ==> b[j := '\0'][i'..] == s[i'..] + "\0"
  {
    hide CStringAt, Laid;
    var b', all := b[j := '\0'], Close(words, cur);
    FinishLaid(b, i0, j, words, cur);
    forall k | 0 <= k < n ensures CStringAt(b', v[k]) == all[k] {
      LaidReads(b', i0, all, k);
    }
    forall i' | i < i' <= |s| ensures b'[i'..] == s[i'..] + "\0" { MovedDown(b, s, i, i', j, '\0'); }
  }

  /** The last null completes the last word. */
  lemma FinishLaid(b: seq<char>, i0: nat, j: nat, words: seq<string>, cur: Option<string>)
    requires i0 <= j < |b| && b[i0..j] == Laid(words) + Current(cur)
    ensures var all := Laid(Close(words, cur)); i0 + |all| <= |b| && b[j := '\0'][i0..i0 + |all|] == all
  {
    hide Laid;
    var b' := b[j := '\0'];
    assert b'[i0..j] == b[i0..j];
    if cur.Some? {
      LaidSnoc(words, cur.value);
      assert b'[i0..j + 1] == b'[i0..j] + "\0";
    }
  }

  /** What is still unread is the line's own. */
  lemma Unread(b: seq<char>, s: CString, i: nat)
    requires |b| == |s| + 1 && i <= |s| && b[i..] == s[i..] + "\0"
    ensures b[i] == At(s, i) && (i < |s| ==> b[i + 1] == At(s, i + 1)) && (At(s, i) == '\0' <==> i == |s|)
  {
    assert b[i] == b[i..][0] == (s[i..] + "\0")[0];
    if i < |s| { assert b[i + 1] == b[i..][1] == (s[i..] + "\0")[1]; }
  }

  /** One pass of the chopping loop's body that neither stops nor branches away. `go` is false at the end
      of the line. */
  method Chop(newbuf: array<char>, v: array<nat>, i: nat, j: nat, n: nat, skipping: bool, quoted: bool,
              ghost s: CString, ghost i0: nat, ghost cur: Option<string>, ghost words: seq<string>)
    returns (i': nat, j': nat, n': nat, skipping': bool, go: bool, ghost cur': Option<string>,
             ghost words': seq<string>)
    requires Scanned(newbuf[..], v[..], s, i0, i, j, n, cur, words) && i < |s| && skipping == cur.None?
    modifies newbuf, v
    ensures Scanned(newbuf[..], v[..], s, i0, i', j', n', cur', words') && skipping' == cur'.None?
    ensures if !(quoted || !Blank(s[i])) then go && i' == i + 1 && cur' == None && words' == Close(words, cur)
            else if s[i] != '\\' then go && i' == i + 1 && cur' == Add(cur, s[i]) && words' == words
            else if i + 1 == |s| then !go && cur' == cur && words' == words
            else go && i' == i + 2 && cur' == Add(cur, Expr.Unescape(s[i + 1])) && words' == words
  {
    hide Scanned;
    ghost var b, vs := newbuf[..], v[..];
    Facts(b, vs, s, i0, i, j, n, cur, words);
    Unread(b, s, i);
    Unread(b, s, i + 1) by {
      PassStep(b, vs, s, i0, i, j, n, cur, words);
      Facts(b, vs, s, i0, i + 1, j, n, cur, words);
    }
    i', j', n', skipping', go, cur', words' := i, j, n, skipping, true, cur, words;
    var c := newbuf[i];
    if quoted || !Blank(c) {
      if c == '\\' {
        i' := i + 1;
        c := newbuf[i'];
        if c == '\0' {
          PassStep(b, vs, s, i0, i, j, n, cur, words);
          go := false;
          return;
        }
        c := Expr.Unescape(c);
      }
      i' := i' + 1;
      if skipping {
        NewWordStep(b, vs, s, i0, i, j, n, words, i', c);
        v[n] := j;
        n' := n + 1;
        skipping' := false;
        cur' := Some([c]);
      } else {
        MoreWordStep(b, vs, s, i0, i, j, n, cur.value, words, i', c);
        cur' := Some(cur.value + [c]);
      }
      newbuf[j] := c;
      j' := j + 1;
      assert newbuf[..] == b[j := c] && v[..] == if skipping then vs[n := j] else vs;
    } else {
      i' := i + 1;
      if !skipping {
        EndWordStep(b, vs, s, i0, i, j, n, cur, words);
        newbuf[j] := '\0';
        j' := j + 1;
        skipping' := true;
        cur', words' := None, words + [cur.value];
        assert newbuf[..] == b[j := '\0'];
      } else {
        PassStep(b, vs, s, i0, i, j, n, cur, words);
      }
    }
  }

  lemma Facts(b: seq<char>, v: seq<nat>, s: CString, i0: nat, i: nat, j: nat, n: nat, cur: Option<string>,
              words: seq<string>)
    requires Scanned(b, v, s, i0, i, j, n, cur, words)
    ensures |b| == |s| + 1 && |v| == |s| / 2 + 2 && i0 <= j <= i <= |s| && b[i..] == s[i..] + "\0"
    ensures n == |Close(words, cur)| < |v|
  {}

  /** Chops one segment. What the vector then points at are the segment's words, and the text of the next
      segment has not been touched. */
  method ScanSegment(newbuf: array<char>, v: array<nat>, i0: nat, ghost s: CString) returns (n: nat, next: int)
    requires newbuf.Length == |s| + 1 && i0 <= |s| && newbuf[i0..] == s[i0..] + "\0" && v.Length == |s| / 2 + 2
    modifies newbuf, v
    ensures var seg := Split(s, i0, false, false, None, []);
            && next == seg.next && n == |seg.words| < v.Length
            && (forall k :: 0 <= k < n ==> CStringAt(newbuf[..], v[k]) == seg.words[k])
    ensures next >= 0 ==> newbuf[next..] == s[next..] + "\0"
  {
    hide Scanned, Split, CStringAt, Close, Add, Blank;
    ghost var cur: Option<string>, words: seq<string> := None, [];
    var i, j, dq, sq, skipping := i0, i0, false, false, true;
    n, next := 0, -1;
    Start(newbuf[..], v[..], s, i0);
    while true
      invariant Scanned(newbuf[..], v[..], s, i0, i, j, n, cur, words) && skipping == cur.None? && i <= |s|
      invariant Split(s, i0, false, false, None, []) == Split(s, i, dq, sq, cur, words)
      invariant next == -1
      decreases |s| - i
    {
      Facts(newbuf[..], v[..], s, i0, i, j, n, cur, words);
      Unread(newbuf[..], s, i);
      SplitTurns(s, i, dq, sq, cur, words);
      var c := newbuf[i];
      if c == '\0' || (!dq && !sq && c == '#') { break; }
      if !dq && !sq && c == '|' && newbuf[i + 1] == '>' {
        next := i + 2;
        break;
      }
      if !sq && c == '"' {
        PassStep(newbuf[..], v[..], s, i0, i, j, n, cur, words);
        dq, i := !dq, i + 1;
      } else if !dq && c == '\'' {
        PassStep(newbuf[..], v[..], s, i0, i, j, n, cur, words);
        sq, i := !sq, i + 1;
      } else {
        var go;
        i, j, n, skipping, go, cur, words := Chop(newbuf, v, i, j, n, skipping, dq || sq, s, i0, cur, words);
        if !go { break; }
      }
    }
    assert Split(s, i0, false, false, None, []) == Segment(Close(words, cur), next);
    ghost var b := newbuf[..];
    Facts(b, v[..], s, i0, i, j, n, cur, words);
    Finish(b, v[..], s, i0, i, j, n, cur, words);
    newbuf[j] := '\0';
    assert newbuf[..] == b[j := '\0'];
  }

  lemma Start(b: seq<char>, v: seq<nat>, s: CString, i0: nat)
    requires |b| == |s| + 1 && i0 <= |s| && b[i0..] == s[i0..] + "\0" && |v| == |s| / 2 + 2
    ensures Scanned(b, v, s, i0, i0, i0, 0, None, [])
  {}

  lemma SplitTurns(s: CString, i: nat, dq: bool, sq: bool, cur: Option<string>, words: seq<string>)
    requires i <= |s|
    ensures Split(s, i, dq, sq, cur, words) ==
            if i == |s| || (!dq && !sq && s[i] == '#') then Segment(Close(words, cur), -1)
            else if !dq && !sq && s[i] == '|' && At(s, i + 1) == '>' then Segment(Close(words, cur), i + 2)
            else if !sq && s[i] == '"' then Split(s, i + 1, !dq, sq, cur, words)
            else if !dq && s[i] == '\'' then Split(s, i + 1, dq, !sq, cur, words)
            else if !(dq || sq || !Blank(s[i])) then Split(s, i + 1, dq, sq, None, Close(words, cur))
            else if s[i] != '\\' then Split(s, i + 1, dq, sq, Add(cur, s[i]), words)
            else if i + 1 == |s| then Segment(Close(words, cur), -1)
            else Split(s, i + 2, dq, sq, Add(cur, Expr.Unescape(s[i + 1])), words)
  {}

  /** What a command sees as its argument vector. */
  function Argv(b: seq<char>, v: seq<nat>): seq<string> {
    if v == [] then [] else Argv(b, v[..|v| - 1]) + [CStringAt(b, v[|v| - 1])]
  }

  lemma ArgvIs(b: seq<char>, v: seq<nat>, words: seq<string>)
    requires |v| == |words| && forall k :: 0 <= k < |v| ==> CStringAt(b, v[k]) == words[k]
    ensures Argv(b, v) == words
  {
    hide CStringAt;
    if v != [] {
      ArgvIs(b, v[..|v| - 1], words[..|v| - 1]);
    }
  }

  /** The first segment of the rest of a line joins those before it. */
  lemma SegmentRuns(s: CString, i: nat, ran: seq<seq<string>>)
    requires i <= |s|
    ensures var seg := Split(s, i, false, false, None, []);
            ran + Segments(s, i) == ran + [seg.words] + if seg.next < 0 then [] else Segments(s, seg.next)
  {
    hide Split;
  }

  /** Runs the segments of a line one after another, until one fails to start. Each is run with exactly its
      own words. */
  method Execute(newbuf: array<char>, ghost s: CString) returns (ran: seq<seq<string>>, all: bool)
    requires newbuf[..] == s + "\0"
    modifies newbuf
    ensures ran != [] && ran <= Segments(s, 0) && (all ==> ran == Segments(s, 0))
  {
    hide Split, CStringAt, Segments;
    var v := new nat[(newbuf.Length - 1) / 2 + 2];
    var i := 0;
    ran := [];
    assert newbuf[0..] == newbuf[..] && s[0..] == s;
    while true
      invariant 0 <= i <= |s| && newbuf[i..] == s[i..] + "\0"
      invariant Segments(s, 0) == ran + Segments(s, i)
      decreases |s| - i
    {
      SegmentRuns(s, i, ran);
      ghost var seg := Split(s, i, false, false, None, []);
      var n, next := ScanSegment(newbuf, v, i, s);
      ran := ran + [ArgvOf(newbuf, v, n, seg.words)];
      if next < 0 { return ran, true; }
      var started: bool := *;
      if !started { return ran, false; }
      i := next;
    }
  }

  function ArgvOf(newbuf: array<char>, v: array<nat>, n: nat, ghost words: seq<string>): (argv: seq<string>)
    requires n <= v.Length && n == |words| && forall k :: 0 <= k < n ==> CStringAt(newbuf[..], v[k]) == words[k]
    reads newbuf, v
    ensures argv == words
  {
    ArgvIs(newbuf[..], v[..n], words);
    Argv(newbuf[..], v[..n])
  }
}
