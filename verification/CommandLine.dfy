/** What a command line means: `|>` cuts it into segments, blanks cut a segment into words, quotes and
    backslashes protect, and `#` starts a comment. The last word still being read is `cur`. */
module CommandLine {
  import opened Common
  import Expr

  /** Words of one segment, and where the next segment starts (-1: there is none). */
  datatype Segment = Segment(words: seq<string>, next: int)

  function Close(words: seq<string>, cur: Option<string>): seq<string> {
    if cur.Some? then words + [cur.value] else words
  }

  function Add(cur: Option<string>, c: char): Option<string> {
    Some(if cur.Some? then cur.value + [c] else [c])
  }

  function Split(s: CString, i: nat, dq: bool, sq: bool, cur: Option<string>, words: seq<string>): (r: Segment)
    requires i <= |s|
    ensures r.next == -1 || i < r.next <= |s|
    decreases |s| - i
  {
    if i == |s| then Segment(Close(words, cur), -1)
    else
      var c := s[i];
      if !dq && !sq && c == '#' then Segment(Close(words, cur), -1)
      else if !dq && !sq && c == '|' && At(s, i + 1) == '>' then Segment(Close(words, cur), i + 2)
      else if !sq && c == '"' then Split(s, i + 1, !dq, sq, cur, words)
      else if !dq && c == '\'' then Split(s, i + 1, dq, !sq, cur, words)
      else if dq || sq || !Blank(c) then
        if c != '\\' then Split(s, i + 1, dq, sq, Add(cur, c), words)
        else if i + 1 == |s| then Segment(Close(words, cur), -1)
        else Split(s, i + 2, dq, sq, Add(cur, Expr.Unescape(s[i + 1])), words)
      else Split(s, i + 1, dq, sq, None, Close(words, cur))
  }

  function Segments(s: CString, i: nat): seq<seq<string>>
    requires i <= |s|
    decreases |s| - i
  {
    var seg := Split(s, i, false, false, None, []);
    [seg.words] + if seg.next < 0 then [] else Segments(s, seg.next)
  }

  // Writing words so that they read back.

  predicate Plain(c: char) { !Blank(c) && c !in "#|\"'\\" }

  function WordText(w: string): string {
    if w == "" then "" else (if Plain(w[0]) then [w[0]] else ['\\', w[0]]) + WordText(w[1..])
  }

  function WordsText(words: seq<string>): string {
    if words == [] then "" else WordText(words[0]) + " " + WordsText(words[1..])
  }

  function LineText(segs: seq<seq<string>>): string
    requires segs != []
  {
    if |segs| == 1 then WordsText(segs[0]) else WordsText(segs[0]) + "|>" + LineText(segs[1..])
  }

  ghost predicate Words(words: seq<string>) {
    forall w <- words :: w != "" && '\0' !in w
  }

  function AddAll(cur: Option<string>, w: string): Option<string> {
    if w == "" then cur else Some(if cur.Some? then cur.value + w else w)
  }

  lemma AddAllStep(cur: Option<string>, w: string)
    requires w != ""
    ensures AddAll(Add(cur, w[0]), w[1..]) == AddAll(cur, w)
  {
    assert [w[0]] + w[1..] == w;
    if cur.Some? { assert cur.value + [w[0]] + w[1..] == cur.value + w; }
    if w[1..] == "" { assert w == [w[0]]; }
  }

  /** A character of a word, protected if it has to be, is read as itself. */
  lemma CharReads(s: CString, i: nat, c: char, cur: Option<string>, words: seq<string>)
    requires c != '\0' && i < |s| && s[i] == (if Plain(c) then c else '\\') && (!Plain(c) ==> At(s, i + 1) == c)
    ensures Split(s, i, false, false, cur, words) ==
              Split(s, i + if Plain(c) then 1 else 2, false, false, Add(cur, c), words)
  {
    if !Plain(c) { assert Expr.Unescape(c) == c; }
  }

  lemma {:induction false} WordReads(s: CString, i: nat, w: string, cur: Option<string>, words: seq<string>)
    requires '\0' !in w && i + |WordText(w)| <= |s| && s[i..i + |WordText(w)|] == WordText(w)
    ensures Split(s, i, false, false, cur, words) == Split(s, i + |WordText(w)|, false, false, AddAll(cur, w), words)
    decreases |w|
  {
    hide Split;
    if w != "" {
      var text, c := WordText(w), w[0];
      var k := if Plain(c) then 1 else 2;
      assert s[i] == s[i..i + |text|][0];
      if k == 2 { assert s[i + 1] == s[i..i + |text|][1] == c; }
      assert s[i + k..i + |text|] == s[i..i + |text|][k..] == WordText(w[1..]);
      CharReads(s, i, c, cur, words);
      WordReads(s, i + k, w[1..], Add(cur, c), words);
      AddAllStep(cur, w);
    }
  }

  /** Text in quotes of either kind is part of the word, blanks and all, and so are quotes of the other kind. */
  lemma QuotedReads(s: CString, i: nat, t: string, quote: char, cur: Option<string>, words: seq<string>)
    requires quote in {'"', '\''} && quote !in t && '\\' !in t && i + |t| + 2 <= |s|
    requires s[i..i + |t| + 2] == [quote] + t + [quote]
    ensures Split(s, i, false, false, cur, words) == Split(s, i + |t| + 2, false, false, AddAll(cur, t), words)
  {
    hide Split;
    var n := |t| + 2;
    assert s[i] == s[i..i + n][0] == quote && s[i + |t| + 1] == s[i..i + n][|t| + 1] == quote;
    Slice(s, i, n, 1, |t| + 1);
    assert s[i + 1..i + 1 + |t|] == t;
    QuoteTurns(s, i, quote, cur, words);
    InsideReads(s, i + 1, t, quote, cur, words);
    QuoteTurns(s, i + |t| + 1, quote, AddAll(cur, t), words);
  }

  lemma InsideStep(s: CString, i: nat, quote: char, cur: Option<string>, words: seq<string>)
    requires i < |s| && quote in {'"', '\''} && s[i] != quote && s[i] != '\\'
    ensures var dq := quote == '"';
            Split(s, i, dq, !dq, cur, words) == Split(s, i + 1, dq, !dq, Add(cur, s[i]), words)
  {}

  lemma QuoteTurns(s: CString, i: nat, quote: char, cur: Option<string>, words: seq<string>)
    requires i < |s| && quote in {'"', '\''} && s[i] == quote
    ensures var dq := quote == '"';
            && Split(s, i, false, false, cur, words) == Split(s, i + 1, dq, !dq, cur, words)
            && Split(s, i, dq, !dq, cur, words) == Split(s, i + 1, false, false, cur, words)
  {}

  lemma {:induction false} InsideReads(s: CString, i: nat, t: string, quote: char, cur: Option<string>,
                                       words: seq<string>)
    requires quote in {'"', '\''} && quote !in t && '\\' !in t && i + |t| <= |s| && s[i..i + |t|] == t
    ensures var dq := quote == '"';
            Split(s, i, dq, !dq, cur, words) == Split(s, i + |t|, dq, !dq, AddAll(cur, t), words)
    decreases |t|
  {
    hide Split;
    if t != "" {
      assert s[i] == s[i..i + |t|][0] == t[0] && t[0] in t;
      Slice(s, i, |t|, 1, |t|);
      assert s[i + 1..i + 1 + |t[1..]|] == t[1..];
      InsideStep(s, i, quote, cur, words);
      InsideReads(s, i + 1, t[1..], quote, Add(cur, t[0]), words);
      AddAllStep(cur, t);
    }
  }

  /** Any other character that is not blank is part of the word, also a bar that nothing follows on. */
  lemma OrdinaryReads(s: CString, i: nat, cur: Option<string>, words: seq<string>)
    requires i < |s| && !Blank(s[i]) && s[i] !in {'#', '"', '\'', '\\'} && !(s[i] == '|' && At(s, i + 1) == '>')
    ensures Split(s, i, false, false, cur, words) ==
              Split(s, i + 1, false, false, Some(if cur.Some? then cur.value + [s[i]] else [s[i]]), words)
  {}

  /** A comment ends the line, and `|>` the segment; the word before is complete. */
  lemma CommentEnds(s: CString, i: nat, cur: Option<string>, words: seq<string>)
    requires i < |s|
    ensures s[i] == '#' ==> Split(s, i, false, false, cur, words) == Segment(Close(words, cur), -1)
    ensures s[i] == '|' && At(s, i + 1) == '>' ==>
              Split(s, i, false, false, cur, words) == Segment(Close(words, cur), i + 2)
    ensures Blank(s[i]) ==>
              Split(s, i, false, false, cur, words) == Split(s, i + 1, false, false, None, Close(words, cur))
  {}

  lemma BlankReads(s: CString, i: nat, cur: Option<string>, words: seq<string>)
    requires i < |s| && s[i] == ' '
    ensures Split(s, i, false, false, cur, words) == Split(s, i + 1, false, false, None, Close(words, cur))
  {}

  lemma FirstWord(w: string)
    ensures AddAll(None, w) == if w == "" then None else Some(w)
  {}

  lemma MoreWords(more: seq<string>)
    ensures more == [] ==> WordsText(more) == ""
    ensures more != [] ==>
              var k, text, rest := |WordText(more[0])|, WordsText(more), WordsText(more[1..]);
              |text| == k + 1 + |rest| && text[0..k] == WordText(more[0]) && text[k] == ' '
              && text[k + 1..|text|] == rest
  {
    hide WordText;
    if more != [] {
      var word, rest := WordText(more[0]), WordsText(more[1..]);
      assert WordsText(more) == word + " " + rest;
    }
  }

  lemma {:induction false} WordsRead(s: CString, i: nat, more: seq<string>, words: seq<string>)
    requires Words(more) && i + |WordsText(more)| <= |s| && s[i..i + |WordsText(more)|] == WordsText(more)
    ensures Split(s, i, false, false, None, words) == Split(s, i + |WordsText(more)|, false, false, None, words + more)
    decreases |more|
  {
    hide Split, AddAll, WordText, WordsText;
    if more == [] {
      MoreWords(more);
      assert words + more == words;
    } else {
      var w, text, rest := more[0], WordsText(more), WordsText(more[1..]);
      var k := |WordText(w)|;
      var next := i + k + 1;
      MoreWords(more);
      Slice(s, i, |text|, 0, k);
      Slice(s, i, |text|, k + 1, |text|);
      assert next + |rest| == i + |text| && s[next..next + |rest|] == rest;
      assert forall x <- more[1..] :: x in more;
      assert s[i + k] == s[i..i + |text|][k] == ' ';
      WordReads(s, i, w, None, words);
      FirstWord(w);
      BlankReads(s, i + k, Some(w), words);
      WordsRead(s, next, more[1..], words + [w]);
      assert words + [w] + more[1..] == words + more;
    }
  }

  lemma SegmentEnds(s: CString, i: nat, words: seq<string>)
    requires i <= |s|
    ensures i == |s| ==> Split(s, i, false, false, None, words) == Segment(words, -1)
    ensures At(s, i) == '|' && At(s, i + 1) == '>' ==> Split(s, i, false, false, None, words) == Segment(words, i + 2)
  {}

  lemma LineSplits(segs: seq<seq<string>>)
    requires segs != []
    ensures LineText(segs) == WordsText(segs[0]) + if |segs| == 1 then "" else "|>" + LineText(segs[1..])
  {
    hide WordsText;
    if |segs| == 1 { assert WordsText(segs[0]) + "" == WordsText(segs[0]); }
  }

  lemma StartsWith(s: string, i: nat, a: string, b: string)
    requires i <= |s| && s[i..] == a + b
    ensures i + |a| <= |s| && s[i..i + |a|] == a && s[i + |a|..] == b
  {
    assert |s| - i == |a| + |b|;
    assert s[i..i + |a|] == s[i..][..|a|] && s[i + |a|..] == s[i..][|a|..];
  }

  /** Any lists of non-empty words can be written as a command line that is cut back into exactly them. */
  lemma {:induction false} LineReads(s: CString, i: nat, segs: seq<seq<string>>)
    requires segs != [] && (forall words <- segs :: Words(words)) && i <= |s| && s[i..] == LineText(segs)
    ensures Segments(s, i) == segs
    decreases |segs|
  {
    hide Split, WordsText, Words, LineText;
    var text := WordsText(segs[0]);
    LineSplits(segs);
    StartsWith(s, i, text, if |segs| == 1 then "" else "|>" + LineText(segs[1..]));
    WordsRead(s, i, segs[0], []);
    assert [] + segs[0] == segs[0];
    SegmentEnds(s, i + |text|, segs[0]);
    if |segs| > 1 {
      StartsWith(s, i + |text|, "|>", LineText(segs[1..]));
      assert s[i + |text|..i + |text| + 2] == "|>";
      assert s[i + |text|] == s[i + |text|..i + |text| + 2][0] && s[i + |text| + 1] == s[i + |text|..i + |text| + 2][1];
      LineReads(s, i + |text| + 2, segs[1..]);
    }
  }
}
