/** Labels and goto. The interpreter reads a script forwards, remembering where it last saw each label;
    goto moves back to a remembered place, or skips ahead to one not seen yet. */
module Script {
  import opened Common

  const MAXLBLNAM: nat := 64

  /** `pos` is where the label's line starts: line k is at k + 1, and 0 means the input has no positions. */
  datatype Label = Label(name: string, pos: nat)

  function Clip(name: string): string {
    if |name| < MAXLBLNAM then name else name[..MAXLBLNAM - 1]
  }

  /** The colon that makes the text from `p` on a label, if it comes before any blank. */
  function ColonAt(line: CString, q: nat): Option<nat>
    requires q <= |line|
    ensures ColonAt(line, q).Some? ==> q <= ColonAt(line, q).value < |line|
    decreases |line| - q
  {
    if Blank(At(line, q)) then None
    else if line[q] == ':' && Blank(At(line, q + 1)) then Some(q)
    else ColonAt(line, q + 1)
  }

  function LabelOf(line: CString): Option<string> {
    var p := Skip(line, 0);
    match ColonAt(line, p)
    case None => None
    case Some(q) => Some(Clip(line[p..q]))
  }

  /** The label's colon is the first that has a blank behind it, with no blank before it. */
  lemma {:induction false} ColonIs(line: CString, p: nat, q: nat)
    requires p <= q < |line|
    requires line[q] == ':' && Blank(At(line, q + 1)) && forall i :: p <= i < q ==> !Blank(line[i])
    requires forall i :: p <= i < q && line[i] == ':' ==> !Blank(At(line, i + 1))
    ensures ColonAt(line, p) == Some(q)
    decreases q - p
  {
    if p < q { ColonIs(line, p + 1, q); }
  }

  lemma {:induction false} NoColon(line: CString, p: nat)
    requires p <= |line| && ColonAt(line, p).None?
    ensures forall q :: p <= q < |line| && (forall i :: p <= i <= q ==> !Blank(line[i])) ==>
              !(line[q] == ':' && Blank(At(line, q + 1)))
    decreases |line| - p
  {
    if p < |line| && !Blank(line[p]) { NoColon(line, p + 1); }
  }

  /** A line is labelled when its first word, after any blanks, ends in a colon: the rest of the word is the label, cut
      to its longest, and what follows the colon is executed. */
  lemma LabelIs(before: string, name: string, after: string)
    requires '\0' !in before + name + ":" + after && (forall c <- before :: Space(c)) && (forall c <- name :: !Blank(c))
    requires after == "" || Blank(after[0])
    ensures var line: CString := before + name + ":" + after;
            LabelOf(line) == Some(Clip(name)) && BodyOf(line) == |before| + |name| + 1
  {
    var line: CString := before + name + ":" + after;
    var p, q := |before|, |before| + |name|;
    assert line[..p] == before && line[p..q] == name && line[q] == ':';
    assert forall i :: 0 <= i < p ==> line[i] in before;
    assert forall i :: p <= i < q ==> line[i] in name;
    assert after != "" ==> line[q + 1] == after[0];
    SkipIs(line, 0, p);
    ColonIs(line, p, q);
  }

  /** ... and only then. */
  lemma OnlyLabels(line: CString)
    ensures match LabelOf(line)
            case None => BodyOf(line) == Skip(line, 0)
            case Some(name) =>
              exists p: nat, q: nat :: p <= q < |line| && p == Skip(line, 0) && line[q] == ':' && Blank(At(line, q + 1))
                && (forall i :: p <= i < q ==> !Blank(line[i])) && name == Clip(line[p..q]) && BodyOf(line) == q + 1
  {
    var p := Skip(line, 0);
    if ColonAt(line, p).Some? { ColonFound(line, p); }
  }

  lemma {:induction false} ColonFound(line: CString, p: nat)
    requires p <= |line| && ColonAt(line, p).Some?
    ensures var q := ColonAt(line, p).value;
            p <= q < |line| && line[q] == ':' && Blank(At(line, q + 1)) && forall i :: p <= i < q ==> !Blank(line[i])
    decreases |line| - p
  {
    if !(line[p] == ':' && Blank(At(line, p + 1))) { ColonFound(line, p + 1); }
  }

  /** A label is kept whole up to 63 characters. */
  lemma ClipIs(name: string)
    ensures |Clip(name)| == (if |name| < 63 then |name| else 63) && Clip(name) <= name
  {}

  predicate Labelled(lines: seq<CString>, k: nat, name: string) {
    k < |lines| && LabelOf(lines[k]) == Some(name)
  }

  /** The line of the last definition of a label among those scanned, in scanning order. */
  function LastDef(lines: seq<CString>, scanned: seq<nat>, name: string): Option<nat> {
    if scanned == [] then None
    else if Labelled(lines, scanned[|scanned| - 1], name) then Some(scanned[|scanned| - 1])
    else LastDef(lines, scanned[..|scanned| - 1], name)
  }

  /** The first line from `k` on that defines a label. */
  function FirstDef(lines: seq<CString>, k: nat, name: string): Option<nat>
    ensures FirstDef(lines, k, name).Some? ==> k <= FirstDef(lines, k, name).value < |lines|
    decreases |lines| - k
  {
    if k >= |lines| then None
    else if Labelled(lines, k, name) then Some(k)
    else FirstDef(lines, k + 1, name)
  }

  /** With a line, all before it are among those scanned. */
  ghost predicate IsBeginning(scanned: seq<nat>) {
    forall i: nat, k: nat :: k in scanned && i < k ==> i in scanned
  }

  lemma BeginningSnoc(scanned: seq<nat>, next: nat, k: nat)
    requires IsBeginning(scanned) && (k == next || k in scanned) && forall i: nat :: i < next ==> i in scanned
    ensures IsBeginning(scanned + [k])
  {}

  /** A label not seen so far is defined first where it is defined first among the lines not scanned. */
  lemma {:induction false} FirstDefLater(lines: seq<CString>, scanned: seq<nat>, k: nat, m: nat, name: string)
    requires LastDef(lines, scanned, name).None? && k <= m && forall i: nat :: i < m ==> i in scanned
    ensures FirstDef(lines, k, name) == FirstDef(lines, m, name)
    decreases m - k
  {
    if k < m {
      NotLabelled(lines, scanned, k, name);
      FirstDefLater(lines, scanned, k + 1, m, name);
    }
  }

  lemma {:induction false} NotLabelled(lines: seq<CString>, scanned: seq<nat>, k: nat, name: string)
    requires LastDef(lines, scanned, name).None? && k in scanned
    ensures !Labelled(lines, k, name)
  {
    if k != scanned[|scanned| - 1] { NotLabelled(lines, scanned[..|scanned| - 1], k, name); }
  }

  /** The first definition is one with none before it; and there is none only if no line is one. */
  lemma {:induction false} FirstDefIs(lines: seq<CString>, k: nat, name: string)
    ensures match FirstDef(lines, k, name)
            case None => forall i :: k <= i < |lines| ==> LabelOf(lines[i]) != Some(name)
            case Some(m) =>
              k <= m < |lines| && LabelOf(lines[m]) == Some(name)
              && forall i :: k <= i < m ==> LabelOf(lines[i]) != Some(name)
    decreases |lines| - k
  {
    if k < |lines| && !Labelled(lines, k, name) { FirstDefIs(lines, k + 1, name); }
  }

  /** The last definition is the one scanned last. */
  lemma {:induction false} LastDefIs(lines: seq<CString>, scanned: seq<nat>, name: string)
    ensures match LastDef(lines, scanned, name)
            case None =>
              forall i :: 0 <= i < |scanned| && scanned[i] < |lines| ==> LabelOf(lines[scanned[i]]) != Some(name)
            case Some(m) =>
              exists i :: 0 <= i < |scanned| && scanned[i] == m < |lines| && LabelOf(lines[m]) == Some(name)
                && forall j :: i < j < |scanned| && scanned[j] < |lines| ==> LabelOf(lines[scanned[j]]) != Some(name)
  {
    hide LabelOf;
    if scanned != [] && !Labelled(lines, scanned[|scanned| - 1], name) {
      var n := |scanned| - 1;
      LastDefIs(lines, scanned[..n], name);
      assert forall i :: 0 <= i < n ==> scanned[..n][i] == scanned[i];
    }
  }

  lemma LastDefSnoc(lines: seq<CString>, scanned: seq<nat>, k: nat, name: string)
    ensures LastDef(lines, scanned + [k], name) ==
            if Labelled(lines, k, name) then Some(k) else LastDef(lines, scanned, name)
  {
    assert (scanned + [k])[..|scanned|] == scanned;
  }

  /** The position listed for a label. */
  function Lookup(labels: seq<Label>, name: string): Option<nat> {
    if labels == [] then None
    else if labels[0].name == name then Some(labels[0].pos)
    else Lookup(labels[1..], name)
  }

  lemma {:induction false} LookupAt(labels: seq<Label>, i: nat, name: string)
    requires i <= |labels| && forall j :: 0 <= j < i ==> labels[j].name != name
    ensures Lookup(labels, name) ==
            if i < |labels| && labels[i].name == name then Some(labels[i].pos) else Lookup(labels[i..], name)
    decreases i
  {
    if i == 0 {
      assert labels[0..] == labels;
    } else {
      LookupAt(labels[1..], i - 1, name);
      assert labels[1..][i - 1..] == labels[i..];
    }
  }

  lemma {:induction false} LookupUpdated(labels: seq<Label>, i: nat, name: string, pos: nat, other: string)
    requires i < |labels| && labels[i].name == name && forall j :: 0 <= j < i ==> labels[j].name != name
    ensures Lookup(labels[i := Label(name, pos)], other) == if other == name then Some(pos) else Lookup(labels, other)
    decreases i
  {
    var now := labels[i := Label(name, pos)];
    if i == 0 {
      assert now[1..] == labels[1..];
    } else {
      LookupUpdated(labels[1..], i - 1, name, pos, other);
      assert now[1..] == labels[1..][i - 1 := Label(name, pos)];
    }
  }

  function Position(k: Option<nat>, positions: bool): Option<nat> {
    match k
    case None => None
    case Some(k) => Some(if positions then k + 1 else 0)
  }

  function BodyOf(line: CString): nat {
    match ColonAt(line, Skip(line, 0))
    case None => Skip(line, 0)
    case Some(q) => q + 1
  }

  /** The list gives every label scanned so far the line that defined it last, and no other label. */
  ghost predicate Lists(labels: seq<Label>, lines: seq<CString>, scanned: seq<nat>, positions: bool) {
    forall name :: Lookup(labels, name) == Position(LastDef(lines, scanned, name), positions)
  }

  lemma ListsSnoc(was: seq<Label>, labels: seq<Label>, lines: seq<CString>, scanned: seq<nat>, positions: bool, k: nat)
    requires Lists(was, lines, scanned, positions) && k < |lines|
    requires match LabelOf(lines[k])
             case None => labels == was
             case Some(name) => forall other :: Lookup(labels, other) ==
                                  if other == name then Position(Some(k), positions) else Lookup(was, other)
    ensures Lists(labels, lines, scanned + [k], positions)
  {
    hide LastDef, Lookup, LabelOf;
    forall name ensures Lookup(labels, name) == Position(LastDef(lines, scanned + [k], name), positions) {
      LastDefSnoc(lines, scanned, k, name);
    }
  }

  class Interpreter {
    const lines: seq<CString>
    /** Whether the input says where its records are. */
    const positions: bool
    var next: nat
    var at: nat
    var skiplabel: string
    var labels: seq<Label>
    ghost var scanned: seq<nat>

    /** What has been scanned is a beginning of the script, wherever reading has gone on. */
    ghost predicate Valid()
      reads this
    {
      && next <= |lines| && at <= |lines| && (!positions ==> at == 0)
      && Lists(labels, lines, scanned, positions)
      && IsBeginning(scanned) && (forall k: nat :: k < next ==> k in scanned) && (at > 0 ==> at - 1 in scanned)
    }

    constructor (lines: seq<CString>, positions: bool)
      ensures Valid() && this.lines == lines && this.positions == positions
      ensures next == 0 && at == 0 && skiplabel == "" && scanned == []
    {
      this.lines, this.positions := lines, positions;
      next, at, skiplabel, labels, scanned := 0, 0, "", [], [];
    }

    method FindLabel(name: string) returns (i: nat)
      ensures i <= |labels| && (forall j :: 0 <= j < i ==> labels[j].name != name)
      ensures i < |labels| ==> labels[i].name == name
      ensures Lookup(labels, name) == if i < |labels| then Some(labels[i].pos) else None
    {
      i := 0;
      while i < |labels| && labels[i].name != name
        invariant i <= |labels| && forall j :: 0 <= j < i ==> labels[j].name != name
      {
        i := i + 1;
      }
      LookupAt(labels, i, name);
    }

    /** Enters or moves a label. */
    method NoteLabel(name: string, pos: nat)
      modifies this`labels
      ensures forall other :: Lookup(labels, other) == if other == name then Some(pos) else old(Lookup(labels, other))
    {
      var i := FindLabel(name);
      ghost var was := labels;
      if i == |labels| {
        labels := [Label(name, pos)] + labels;
        assert labels[1..] == was;
      } else {
        forall other { LookupUpdated(was, i, name, pos, other); }
        labels := labels[i := Label(name, pos)];
      }
    }

    /** proclabels: notes the label a line starts with, and stops skipping if it is the one looked for.
        `pos` is where the line was read from. */
    method ProcLabels(k: nat, pos: nat) returns (body: nat)
      requires Valid() && k < |lines| && pos == if positions then k + 1 else 0
      requires k == next || k in scanned
      modifies this`labels, this`skiplabel, this`scanned
      ensures Valid() && scanned == old(scanned) + [k]
      ensures skiplabel == if Labelled(lines, k, old(skiplabel)) then "" else old(skiplabel)
      ensures body == BodyOf(lines[k])
    {
      hide IsBeginning, LastDef, Lists, Lookup;
      BeginningSnoc(scanned, next, k);
      ghost var was := labels;
      var p, q := FindColon(lines[k]);
      if q.Some? {
        var name := Clip(lines[k][p..q.value]);
        NoteLabel(name, pos);
        if skiplabel != "" && skiplabel == name { skiplabel := ""; }
      }
      ListsSnoc(was, labels, lines, scanned, positions, k);
      scanned := scanned + [k];
      body := if q.Some? then q.value + 1 else p;
    }

    /** Where a line's text starts, and the colon of its label if it has one. */
    method FindColon(line: CString) returns (p: nat, q: Option<nat>)
      ensures p == Skip(line, 0) && q == ColonAt(line, p)
    {
      p := 0;
      while p < |line| && Space(line[p])
        invariant p <= |line| && Skip(line, p) == Skip(line, 0)
      {
        p := p + 1;
      }
      var i := p;
      while !Blank(At(line, i))
        invariant p <= i <= |line| && ColonAt(line, p) == ColonAt(line, i)
        decreases |line| - i
      {
        if line[i] == ':' && Blank(At(line, i + 1)) { return p, Some(i); }
        i := i + 1;
      }
      q := None;
    }

    /** The goto command. The next line executed is the latest definition scanned of the label, if there is
        one and the input has positions; else the next definition further on; else the script ends. The
        empty label alone is not skipped to; it leaves an earlier goto of the same line in force. */
    method Goto(target: string)
      requires Valid()
      modifies this`skiplabel, this`at
      ensures Valid() && skiplabel == Clip(target)
      ensures var k := LastDef(lines, scanned, Clip(target));
              at == if k.Some? && positions then k.value + 1 else if k.Some? then 0 else old(at)
      ensures var k := LastDef(lines, scanned, Clip(target));
              NextLine() == if k.Some? && positions then k
                            else if Clip(target) != "" then FirstDef(lines, next, Clip(target))
                            else if old(at) > 0 then Some(old(at) - 1)
                            else if next < |lines| then Some(next) else None
    {
      LastDefLabelled(lines, scanned, Clip(target));
      skiplabel := Clip(target);
      var i := FindLabel(skiplabel);
      if i < |labels| {
        at := labels[i].pos;
      } else if at > 0 {
        NotLabelled(lines, scanned, at - 1, skiplabel);
        FirstDefLater(lines, scanned, if at < next then at else next, if at < next then next else at, skiplabel);
      }
    }

    /** The line the main loop executes next; None when the script runs out first. */
    ghost function NextLine(): Option<nat>
      reads this
    {
      if skiplabel == "" then
        if at > 0 then Some(at - 1) else if next < |lines| then Some(next) else None
      else if at > 0 && Labelled(lines, at - 1, skiplabel) then Some(at - 1)
      else FirstDef(lines, if at > 0 then at else next, skiplabel)
    }

    /** The main loop, up to the next line it executes. */
    method ReadNext() returns (k: nat, body: nat, eof: bool)
      requires Valid()
      modifies this
      ensures Valid() && at == 0
      ensures eof <==> old(NextLine()) == None
      ensures !eof ==> old(NextLine()) == Some(k) && k < |lines| && body == BodyOf(lines[k])
      ensures !eof ==> next == k + 1 && skiplabel == ""
      ensures eof ==> next == |lines| && skiplabel == old(skiplabel)
      ensures old(scanned) <= scanned
    {
      ghost var answer := NextLine();
      while true
        invariant Valid() && old(scanned) <= scanned && NextLine() == answer && skiplabel == old(skiplabel)
        decreases at > 0, |lines| - next
      {
        k := if at > 0 then at - 1 else next;
        at := 0;
        if k >= |lines| { return k, 0, true; }
        body := ProcLabels(k, if positions then k + 1 else 0);
        next := k + 1;
        if skiplabel == "" { return k, body, false; }
      }
    }
  }

  lemma {:induction false} LastDefLabelled(lines: seq<CString>, scanned: seq<nat>, name: string)
    ensures var k := LastDef(lines, scanned, name);
            k.Some? ==> k.value < |lines| && Labelled(lines, k.value, name) && k.value in scanned
  {
    if scanned != [] && !Labelled(lines, scanned[|scanned| - 1], name) {
      LastDefLabelled(lines, scanned[..|scanned| - 1], name);
    }
  }
}
