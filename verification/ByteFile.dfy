/** What a stream promises to be: an unbuffered file of bytes with one position. */
module ByteFile {
  import opened Common
  import opened KernelFile

  datatype State = State(content: seq<byte>, pos: nat)

  datatype Op =
    | Getc | Putc(c: byte) | Read(n: nat) | Write(data: seq<byte>)
    | SeekSet(to: int) | SeekCur(delta: int) | SeekEnd(past: int) | Flush | Tell

  datatype Outcome = Got(c: byte) | Data(d: seq<byte>) | At(p: nat) | Done | Failed

  ghost function Put(st: State, d: seq<byte>): State {
    State(Overlay(st.content, st.pos, d), st.pos + |d|)
  }

  ghost function Ahead(st: State, n: nat): seq<byte> {
    if st.pos >= |st.content| then []
    else if st.pos + n <= |st.content| then st.content[st.pos..st.pos + n]
    else st.content[st.pos..]
  }

  ghost function Target(st: State, op: Op): int {
    match op
    case SeekSet(to) => to
    case SeekCur(delta) => st.pos + delta
    case SeekEnd(past) => |st.content| + past
    case _ => st.pos
  }

  /** The operation on a file that always answers in full. */
  ghost function Step(st: State, op: Op): (State, Outcome)
    requires Target(st, op) >= 0
  {
    match op
    case Getc => if st.pos < |st.content| then (st.(pos := st.pos + 1), Got(st.content[st.pos])) else (st, Failed)
    case Putc(c) => (Put(st, [c]), Done)
    case Read(n) => (st.(pos := st.pos + |Ahead(st, n)|), Data(Ahead(st, n)))
    case Write(d) => (Put(st, d), Done)
    case Flush => (st, Done)
    case Tell => (st, At(st.pos))
    case _ => (st.(pos := Target(st, op)), Done)
  }

  ghost function Least(a: int, b: int): int {
    if a < b then a else b
  }

  /** The bytes are the content's, one by one. */
  ghost predicate Gives(st: State, d: seq<byte>) {
    forall k :: 0 <= k < |d| ==> st.pos + k < |st.content| && d[k] == st.content[st.pos + k]
  }

  lemma GivesNone(st: State)
    ensures Gives(st, [])
  {}

  lemma GivesMore(st: State, d: seq<byte>, c: byte)
    requires Gives(st, d) && st.pos + |d| < |st.content| && c == st.content[st.pos + |d|]
    ensures Gives(st, d + [c])
  {}

  /** Such bytes are what is ahead; all of it if there are as many as asked for or they reach the end. */
  lemma GivesAhead(st: State, d: seq<byte>, n: nat)
    requires |d| <= n && Gives(st, d)
    ensures forall k :: 0 <= k < |d| ==> st.pos + k < |st.content| && d[k] == st.content[st.pos + k]
    ensures d == Ahead(st, |d|)
    ensures |d| == n || st.pos + |d| >= |st.content| ==>
              d == Ahead(st, n) && |d| == if st.pos >= |st.content| then 0 else Least(n, |st.content| - st.pos)
  {
    if d != [] {
      assert d[|d| - 1] == st.content[st.pos + (|d| - 1)];
      assert d == st.content[st.pos..st.pos + |d|];
    }
  }

  /** A read gives the bytes from the position on, in their order, as many as there are and were asked for. */
  lemma ReadGives(st: State, n: nat)
    ensures var (st', out) := Step(st, Read(n));
            && out.Data? && st'.content == st.content && st'.pos == st.pos + |out.d|
            && |out.d| == (if st.pos < |st.content| then Least(n, |st.content| - st.pos) else 0)
            && forall k :: 0 <= k < |out.d| ==> out.d[k] == st.content[st.pos + k]
  {}

  /** ... and one that is cut short some of them, from the first on. */
  lemma ReadCutShort(st: State, n: nat, out: Outcome, st': State)
    requires Partial(st, Read(n), out, st')
    ensures out.Data? && |out.d| <= n && st'.content == st.content && st'.pos == st.pos + |out.d|
    ensures forall k :: 0 <= k < |out.d| ==> st.pos + k < |st.content| && out.d[k] == st.content[st.pos + k]
  {}

  /** A write puts its bytes at the position, fills a gap with zeros and leaves all others. */
  lemma WritePuts(st: State, d: seq<byte>)
    ensures var (st', out) := Step(st, Write(d));
            && out == Done && st'.pos == st.pos + |d|
            && |st'.content| == (if d == [] || st'.pos < |st.content| then |st.content| else st'.pos)
            && forall k :: 0 <= k < |st'.content| ==>
                 st'.content[k] ==
                 if st.pos <= k < st.pos + |d| then d[k - st.pos] else if k < |st.content| then st.content[k] else 0
    ensures forall c :: Step(st, Putc(c)) == Step(st, Write([c]))
  {}

  /** What was written is read back after a seek, from wherever one starts counting. */
  lemma ReadBack(st: State, d: seq<byte>)
    ensures var wrote := Step(st, Write(d)).0;
            && Step(Step(wrote, SeekCur(0 - |d|)).0, Read(|d|)) == (wrote, Data(d))
            && Step(Step(wrote, SeekSet(st.pos)).0, Read(|d|)) == (wrote, Data(d))
            && (d != [] && st.pos + |d| >= |st.content| ==>
                  Step(Step(wrote, SeekEnd(0 - |d|)).0, Read(|d|)) == (wrote, Data(d)))
  {
    var wrote := Step(st, Write(d)).0;
    WritePuts(st, d);
    var back := wrote.(pos := st.pos);
    ReadGives(back, |d|);
    assert Step(back, Read(|d|)).1.d == d;
  }

  /** Seeks go where Tell then says, and change nothing else; getting a byte is reading one. */
  lemma SeekTells(st: State, op: Op)
    requires Target(st, op) >= 0
    ensures op.SeekSet? ==> Step(Step(st, op).0, Tell) == (st.(pos := op.to), At(op.to))
    ensures op.SeekCur? ==> Step(Step(st, op).0, Tell) == (st.(pos := st.pos + op.delta), At(st.pos + op.delta))
    ensures op.SeekEnd? ==>
              Step(Step(st, op).0, Tell) == (st.(pos := |st.content| + op.past), At(|st.content| + op.past))
    ensures op.Flush? || op.Tell? ==> Step(st, op).0 == st
    ensures op.Getc? ==>
              Step(st, op) == (if st.pos >= |st.content| then (st, Failed)
                               else (st.(pos := st.pos + 1), Got(st.content[st.pos])))
  {}

  /** What may be seen when the kernel refuses a request half way: never anything but a prefix
      of the operation, and never a wrong byte. */
  ghost predicate Partial(st: State, op: Op, out: Outcome, st': State) {
    match op
    case Putc(c) => out == Failed && st' in {st, Put(st, [c])}
    case Write(d) => out == Failed && exists k :: 0 <= k <= |d| && st' == Put(st, d[..k])
    case Read(n) => exists k :: 0 <= k <= n && out == Data(Ahead(st, k)) && st' == st.(pos := st.pos + |Ahead(st, k)|)
    case SeekEnd(_) =>
      (out == Failed && st' == st) || (out == Done && st'.content == st.content && st'.pos <= Target(st, op))
    case _ => out == Failed && st' == st
  }

  ghost predicate Exact(st: State, op: Op, out: Outcome, st': State) {
    Target(st, op) >= 0 && Step(st, op) == (st', out)
  }

  ghost predicate Explained(st: State, op: Op, out: Outcome, st': State) {
    Exact(st, op, out, st') || Partial(st, op, out, st')
  }

  /** The end of file that counts for SEEK_END is the disk's, `end`, which may be short of bytes still in the buffer. */
  ghost function Goal(st: State, end: int, op: Op): int {
    if op.SeekEnd? then end + op.past else Target(st, op)
  }

  /** One call when the kernel refuses nothing: the operation itself, but for a SEEK_END, which goes by the disk's end
      and so is exact exactly when that is the end of the content. */
  ghost predicate Faultless(st: State, end: nat, op: Op, out: Outcome, st': State) {
    if op.SeekEnd? then
      && out == Done && st'.content == st.content && st'.pos == Goal(st, end, op)
      && (Exact(st, op, out, st') <==> end == |st.content|)
    else Exact(st, op, out, st')
  }

  /** With no fault a SEEK_END comes to the end of the disk's copy and so far past it, and any other call is the
      operation itself. */
  lemma FaultlessIs(st: State, end: nat, op: Op, out: Outcome, st': State)
    requires Faultless(st, end, op, out, st')
    ensures !op.SeekEnd? ==> Target(st, op) >= 0 && Step(st, op) == (st', out)
    ensures op.SeekEnd? ==> out == Done && st' == State(st.content, end + op.past)
    ensures op.SeekEnd? && st'.pos == |st.content| + op.past <==> op.SeekEnd? && end == |st.content|
  {}

  /** Nothing has been put or written since the last flush, or since a start where nothing was in the buffer: what
      a caller can see to be sure of SEEK_END. */
  ghost predicate Settled(ops: seq<Op>, k: nat, start: bool)
    requires k <= |ops|
  {
    if k == 0 then start
    else ops[k - 1].Flush? || (!ops[k - 1].Putc? && !ops[k - 1].Write? && Settled(ops, k - 1, start))
  }

  lemma {:induction false} SettledIs(ops: seq<Op>, k: nat, start: bool)
    requires k <= |ops|
    ensures Settled(ops, k, start) <==>
              || (start && forall i :: 0 <= i < k ==> !ops[i].Putc? && !ops[i].Write?)
              || exists j :: 0 <= j < k && ops[j].Flush? && forall i :: j < i < k ==> !ops[i].Putc? && !ops[i].Write?
  {
    if k > 0 {
      SettledIs(ops, k - 1, start);
    }
  }

  ghost predicate IsSeek(op: Op) {
    op.SeekSet? || op.SeekCur? || op.SeekEnd?
  }

  lemma PutPut(st: State, d: seq<byte>, e: seq<byte>)
    ensures Put(Put(st, d), e) == Put(st, d + e)
  {
    var l, r := Put(Put(st, d), e), Put(st, d + e);
    if |d| > 0 && |e| > 0 {
      assert |l.content| == |r.content|;
      forall i | 0 <= i < |l.content| ensures l.content[i] == r.content[i] {}
    } else if |e| == 0 {
      assert d + e == d;
    } else {
      assert d + e == e;
    }
  }

  lemma PutNothing(st: State)
    ensures Put(st, []) == st
  {}
}
