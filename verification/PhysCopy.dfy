/** Copies between virtual buffers and scattered physical pages, a piece of a page at a time, through a
    temporary mapping. */
module PhysCopy {
  import opened Common

  const P: nat := 8192

  /** The physical address of byte `k` of the range that starts `offs` bytes into the first of `pages`. */
  function Loc(pages: seq<nat>, offs: nat, k: nat): nat
    requires (offs + k) / P < |pages|
  {
    pages[(offs + k) / P] * P + (offs + k) % P
  }

  /** The pages are there for `n` bytes, in a memory of `size` bytes. */
  ghost predicate Covers(pages: seq<nat>, offs: nat, n: nat, size: nat) {
    && (n > 0 ==> (offs + n - 1) / P < |pages|)
    && (forall i :: 0 <= i < |pages| ==> (pages[i] + 1) * P <= size)
  }

  ghost predicate InRange(pages: seq<nat>, offs: nat, n: nat, a: nat) {
    exists k :: 0 <= k < n && (offs + k) / P < |pages| && Loc(pages, offs, k) == a
  }

  lemma LocInjective(pages: seq<nat>, offs: nat, k: nat, m: nat)
    requires Distinct(pages) && (offs + k) / P < |pages| && (offs + m) / P < |pages|
    requires Loc(pages, offs, k) == Loc(pages, offs, m)
    ensures k == m
  {}

  /** The `n` bytes of the range, in order. */
  ghost function Gather(m: seq<byte>, pages: seq<nat>, offs: nat, n: nat): (r: seq<byte>)
    requires Covers(pages, offs, n, |m|)
    ensures |r| == n
  {
    seq(n, k requires 0 <= k < n => LocBelow(pages, offs, n, k, |m|); m[Loc(pages, offs, k)])
  }

  /** On pages that follow one another the range is a stretch of memory. */
  lemma GatherIsSlice(m: seq<byte>, pages: seq<nat>, offs: nat, n: nat, first: nat)
    requires Covers(pages, offs, n, |m|) && forall i :: 0 <= i < |pages| ==> pages[i] == first + i
    ensures var start := first * P + offs;
            n > 0 ==> start + n <= |m| && Gather(m, pages, offs, n) == m[start..start + n]
  {
    if n > 0 {
      LocBelow(pages, offs, n, n - 1, |m|);
      forall k | 0 <= k < n
        ensures (offs + k) / P < |pages| && Loc(pages, offs, k) == first * P + offs + k
      {
        LocBelow(pages, offs, n, k, |m|);
      }
    }
  }

  lemma LocBelow(pages: seq<nat>, offs: nat, n: nat, k: nat, size: nat)
    requires k < n && Covers(pages, offs, n, size)
    ensures (offs + k) / P < |pages| && Loc(pages, offs, k) < size
  {
    assert (offs + k) / P <= (offs + n - 1) / P;
    assert (pages[(offs + k) / P] + 1) * P <= size;
  }

  /** The first `done` bytes of the range are those of `data`, and nothing outside of them differs from `m0`. */
  ghost predicate Written(m0: seq<byte>, m: seq<byte>, pages: seq<nat>, offs: nat, done: nat, data: seq<byte>) {
    && |m| == |m0| && done <= |data| && Covers(pages, offs, |data|, |m|)
    && (Distinct(pages) ==> Gather(m, pages, offs, |data|)[..done] == data[..done])
    && (forall a :: 0 <= a < |m| && !InRange(pages, offs, done, a) ==> m[a] == m0[a])
  }

  /** A piece of one page is a stretch of memory: writing it there writes that much more of the range. */
  lemma WritePiece(m0: seq<byte>, m: seq<byte>, m': seq<byte>, pages: seq<nat>, offs: nat, done: nat, length: nat,
                   data: seq<byte>)
    requires Written(m0, m, pages, offs, done, data) && length > 0 && done + length <= |data|
    requires (offs + done) % P + length <= P && (offs + done) / P < |pages|
    requires var base := Loc(pages, offs, done);
             base + length <= |m| && m' == m[..base] + data[done..done + length] + m[base + length..]
    ensures Written(m0, m', pages, offs, done + length, data)
  {
    hide Gather, Distinct, InRange;
    ghost var base, upto := Loc(pages, offs, done), done + length;
    Stretch(pages, offs, done, upto);
    forall a | 0 <= a < |m| && !InRange(pages, offs, upto, a) ensures m'[a] == m0[a] {
      if InRange(pages, offs, done, a) { Wider(pages, offs, done, upto, a); }
    }
    if Distinct(pages) {
      ghost var was, now := Gather(m, pages, offs, |data|), Gather(m', pages, offs, |data|);
      forall k | 0 <= k < upto ensures now[k] == data[k] {
        WrittenAt(m, m', pages, offs, done, length, data, k);
      }
      assert now[..upto] == data[..upto];
    }
  }

  lemma WrittenAt(m: seq<byte>, m': seq<byte>, pages: seq<nat>, offs: nat, done: nat, length: nat, data: seq<byte>,
                  k: nat)
    requires |m| == |m'| && length > 0 && k < done + length <= |data| && Covers(pages, offs, |data|, |m|)
    requires Distinct(pages)
    requires Gather(m, pages, offs, |data|)[..done] == data[..done]
    requires (offs + done) % P + length <= P && (offs + done) / P < |pages|
    requires var base := Loc(pages, offs, done);
             base + length <= |m| && m' == m[..base] + data[done..done + length] + m[base + length..]
    ensures Gather(m', pages, offs, |data|)[k] == data[k]
  {
    hide Gather, InRange, Covers, Distinct;
    GatherAt(m, pages, offs, |data|, k);
    GatherAt(m', pages, offs, |data|, k);
    Stretch(pages, offs, done, done + length);
    if k < done {
      ghost var a, base := Loc(pages, offs, k), Loc(pages, offs, done);
      if base <= a < base + length { LocInjective(pages, offs, k, done + a - base); }
      assert Gather(m, pages, offs, |data|)[..done][k] == data[..done][k];
    }
  }

  lemma GatherAt(m: seq<byte>, pages: seq<nat>, offs: nat, n: nat, k: nat)
    requires k < n && Covers(pages, offs, n, |m|)
    ensures (offs + k) / P < |pages| && Loc(pages, offs, k) < |m|
    ensures Gather(m, pages, offs, n)[k] == m[Loc(pages, offs, k)]
  {
    LocBelow(pages, offs, n, k, |m|);
  }

  lemma Wider(pages: seq<nat>, offs: nat, n: nat, n': nat, a: nat)
    requires n <= n' && InRange(pages, offs, n, a)
    ensures InRange(pages, offs, n', a)
  {}

  lemma Stretch(pages: seq<nat>, offs: nat, done: nat, upto: nat)
    requires done < upto && (offs + done) / P < |pages| && (offs + done) % P + upto - done <= P
    ensures forall k :: done <= k < upto ==>
              (offs + k) / P < |pages| && Loc(pages, offs, k) == Loc(pages, offs, done) + k - done
    ensures forall a {:trigger InRange(pages, offs, upto, a)} ::
              Loc(pages, offs, done) <= a < Loc(pages, offs, done) + upto - done ==> InRange(pages, offs, upto, a)
  {
    forall k | done <= k < upto
      ensures (offs + k) / P < |pages| && Loc(pages, offs, k) == Loc(pages, offs, done) + k - done
    {
      assert (offs + k) / P == (offs + done) / P && (offs + k) % P == (offs + done) % P + k - done;
    }
    ghost var base := Loc(pages, offs, done);
    forall a {:trigger InRange(pages, offs, upto, a)} | base <= a < base + upto - done
      ensures InRange(pages, offs, upto, a)
    {
      assert Loc(pages, offs, done + a - base) == a;
    }
  }

  /** The next byte to copy is in the page the cursor has come to, at the offset that is left of it. */
  lemma Cursor(offs: nat, done: nat, page: nat, over: nat)
    requires page * P + over == offs + done
    ensures page + over / P == (offs + done) / P && over % P == (offs + done) % P
  {
    assert offs + done == (page + over / P) * P + over % P;
  }

  /** A piece of one page lies within memory. */
  lemma PieceFits(pages: seq<nat>, offs: nat, n: nat, size: nat, done: nat, length: nat)
    requires Covers(pages, offs, n, size) && done < n && (offs + done) % P + length <= P
    ensures (offs + done) / P < |pages| && Loc(pages, offs, done) + length <= size
  {
    LocBelow(pages, offs, n, done, size);
    assert (pages[(offs + done) / P] + 1) * P <= size;
  }

  /** The bytes of a piece of one page follow each other. */
  lemma GatherPiece(m: seq<byte>, pages: seq<nat>, offs: nat, n: nat, done: nat, length: nat)
    requires Covers(pages, offs, n, |m|) && length > 0 && done + length <= n && (offs + done) % P + length <= P
    ensures (offs + done) / P < |pages| && Loc(pages, offs, done) + length <= |m|
    ensures m[Loc(pages, offs, done)..Loc(pages, offs, done) + length] == Gather(m, pages, offs, n)[done..done + length]
  {
    hide Gather, Covers;
    PieceFits(pages, offs, n, |m|, done, length);
    Stretch(pages, offs, done, done + length);
    ghost var base := Loc(pages, offs, done);
    ghost var here, there := m[base..base + length], Gather(m, pages, offs, n)[done..done + length];
    forall i | 0 <= i < length ensures here[i] == there[i] {
      GatherAt(m, pages, offs, n, done + i);
    }
  }

  /** The two ranges have no byte in common. */
  ghost predicate Apart(n: nat, src: seq<nat>, srcOffs: nat, dst: seq<nat>, dstOffs: nat) {
    forall a :: !(InRange(src, srcOffs, n, a) && InRange(dst, dstOffs, n, a))
  }

  class Cpu {
    /** Physical memory, page after page. */
    const mem: array<byte>
    /** The physical pages the two temporary virtual pages are mapped to. */
    var temp0: nat
    var temp1: nat

    constructor (mem: array<byte>)
      ensures this.mem == mem
    {
      this.mem := mem;
    }

    /** memcpy into the page mapped at `page`. */
    method CopyIn(page: nat, offs: nat, data: seq<byte>)
      requires page * P + offs + |data| <= mem.Length
      modifies mem
      ensures mem[..] == old(mem[..page * P + offs]) + data + old(mem[page * P + offs + |data|..])
    {
      forall i | 0 <= i < |data| { mem[page * P + offs + i] := data[i]; }
    }

    /** memcpy out of the page mapped at `page`. */
    method CopyOut(page: nat, offs: nat, virt: array<byte>, to: nat, length: nat)
      requires virt != mem && page * P + offs + length <= mem.Length && to + length <= virt.Length
      modifies virt
      ensures virt[..] == old(virt[..to]) + mem[page * P + offs..page * P + offs + length] + old(virt[to + length..])
    {
      forall i | 0 <= i < length { virt[to + i] := mem[page * P + offs + i]; }
    }

    /** Turns an offset past the end of a page into an offset within a later one. */
    static method Normalize(page: nat, over: nat, ghost offs: nat, ghost done: nat) returns (page': nat, over': nat)
      requires page * P + over == offs + done
      ensures page' == (offs + done) / P && over' == (offs + done) % P < P && page' * P + over' == offs + done
    {
      Cursor(offs, done, page, over);
      page', over' := page + over / P, over % P;
    }

    /** oz_hw_phys_movefromvirt. */
    method MoveFromVirt(nbytes: nat, virt: array<byte>, vaddr: nat, phypages: seq<nat>, byteoffs: nat)
      requires virt != mem && vaddr + nbytes <= virt.Length && Covers(phypages, byteoffs, nbytes, mem.Length)
      modifies mem, this`temp0
      ensures temp0 == old(temp0)
      ensures Distinct(phypages) ==> Gather(mem[..], phypages, byteoffs, nbytes) == virt[vaddr..vaddr + nbytes]
      ensures forall a :: 0 <= a < mem.Length && !InRange(phypages, byteoffs, nbytes, a) ==> mem[a] == old(mem[a])
    {
      hide Gather, Covers, InRange, Distinct, Written;
      var save := temp0;
      var left: nat, page: nat, offs: nat, from: nat := nbytes, 0, byteoffs, vaddr;
      ghost var done: nat, m0, data := 0, mem[..], virt[vaddr..vaddr + nbytes];
      WrittenNone(m0, phypages, byteoffs, data);
      while left > 0
        invariant left <= nbytes && done == nbytes - left && from == vaddr + done && page * P + offs == byteoffs + done
        invariant Written(m0, mem[..], phypages, byteoffs, done, data)
      {
        page, offs := Normalize(page, offs, byteoffs, done);
        var length := P - offs;
        if length > left { length := left; }
        PieceFits(phypages, byteoffs, nbytes, mem.Length, done, length);
        temp0 := phypages[page];
        ghost var m := mem[..];
        CopyIn(temp0, offs, virt[from..from + length]);
        Slice(virt[..], vaddr, nbytes, done, done + length);
        WritePiece(m0, m, mem[..], phypages, byteoffs, done, length, data);
        left, from, offs, done := left - length, from + length, offs + length, done + length;
      }
      temp0 := save;
      WrittenAll(m0, mem[..], phypages, byteoffs, data);
    }

    /** One turn of the copy to a buffer: as much as is left of the page. */
    method TakePiece(ghost n: nat, virt: array<byte>, ghost vaddr: nat, to: nat, phypages: seq<nat>,
                     ghost byteoffs: nat, page: nat, offs: nat, left: nat, ghost was: seq<byte>, ghost done: nat)
      returns (length: nat)
      requires virt != mem && vaddr + n <= virt.Length && Covers(phypages, byteoffs, n, mem.Length)
      requires 0 < left && left + done == n && to == vaddr + done
      requires page == (byteoffs + done) / P && offs == (byteoffs + done) % P
      requires Spliced(was, virt[..], vaddr, done, Gather(mem[..], phypages, byteoffs, n))
      modifies virt, this`temp0
      ensures 0 < length <= left
      ensures Spliced(was, virt[..], vaddr, done + length, Gather(mem[..], phypages, byteoffs, n))
    {
      hide Gather, Covers, Spliced;
      length := P - offs;
      if length > left { length := left; }
      PieceFits(phypages, byteoffs, n, mem.Length, done, length);
      GatherPiece(mem[..], phypages, byteoffs, n, done, length);
      temp0 := phypages[page];
      ghost var base, before := Loc(phypages, byteoffs, done), virt[..];
      CopyOut(temp0, offs, virt, to, length);
      ghost var data := Gather(mem[..], phypages, byteoffs, n);
      SplicePiece(was, before, virt[..], vaddr, done, length, data, mem[..][base..base + length]);
    }

    /** oz_hw_phys_movetovirt. */
    method MoveToVirt(nbytes: nat, virt: array<byte>, vaddr: nat, phypages: seq<nat>, byteoffs: nat)
      requires virt != mem && vaddr + nbytes <= virt.Length && Covers(phypages, byteoffs, nbytes, mem.Length)
      modifies virt, this`temp0
      ensures temp0 == old(temp0)
      ensures virt[..] == old(virt[..vaddr]) + Gather(mem[..], phypages, byteoffs, nbytes) + old(virt[vaddr + nbytes..])
    {
      hide Gather, Covers, Spliced;
      var save := temp0;
      var left: nat, page: nat, offs: nat, to: nat := nbytes, 0, byteoffs, vaddr;
      ghost var done: nat, was, data := 0, virt[..], Gather(mem[..], phypages, byteoffs, nbytes);
      SpliceNone(was, vaddr, data);
      while left > 0
        invariant left <= nbytes && done == nbytes - left && to == vaddr + done && page * P + offs == byteoffs + done
        invariant Spliced(was, virt[..], vaddr, done, data)
      {
        page, offs := Normalize(page, offs, byteoffs, done);
        var length := TakePiece(nbytes, virt, vaddr, to, phypages, byteoffs, page, offs, left, was, done);
        left, to, offs, done := left - length, to + length, offs + length, done + length;
      }
      temp0 := save;
      SpliceAll(was, virt[..], vaddr, data);
    }

    /** What is moved out to scattered pages and back again is what it was. */
    method OutAndBack(nbytes: nat, virt: array<byte>, back: array<byte>, phypages: seq<nat>, byteoffs: nat)
      requires virt != mem && back != mem && virt != back && nbytes <= virt.Length && nbytes == back.Length
      requires Covers(phypages, byteoffs, nbytes, mem.Length) && Distinct(phypages)
      modifies mem, back, this`temp0
      ensures back[..] == virt[..nbytes] && temp0 == old(temp0)
    {
      hide Gather, Covers, Distinct;
      MoveFromVirt(nbytes, virt, 0, phypages, byteoffs);
      MoveToVirt(nbytes, back, 0, phypages, byteoffs);
    }

    /** One turn of the copy between physical pages: as much as is left of both pages. */
    method MovePiece(ghost n: nat, src: seq<nat>, ghost srcOffs: nat, spage: nat, soffs: nat, dst: seq<nat>,
                     ghost dstOffs: nat, dpage: nat, doffs: nat, left: nat, ghost m0: seq<byte>, ghost done: nat,
                     ghost written: seq<byte>)
      returns (length: nat, ghost next: seq<byte>)
      requires Covers(src, srcOffs, n, mem.Length) && Covers(dst, dstOffs, n, mem.Length) && |m0| == mem.Length
      requires 0 < left && left + done == n == |written| && Written(m0, mem[..], dst, dstOffs, done, written)
      requires spage == (srcOffs + done) / P && soffs == (srcOffs + done) % P
      requires dpage == (dstOffs + done) / P && doffs == (dstOffs + done) % P
      modifies mem, this`temp0, this`temp1
      ensures 0 < length <= left && |next| == n && Written(m0, mem[..], dst, dstOffs, done + length, next)
      ensures Apart(n, src, srcOffs, dst, dstOffs) && written == Gather(m0, src, srcOffs, n) ==>
                next == Gather(m0, src, srcOffs, n)
    {
      hide Gather, Covers, InRange, Apart, Distinct, Written;
      length := P - soffs;
      if length > P - doffs { length := P - doffs; }
      if length > left { length := left; }
      PieceFits(src, srcOffs, n, mem.Length, done, length);
      PieceFits(dst, dstOffs, n, mem.Length, done, length);
      temp0, temp1 := src[spage], dst[dpage];
      ghost var m := mem[..];
      var piece := mem[temp0 * P + soffs..temp0 * P + soffs + length];
      CopyIn(temp1, doffs, piece);
      next := NextWritten(m0, m, mem[..], n, src, srcOffs, dst, dstOffs, done, length, written, piece);
    }

    /** oz_hw_phys_movephys. */
    method MovePhys(nbytes: nat, src: seq<nat>, srcOffs: nat, dst: seq<nat>, dstOffs: nat)
      requires Covers(src, srcOffs, nbytes, mem.Length) && Covers(dst, dstOffs, nbytes, mem.Length)
      modifies mem, this`temp0, this`temp1
      ensures temp0 == old(temp0) && temp1 == old(temp1)
      ensures Distinct(dst) && Apart(nbytes, src, srcOffs, dst, dstOffs) ==>
                Gather(mem[..], dst, dstOffs, nbytes) == old(Gather(mem[..], src, srcOffs, nbytes))
      ensures forall a :: 0 <= a < mem.Length && !InRange(dst, dstOffs, nbytes, a) ==> mem[a] == old(mem[a])
    {
      hide Gather, Covers, InRange, Apart, Distinct, Written;
      var save0, save1 := temp0, temp1;
      var left: nat, spage: nat, soffs: nat, dpage: nat, doffs: nat := nbytes, 0, srcOffs, 0, dstOffs;
      ghost var done: nat, m0, data := 0, mem[..], Gather(mem[..], src, srcOffs, nbytes);
      WrittenNone(m0, dst, dstOffs, data);
      ghost var written := data;
      while left > 0
        invariant left <= nbytes && done == nbytes - left
        invariant spage * P + soffs == srcOffs + done && dpage * P + doffs == dstOffs + done
        invariant |written| == nbytes && Written(m0, mem[..], dst, dstOffs, done, written)
        invariant Apart(nbytes, src, srcOffs, dst, dstOffs) ==> written == data
      {
        spage, soffs := Normalize(spage, soffs, srcOffs, done);
        dpage, doffs := Normalize(dpage, doffs, dstOffs, done);
        var length;
        length, written :=
          MovePiece(nbytes, src, srcOffs, spage, soffs, dst, dstOffs, dpage, doffs, left, m0, done, written);
        left, soffs, doffs, done := left - length, soffs + length, doffs + length, done + length;
      }
      temp0, temp1 := save0, save1;
      WrittenAll(m0, mem[..], dst, dstOffs, written);
    }
  }

  /** The bytes from `start` on are now the first `done` of `data`; all others are as they were. */
  ghost predicate Spliced(was: seq<byte>, now: seq<byte>, start: nat, done: nat, data: seq<byte>) {
    && done <= |data| && start + |data| <= |was|
    && now == was[..start] + data[..done] + was[start + done..]
  }

  lemma SplicePiece(was: seq<byte>, before: seq<byte>, after: seq<byte>, start: nat, done: nat, length: nat,
                    data: seq<byte>, piece: seq<byte>)
    requires Spliced(was, before, start, done, data) && done + length <= |data| && piece == data[done..done + length]
    requires after == before[..start + done] + piece + before[start + done + length..]
    ensures Spliced(was, after, start, done + length, data)
  {
    assert before[..start + done] == was[..start] + data[..done];
    assert before[start + done + length..] == was[start + done + length..];
  }

  lemma SpliceNone(was: seq<byte>, start: nat, data: seq<byte>)
    requires start + |data| <= |was|
    ensures Spliced(was, was, start, 0, data)
  {}

  lemma SpliceAll(was: seq<byte>, now: seq<byte>, start: nat, data: seq<byte>)
    requires Spliced(was, now, start, |data|, data)
    ensures start + |data| <= |was| && now == was[..start] + data + was[start + |data|..]
  {}

  lemma WrittenNone(m: seq<byte>, pages: seq<nat>, offs: nat, data: seq<byte>)
    requires Covers(pages, offs, |data|, |m|)
    ensures Written(m, m, pages, offs, 0, data)
  {}

  lemma WrittenAll(m0: seq<byte>, m: seq<byte>, pages: seq<nat>, offs: nat, data: seq<byte>)
    requires Written(m0, m, pages, offs, |data|, data)
    ensures |m| == |m0| && Covers(pages, offs, |data|, |m|)
            && (Distinct(pages) ==> Gather(m, pages, offs, |data|) == data)
    ensures forall a :: 0 <= a < |m| && !InRange(pages, offs, |data|, a) ==> m[a] == m0[a]
  {
    if Distinct(pages) {
      assert Gather(m, pages, offs, |data|)[..|data|] == Gather(m, pages, offs, |data|) && data[..|data|] == data;
    }
  }

  /** One more piece copied between two ranges: what is written stays the source's bytes as long as the two are
      apart, since then no byte still to be read has been written over. */
  lemma NextWritten(m0: seq<byte>, m: seq<byte>, m': seq<byte>, n: nat, src: seq<nat>, srcOffs: nat,
                    dst: seq<nat>, dstOffs: nat, done: nat, length: nat, written: seq<byte>, piece: seq<byte>)
    returns (next: seq<byte>)
    requires |m0| == |m| && Covers(src, srcOffs, n, |m|) && Covers(dst, dstOffs, n, |m|) && |written| == n
    requires length > 0 && done + length <= n && (srcOffs + done) / P < |src| && (dstOffs + done) / P < |dst|
    requires (srcOffs + done) % P + length <= P && (dstOffs + done) % P + length <= P
    requires Written(m0, m, dst, dstOffs, done, written)
    requires var from := Loc(src, srcOffs, done); from + length <= |m| && piece == m[from..from + length]
    requires var base := Loc(dst, dstOffs, done); base + length <= |m| && m' == m[..base] + piece + m[base + length..]
    ensures |next| == n && Written(m0, m', dst, dstOffs, done + length, next)
    ensures Apart(n, src, srcOffs, dst, dstOffs) && written == Gather(m0, src, srcOffs, n) ==>
              next == Gather(m0, src, srcOffs, n)
  {
    hide Gather, Covers, InRange, Apart, Distinct;
    next := written[..done] + piece + written[done + length..];
    assert next[done..done + length] == piece && next[..done] == written[..done];
    WritePiece(m0, m, m', dst, dstOffs, done, length, next);
    if Apart(n, src, srcOffs, dst, dstOffs) && written == Gather(m0, src, srcOffs, n) {
      SourceIntact(m0, m, n, src, srcOffs, dst, dstOffs, done);
      GatherPiece(m, src, srcOffs, n, done, length);
      assert piece == written[done..done + length];
    }
  }

  lemma SourceIntact(m0: seq<byte>, m: seq<byte>, n: nat, src: seq<nat>, srcOffs: nat, dst: seq<nat>, dstOffs: nat,
                     done: nat)
    requires |m0| == |m| && Covers(src, srcOffs, n, |m|) && done <= n && Apart(n, src, srcOffs, dst, dstOffs)
    requires forall a :: 0 <= a < |m| && !InRange(dst, dstOffs, done, a) ==> m[a] == m0[a]
    ensures Gather(m, src, srcOffs, n) == Gather(m0, src, srcOffs, n)
  {
    hide Gather, Covers;
    forall k | 0 <= k < n ensures Gather(m, src, srcOffs, n)[k] == Gather(m0, src, srcOffs, n)[k] {
      GatherAt(m, src, srcOffs, n, k);
      GatherAt(m0, src, srcOffs, n, k);
      ghost var a := Loc(src, srcOffs, k);
      assert InRange(src, srcOffs, n, a);
      if InRange(dst, dstOffs, done, a) { Wider(dst, dstOffs, done, n, a); }
    }
  }
}
