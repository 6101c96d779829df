/** Buffered streams. A stream is a write-back cache of one window of a file: these
    methods are proved against an unbuffered byte file whose state is `Content()`
    and `Pos()`, with the kernel free to fail or to transfer less than asked. */
module Stdio {
  import opened Common
  import opened KernelFile
  import opened ByteFile

  const EOF := -1
  const BUFSIZ: nat := 4096
  const NEWLINE: byte := 10

  datatype BufMode = IONBF | IOLBF | IOFBF | Other

  datatype Whence = WhenceSet | WhenceCur | WhenceEnd | BadWhence

  /** Window byte `i` is what the disk holds there. */
  ghost predicate CleanAt(window: seq<byte>, disk: seq<byte>, base: nat, i: nat)
    requires i < |window|
  {
    base + i < |disk| && disk[base + i] == window[i]
  }

  /** Outside the hull `lo..hi`, the window shows what the disk holds at `base`. */
  ghost predicate CleanOutside(window: seq<byte>, lo: nat, hi: nat, disk: seq<byte>, base: nat)
  {
    forall i: nat :: i < |window| && !(lo <= i < hi) ==> CleanAt(window, disk, base, i)
  }

  /** The disk as seen through the window. */
  ghost function View(window: seq<byte>, lo: nat, hi: nat, disk: seq<byte>, base: nat): seq<byte>
    requires lo <= hi <= |window|
  {
    Overlay(disk, base + lo, window[lo..hi])
  }

  lemma WindowShowsView(window: seq<byte>, lo: nat, hi: nat, disk: seq<byte>, base: nat, i: nat)
    requires lo <= hi <= |window| && CleanOutside(window, lo, hi, disk, base) && i < |window|
    ensures CleanAt(window, View(window, lo, hi, disk, base), base, i)
  {
    assert lo <= i < hi || CleanAt(window, disk, base, i);
  }

  /** A buffer that happens to hold what the disk holds in its first `n` bytes. */
  ghost predicate ShowsDisk(buf: seq<byte>, n: nat, disk: seq<byte>, base: nat) {
    n <= |buf| && forall i: nat :: i < n ==> CleanAt(buf[..n], disk, base, i)
  }

  lemma CleanViewIsDisk(window: seq<byte>, lo: nat, hi: nat, disk: seq<byte>, base: nat)
    requires lo <= hi <= |window| && CleanOutside(window, hi, hi, disk, base)
    ensures View(window, lo, hi, disk, base) == disk
  {
    var v := View(window, lo, hi, disk, base);
    if lo < hi {
      assert CleanAt(window, disk, base, hi - 1);
      forall j | 0 <= j < |v| ensures v[j] == disk[j] {
        if base + lo <= j < base + hi { assert CleanAt(window, disk, base, j - base); }
      }
    }
  }

  /** Mid-flush: the hull is on disk up to `ofs`, and the view is still `view`. */
  ghost predicate WrittenUpTo(window: seq<byte>, lo: nat, hi: nat, disk: seq<byte>, base: nat, ofs: nat,
                              view: seq<byte>)
  {
    && lo <= hi <= |window|
    && CleanOutside(window, if ofs > lo then ofs else lo, hi, disk, base)
    && View(window, lo, hi, disk, base) == view
  }

  lemma NothingWritten(window: seq<byte>, lo: nat, hi: nat, disk: seq<byte>, base: nat, ofs: nat)
    requires lo <= hi <= |window| && ofs <= lo && CleanOutside(window, lo, hi, disk, base)
    ensures WrittenUpTo(window, lo, hi, disk, base, ofs, View(window, lo, hi, disk, base))
  {}

  /** Writing window bytes to the disk, from inside or before the hull, leaves the view alone. */
  lemma WriteThroughKeepsView(window: seq<byte>, lo: nat, hi: nat, disk: seq<byte>, base: nat, ofs: nat, n: nat,
                              view: seq<byte>)
    requires WrittenUpTo(window, lo, hi, disk, base, ofs, view) && lo < hi && n > 0 && ofs + n <= hi
    ensures View(window, lo, hi, Overlay(disk, base + ofs, window[ofs..ofs + n]), base) == view
  {
    var after := View(window, lo, hi, Overlay(disk, base + ofs, window[ofs..ofs + n]), base);
    if ofs > 0 && ofs != lo { assert CleanAt(window, disk, base, ofs - 1); }
    if lo > 0 { assert CleanAt(window, disk, base, lo - 1); }
    assert |view| == |after|;
    forall j | 0 <= j < |view| ensures view[j] == after[j] {
      if base + ofs <= j < base + ofs + n && j < base + lo { assert CleanAt(window, disk, base, j - base); }
    }
  }

  lemma CleanThere(window: seq<byte>, lo: nat, hi: nat, disk: seq<byte>, base: nat, i: nat)
    requires CleanOutside(window, lo, hi, disk, base) && i < |window| && !(lo <= i < hi)
    ensures CleanAt(window, disk, base, i)
  {}

  /** ... and what was written is clean from then on. */
  lemma WriteThrough(window: seq<byte>, lo: nat, hi: nat, disk: seq<byte>, base: nat, ofs: nat, d: seq<byte>,
                     view: seq<byte>)
    requires WrittenUpTo(window, lo, hi, disk, base, ofs, view) && lo < hi
    requires |d| > 0 && ofs + |d| <= hi && d == window[ofs..ofs + |d|]
    ensures WrittenUpTo(window, lo, hi, Overlay(disk, base + ofs, d), base, ofs + |d|, view)
  {
    WriteThroughKeepsView(window, lo, hi, disk, base, ofs, |d|, view);
    WrittenIsClean(window, lo, hi, disk, base, ofs, d);
  }

  lemma WrittenIsClean(window: seq<byte>, lo: nat, hi: nat, disk: seq<byte>, base: nat, ofs: nat, d: seq<byte>)
    requires CleanOutside(window, if ofs > lo then ofs else lo, hi, disk, base) && lo < hi <= |window|
    requires |d| > 0 && ofs + |d| <= hi && d == window[ofs..ofs + |d|]
    ensures CleanOutside(window, if ofs + |d| > lo then ofs + |d| else lo, hi, Overlay(disk, base + ofs, d), base)
  {
    hide Overlay;
    var disk' := Overlay(disk, base + ofs, d);
    forall i: nat | i < |window| && !((if ofs + |d| > lo then ofs + |d| else lo) <= i < hi)
      ensures CleanAt(window, disk', base, i)
    {
      if ofs <= i < ofs + |d| {
        assert disk'[base + i] == d[i - ofs] == window[i];
      } else {
        CleanThere(window, if ofs > lo then ofs else lo, hi, disk, base, i);
      }
    }
  }

  lemma StopEarly(window: seq<byte>, lo: nat, hi: nat, disk: seq<byte>, base: nat, ofs: nat, view: seq<byte>)
    requires WrittenUpTo(window, lo, hi, disk, base, ofs, view)
    ensures CleanOutside(window, lo, hi, disk, base) && View(window, lo, hi, disk, base) == view
    ensures ofs == hi ==> view == disk && CleanOutside(window, 0, 0, disk, base)
    ensures ofs == hi ==> View(window, 0, 0, disk, base) == view
  {
    if ofs == hi { CleanViewIsDisk(window, lo, hi, disk, base); }
  }

  function Stored(window: seq<byte>, at: nat, c: byte): seq<byte>
    requires at <= |window|
  {
    if at < |window| then window[at := c] else window + [c]
  }

  /** Storing one byte in the window, with the hull widened as fputcnf widens it, is a one-byte
      write on the view. */
  lemma StoreIsPut(window: seq<byte>, lo: nat, hi: nat, disk: seq<byte>, base: nat, at: nat, c: byte, lo': nat,
                   hi': nat)
    requires lo <= hi <= |window| && at <= |window| && CleanOutside(window, lo, hi, disk, base)
    requires lo' == if lo == hi || at < lo then at else lo
    requires hi' == if lo == hi || at + 1 > hi then at + 1 else hi
    ensures CleanOutside(Stored(window, at, c), lo', hi', disk, base)
    ensures View(Stored(window, at, c), lo', hi', disk, base) ==
              Overlay(View(window, lo, hi, disk, base), base + at, [c])
  {
    hide Overlay;
    var window' := Stored(window, at, c);
    forall i: nat | i < |window'| && !(lo' <= i < hi') ensures CleanAt(window', disk, base, i) {
      assert CleanAt(window, disk, base, i);
    }
    StoreShows(window, lo, hi, disk, base, at, c, lo', hi');
  }

  lemma StoreShows(window: seq<byte>, lo: nat, hi: nat, disk: seq<byte>, base: nat, at: nat, c: byte, lo': nat,
                   hi': nat)
    requires lo <= hi <= |window| && at <= |window| && CleanOutside(window, lo, hi, disk, base)
    requires lo' == if lo == hi || at < lo then at else lo
    requires hi' == if lo == hi || at + 1 > hi then at + 1 else hi
    ensures View(Stored(window, at, c), lo', hi', disk, base) ==
              Overlay(View(window, lo, hi, disk, base), base + at, [c])
  {
    hide Overlay, CleanOutside;
    var now, put := View(Stored(window, at, c), lo', hi', disk, base),
        Overlay(View(window, lo, hi, disk, base), base + at, [c]);
    if at > 0 && !(lo <= at - 1 < hi) { CleanThere(window, lo, hi, disk, base, at - 1); }
    assert |now| == |put|;
    forall j | 0 <= j < |now| ensures now[j] == put[j] {
      if base + lo' <= j < base + hi' && j != base + at && !(base + lo <= j < base + hi) {
        CleanThere(window, lo, hi, disk, base, j - base);
      }
    }
  }

  /** Bytes just read at `base` are clean, and a clean window shows the disk itself. */
  lemma ReadIsClean(window: seq<byte>, disk: seq<byte>, base: nat)
    requires base + |window| <= |disk| && window == disk[base..base + |window|]
    ensures CleanOutside(window, 0, 0, disk, base) && View(window, 0, 0, disk, base) == disk
  {
    forall i: nat | i < |window| ensures CleanAt(window, disk, base, i) {
      assert window[i] == disk[base..base + |window|][i];
    }
  }

  lemma EmptyWindow(disk: seq<byte>, base: nat)
    ensures CleanOutside([], 0, 0, disk, base) && View([], 0, 0, disk, base) == disk
  {}

  /** Overwriting a window byte without marking it dirty is harmless exactly when it changes nothing. */
  lemma UnmarkedStore(window: seq<byte>, lo: nat, hi: nat, disk: seq<byte>, base: nat, at: nat, c: byte)
    requires lo <= hi <= |window| && at < |window| && CleanOutside(window, lo, hi, disk, base)
    ensures (CleanOutside(window[at := c], lo, hi, disk, base)
             && View(window[at := c], lo, hi, disk, base) == View(window, lo, hi, disk, base)) <==> c == window[at]
  {
    if c == window[at] {
      assert window[at := c] == window;
    } else if lo <= at < hi {
      assert View(window[at := c], lo, hi, disk, base)[base + at] == c;
      assert View(window, lo, hi, disk, base)[base + at] == window[at];
    } else {
      assert CleanAt(window, disk, base, at);
      assert !CleanAt(window[at := c], disk, base, at);
    }
  }

  class Stream {
    const file: OpenFile
    const isconsole: bool
    var bufmode: BufMode
    var buffpos: int
    var filepos: int
    var dirtyLow: nat
    var dirtyHigh: nat
    var valid: nat
    var offset: nat
    var size: nat
    var buff: array?<byte>
    var error: bool
    var eof: bool

    /** The window: clean valid bytes are on disk, dirty ones form one hull inside the valid part. */
    ghost predicate Valid()
      reads this, file, buff
    {
      && (buff == null ==> size == 0)
      && (buff != null ==> size == buff.Length && size > 0)
      && offset <= valid <= size
      && dirtyLow <= dirtyHigh <= valid && (dirtyLow == dirtyHigh ==> dirtyHigh == 0)
      && 0 <= buffpos
      && filepos == file.pos
      && CleanOutside(Window(), dirtyLow, dirtyHigh, file.bytes, buffpos)
    }

    ghost function Window(): seq<byte>
      requires valid <= if buff == null then 0 else buff.Length
      reads this, buff
    {
      if buff == null then [] else buff[..valid]
    }

    /** The byte file the stream stands for: the disk overlaid by the dirty hull. */
    ghost function Content(): seq<byte>
      requires Valid()
      reads this, file, buff
    {
      View(Window(), dirtyLow, dirtyHigh, file.bytes, buffpos)
    }

    ghost function Pos(): nat
      requires Valid()
      reads this, file, buff
    {
      buffpos + offset
    }

    /** For append the position is what fstat says is the end, which is -1 when it fails. */
    constructor Fdopen(fd: OpenFile, append: bool, console: bool)
      modifies fd`faults
      ensures file == fd && isconsole == console && buff == null
      ensures bufmode == (if console then IOLBF else IOFBF) && dirtyLow == dirtyHigh
      ensures fd.faults >= old(fd.faults) && (!append ==> fd.faults == old(fd.faults))
      ensures Valid() <==> fd.pos == 0 && fd.faults == old(fd.faults)
      ensures Valid() ==> Content() == fd.bytes && Pos() == if append then |fd.bytes| else 0
    {
      file, isconsole := fd, console;
      bufmode := if console then IOLBF else IOFBF;
      buffpos := 0;
      filepos, dirtyLow, dirtyHigh, valid, offset, size := 0, 0, 0, 0, 0, 0;
      buff := null;
      error, eof := false, false;
      new;
      if append { buffpos := fd.Size(); }
    }

    /** Puts the kernel position where the hull starts, or leaves it where it is in the window before that. */
    method SeekHull() returns (ok: bool)
      requires Valid() && buff != null && dirtyLow < dirtyHigh
      modifies this`filepos, this`error, file`pos, file`faults
      ensures Valid() && Content() == old(Content()) && file.bytes == old(file.bytes)
      ensures ok ==> file.faults == old(file.faults) && filepos == file.pos && buffpos <= filepos <= buffpos + dirtyLow
      ensures old(buffpos <= filepos <= buffpos + dirtyLow) ==> ok && file.pos == old(file.pos)
      ensures !ok ==> error && file.faults > old(file.faults)
    {
      hide CleanOutside, Overlay, View;
      if filepos < buffpos || filepos > buffpos + dirtyLow {
        var rc := file.Lseek(buffpos + dirtyLow);
        if rc < 0 {
          error := true;
          return false;
        }
        filepos := buffpos + dirtyLow;
      }
      ok := true;
    }

    /** The positioned write loop of flushoutbuf: puts the hull on disk. */
    method WriteHull() returns (ok: bool)
      requires Valid() && buff != null && dirtyLow < dirtyHigh
      modifies this`filepos, this`dirtyLow, this`dirtyHigh, this`error, this`eof, file
      ensures Valid() && Content() == old(Content())
      ensures ok ==> dirtyLow == dirtyHigh == 0 && file.bytes == Content() && file.faults == old(file.faults)
      ensures !ok ==> (error || eof) && file.faults > old(file.faults)
                      && dirtyLow == old(dirtyLow) && dirtyHigh == old(dirtyHigh)
    {
      hide CleanOutside, Overlay, View, WrittenUpTo;
      ghost var window, view := Window(), Content();
      ok := SeekHull();
      if !ok { return; }
      var ofs := filepos - buffpos;
      NothingWritten(window, dirtyLow, dirtyHigh, file.bytes, buffpos, ofs);
      while ofs < dirtyHigh
        invariant 0 <= ofs <= dirtyHigh
        invariant filepos == file.pos == buffpos + ofs
        invariant unchanged(this`dirtyLow, this`dirtyHigh) && file.faults == old(file.faults)
        invariant WrittenUpTo(window, dirtyLow, dirtyHigh, file.bytes, buffpos, ofs, view)
      {
        ghost var disk := file.bytes;
        var rc := file.Write(buff, ofs, dirtyHigh);
        if rc <= 0 {
          StopEarly(window, dirtyLow, dirtyHigh, disk, buffpos, ofs, view);
          if rc < 0 { error := true; } else { eof := true; }
          return false;
        }
        WriteThrough(window, dirtyLow, dirtyHigh, disk, buffpos, ofs, buff[ofs..ofs + rc], view);
        filepos := filepos + rc;
        ofs := ofs + rc;
      }
      StopEarly(window, dirtyLow, dirtyHigh, file.bytes, buffpos, ofs, view);
      dirtyLow, dirtyHigh := 0, 0;
      return true;
    }

    method Flushoutbuf(alloc: bool) returns (ok: bool)
      requires Valid()
      modifies this, file
      ensures Valid() && Content() == old(Content()) && Pos() == old(Pos())
      ensures buff == old(buff) || (alloc && old(buff) == null && fresh(buff))
      ensures bufmode == old(bufmode) && file.faults >= old(file.faults)
      ensures ok ==> dirtyLow == dirtyHigh && file.bytes == Content() && file.faults == old(file.faults)
      ensures ok && alloc ==> buff != null
      ensures old(dirtyLow == dirtyHigh) ==> file.bytes == old(file.bytes)
      ensures if ok && old(buff) != null && old(offset == valid) then offset == valid == 0
              else offset == old(offset) && valid == old(valid) && buffpos == old(buffpos)
      ensures !ok ==> (error || eof) && file.faults > old(file.faults)
                      && dirtyLow == old(dirtyLow) && dirtyHigh == old(dirtyHigh) && dirtyLow < dirtyHigh
    {
      if buff == null {
        if alloc {
          size := BUFSIZ;
          buff := new byte[BUFSIZ];
        }
        return true;
      }
      if dirtyLow != dirtyHigh {
        ok := WriteHull();
        if !ok { return; }
      }
      if offset == valid {
        buffpos := buffpos + valid;
        offset, valid := 0, 0;
      }
      return true;
    }

    method Fillinbuf() returns (ok: bool)
      requires Valid() && offset == valid
      modifies this, file, buff
      ensures Valid() && Content() == old(Content()) && Pos() == old(Pos())
      ensures buff == old(buff) || fresh(buff)
      ensures bufmode == old(bufmode) && file.faults >= old(file.faults)
      ensures ok ==> offset < valid && file.faults == old(file.faults)
      ensures file.faults == old(file.faults) ==> file.bytes == Content()
      ensures !ok ==> (eof || error) && (file.faults > old(file.faults) || Pos() >= |Content()|)
    {
      hide CleanOutside, Overlay, View;
      ok := Flushoutbuf(true);
      if !ok { return; }
      if filepos != buffpos {
        var rc := file.Lseek(buffpos);
        if rc < 0 {
          error := true;
          return false;
        }
        filepos := buffpos;
      }
      ok := ReadWindow();
    }

    /** The read of fillinbuf, into an emptied buffer. */
    method ReadWindow() returns (ok: bool)
      requires Valid() && buff != null && offset == valid == dirtyHigh == 0 && filepos == buffpos
      modifies this`error, this`eof, this`filepos, this`valid, file`pos, file`faults, buff
      ensures Valid() && Content() == old(Content()) && file.faults >= old(file.faults)
      ensures ok ==> 0 < valid && file.faults == old(file.faults)
      ensures !ok ==> valid == 0 && (eof || error) && (file.faults > old(file.faults) || buffpos >= |Content()|)
    {
      hide CleanOutside, Overlay, View;
      EmptyWindow(file.bytes, buffpos);
      var rc := file.Read(buff);
      if rc < 0 {
        error := true;
        return false;
      }
      if rc == 0 {
        eof := true;
        return false;
      }
      filepos := filepos + rc;
      valid := rc;
      ReadIsClean(Window(), file.bytes, buffpos);
      return true;
    }

    method Fputcnf(c: byte) returns (rc: int)
      requires Valid()
      modifies this, file, buff
      ensures Valid() && (buff == old(buff) || fresh(buff))
      ensures bufmode == old(bufmode) && file.faults >= old(file.faults)
      ensures rc == c || rc == EOF
      ensures rc == c ==> State(Content(), Pos()) == Put(old(State(Content(), Pos())), [c])
      ensures rc == c ==> file.faults == old(file.faults)
      ensures rc == c ==> c in Window()[dirtyLow..dirtyHigh]
      ensures old(dirtyLow == dirtyHigh) ==> file.bytes == old(file.bytes)
      ensures rc == EOF ==> Content() == old(Content()) && Pos() == old(Pos()) && file.faults > old(file.faults)
    {
      if offset == size {
        var ok := Flushoutbuf(true);
        if !ok { return EOF; }
      }
      Store(c);
      assert Window()[dirtyLow..dirtyHigh][offset - 1 - dirtyLow] == c;
      return c;
    }

    /** The part of fputcnf that puts the byte into a buffer with room for it. */
    method Store(c: byte)
      requires Valid() && offset < size
      modifies this`dirtyLow, this`dirtyHigh, this`offset, this`valid, buff
      ensures Valid() && State(Content(), Pos()) == Put(old(State(Content(), Pos())), [c])
      ensures dirtyLow < offset <= dirtyHigh && buff[offset - 1] == c
    {
      hide CleanOutside, Overlay, View;
      ghost var window, lo, hi, at := Window(), dirtyLow, dirtyHigh, offset;
      if dirtyLow == dirtyHigh { dirtyLow, dirtyHigh := offset, offset; }
      if offset < dirtyLow { dirtyLow := offset; }
      buff[offset] := c;
      offset := offset + 1;
      if offset > dirtyHigh { dirtyHigh := offset; }
      if offset > valid { valid := offset; }
      StoreIsPut(window, lo, hi, file.bytes, buffpos, at, c, dirtyLow, dirtyHigh);
      assert Window() == Stored(window, at, c);
    }

    /** Flush depending on the buffering mode. */
    method Flushmode() returns (ok: bool)
      requires Valid()
      modifies this, file
      ensures Valid() && Content() == old(Content()) && Pos() == old(Pos())
      ensures buff == old(buff) || fresh(buff)
      ensures bufmode == old(bufmode)
      ensures if ok then file.faults == old(file.faults) else file.faults > old(file.faults)
      ensures bufmode == IOFBF ==> file.bytes == old(file.bytes)
      ensures ok && (bufmode == IONBF || (bufmode == IOLBF && NEWLINE in old(Window()[dirtyLow..dirtyHigh]))) ==>
                file.bytes == Content()
    {
      hide CleanOutside, Overlay;
      match bufmode {
        case IONBF =>
          ok := Flushoutbuf(false);
          return;
        case IOLBF =>
          for i := dirtyLow to dirtyHigh
            invariant NEWLINE !in Window()[dirtyLow..i]
          {
            if buff[i] == NEWLINE {
              ok := Flushoutbuf(false);
              return;
            }
          }
        case _ =>
      }
      return true;
    }

    method Fputc(c: byte) returns (rc: int)
      requires Valid()
      modifies this, file, buff
      ensures Valid() && (buff == old(buff) || fresh(buff)) && bufmode == old(bufmode)
      ensures rc == c || rc == EOF
      ensures rc == c ==> State(Content(), Pos()) == Put(old(State(Content(), Pos())), [c])
      ensures rc == c ==> file.faults == old(file.faults)
      ensures rc == c && (bufmode == IONBF || (bufmode == IOLBF && c == NEWLINE)) ==> file.bytes == Content()
      ensures bufmode == IOFBF && old(dirtyLow == dirtyHigh) ==> file.bytes == old(file.bytes)
      ensures rc == EOF ==> file.faults > old(file.faults)
      ensures rc == EOF ==>
                State(Content(), Pos()) in {old(State(Content(), Pos())), Put(old(State(Content(), Pos())), [c])}
    {
      hide CleanOutside, Overlay, View;
      rc := Fputcnf(c);
      if rc != EOF {
        var ok := Flushmode();
        if !ok { return EOF; }
      }
    }

    /** fgetc once any console streams have been flushed. */
    method Getc() returns (rc: int)
      requires Valid()
      modifies this, file, buff
      ensures Valid() && (buff == old(buff) || fresh(buff)) && bufmode == old(bufmode)
      ensures Content() == old(Content())
      ensures file.faults == old(file.faults) && old(file.bytes == Content()) ==> file.bytes == Content()
      ensures rc != EOF ==> old(Pos()) < |Content()| && rc == Content()[old(Pos())] && Pos() == old(Pos()) + 1
                            && file.faults == old(file.faults)
      ensures rc == EOF ==> Pos() == old(Pos()) && (eof || error)
                            && (file.faults > old(file.faults)
                                || (Pos() >= |Content()| && file.faults == old(file.faults)))
    {
      hide CleanOutside, Overlay, View;
      if offset == valid {
        var ok := Fillinbuf();
        if !ok { return EOF; }
      }
      WindowShowsView(Window(), dirtyLow, dirtyHigh, file.bytes, buffpos, offset);
      rc := buff[offset];
      offset := offset + 1;
    }

    /** fgetc when this is the only stream there is: a console is flushed before it is read, whether or not that works
        out. */
    method Fgetc() returns (rc: int)
      requires Valid()
      modifies this, file, buff
      ensures Valid() && (buff == old(buff) || fresh(buff)) && file.faults >= old(file.faults)
      ensures Content() == old(Content())
      ensures file.faults == old(file.faults) && (isconsole || old(file.bytes == Content())) ==> file.bytes == Content()
      ensures rc != EOF ==> old(Pos()) < |Content()| && rc == Content()[old(Pos())] && Pos() == old(Pos()) + 1
      ensures rc == EOF ==> Pos() == old(Pos()) && (file.faults > old(file.faults) || Pos() >= |Content()|)
    {
      hide CleanOutside, Overlay, View;
      if isconsole {
        var _ := Flushoutbuf(false);
      }
      rc := Getc();
    }

    method Ungetc(c: byte) returns (rc: int)
      requires Valid()
      modifies this`offset, buff
      ensures old(offset) == 0 ==> rc == EOF && offset == 0
      ensures old(offset) > 0 ==> rc == c && offset == old(offset) - 1 && buff[offset] == c
      ensures (Valid() && Content() == old(Content())) <==> (old(offset) == 0 || c == old(buff[offset - 1]))
    {
      if offset == 0 { return EOF; }
      offset := offset - 1;
      UnmarkedStore(Window(), dirtyLow, dirtyHigh, file.bytes, buffpos, offset, c);
      ghost var window := Window();
      buff[offset] := c;
      assert Window() == window[offset := c];
      return c;
    }

    function Ftell(): (p: int)
      requires Valid()
      reads this, file, buff
      ensures p == Pos()
    {
      buffpos + offset
    }

    /** Where a seek goes: `size` is what fstat said. */
    static function SeekTarget(distance: int, whence: Whence, here: int, size: int): int {
      match whence
      case WhenceSet => distance
      case WhenceCur => distance + here
      case WhenceEnd => distance + size
      case BadWhence => distance
    }

    /** A negative target is not refused, so the stream is left without a position. */
    method Fseek(distance: int, whence: Whence) returns (rc: int, ghost size: int)
      requires Valid()
      modifies this, file
      ensures buff == old(buff) || fresh(buff)
      ensures bufmode == old(bufmode) && file.faults >= old(file.faults)
      ensures size == -1 || size == old(|file.bytes|)
      ensures size == -1 && whence == WhenceEnd ==> file.faults > old(file.faults)
      ensures rc == 0 || rc == -1
      ensures rc == -1 ==> Valid() && Content() == old(Content()) && Pos() == old(Pos())
                           && (whence == BadWhence || file.faults > old(file.faults))
      ensures rc == 0 ==> whence != BadWhence && buffpos + offset == SeekTarget(distance, whence, old(Pos()), size)
      ensures rc == 0 ==> (Valid() <==> SeekTarget(distance, whence, old(Pos()), size) >= 0)
      ensures rc == 0 && Valid() ==> Content() == old(Content())
      ensures file.faults == old(file.faults) && old(file.bytes == Content()) ==> file.bytes == old(file.bytes)
    {
      hide CleanOutside, Overlay;
      size := |file.bytes|;
      var offset' := distance;
      match whence {
        case WhenceSet =>
        case WhenceCur => offset' := offset' + buffpos + offset;
        case WhenceEnd =>
          var end := file.Size();
          size := end;
          offset' := offset' + end;
        case BadWhence => return -1, size;
      }
      if buffpos <= offset' < buffpos + valid {
        offset := offset' - buffpos;
        return 0, size;
      }
      var ok := Flushoutbuf(true);
      if !ok { return -1, size; }
      valid, offset := 0, 0;
      buffpos := offset';
      if offset' >= 0 { EmptyWindow(file.bytes, offset'); }
      return 0, size;
    }

    /** SEEK_END asks the disk, so it means the end of the stream unless unwritten bytes pass it. */
    lemma SeekEndIsContentEnd()
      requires Valid()
      ensures |file.bytes| == |Content()| <==> (dirtyLow == dirtyHigh || buffpos + dirtyHigh <= |file.bytes|)
    {}

    method Fflush() returns (rc: int)
      requires Valid()
      modifies this, file
      ensures Valid() && Content() == old(Content()) && Pos() == old(Pos())
      ensures (buff == old(buff) || fresh(buff)) && bufmode == old(bufmode)
      ensures rc == 0 ==> file.bytes == Content() && file.faults == old(file.faults)
      ensures rc != 0 ==> rc == EOF && file.faults > old(file.faults)
    {
      var ok := Flushoutbuf(false);
      rc := if ok then 0 else EOF;
    }

    method Fpurge()
      requires Valid()
      modifies this
      ensures Valid() && Content() == file.bytes && Pos() == old(Pos() - offset)
    {
      offset, valid, dirtyLow, dirtyHigh := 0, 0, 0, 0;
    }

    /** A buffer of no size is taken as it is, and the next byte put would go past it. */
    method Setvbuf(buf: array?<byte>, mode: BufMode) returns (rc: int)
      requires Valid()
      modifies this, file
      ensures (rc == 0 || rc == -1) && (mode == Other ==> rc == -1)
      ensures file.faults == old(file.faults) && old(offset == valid) ==>
                (Valid() <==> buf == null || buf.Length > 0 || mode !in {IOLBF, IOFBF})
      ensures file.faults == old(file.faults) ==> bufmode == mode && (rc == 0 <==> mode != Other)
      ensures file.faults > old(file.faults) ==>
                rc == -1 && Valid() && Content() == old(Content()) && Pos() == old(Pos()) && bufmode == old(bufmode)
      ensures file.faults == old(file.faults) && old(offset != valid) ==>
                (Valid() <==>
                   && buf != null && mode in {IOLBF, IOFBF}
                   && ShowsDisk(buf[..], old(valid), file.bytes, old(buffpos)))
      ensures file.faults == old(file.faults) && Valid() ==>
                Content() == old(Content()) && Pos() == old(Pos()) && file.bytes == Content()
    {
      hide Overlay, View;
      var ok := Flushoutbuf(false);
      if !ok { return EOF; }
      buff, size := null, 0;
      bufmode := mode;
      rc := 0;
      match mode {
        case IONBF =>
        case Other => rc := -1;
        case _ =>
          if buf != null { size, buff := buf.Length, buf; }
      }
      if Valid() { CleanViewIsDisk(Window(), 0, 0, file.bytes, buffpos); }
    }

    /** Bytes move one at a time: `taken` of them went in, whatever is returned. */
    method Fwrite(data: seq<byte>, itemSize: nat) returns (rc: int, ghost taken: nat)
      requires Valid() && (itemSize == 0 ==> data == [])
      modifies this, file, buff
      ensures Valid() && (buff == old(buff) || fresh(buff)) && file.faults >= old(file.faults)
      ensures taken <= |data| && State(Content(), Pos()) == Put(old(State(Content(), Pos())), data[..taken])
      ensures if itemSize == 0 then rc == 0 else rc in {EOF, taken / itemSize}
      ensures file.faults == old(file.faults) ==>
                taken == |data| && rc == if itemSize == 0 then 0 else |data| / itemSize
    {
      hide CleanOutside, Overlay, View, Put;
      taken := 0;
      PutNothing(State(Content(), Pos()));
      if itemSize == 0 { return 0, 0; }
      var i := 0;
      while i < |data|
        invariant 0 <= i == taken <= |data|
        invariant Valid() && (buff == old(buff) || fresh(buff)) && file.faults == old(file.faults)
        invariant State(Content(), Pos()) == Put(old(State(Content(), Pos())), data[..i])
      {
        var c := Fputcnf(data[i]);
        if c == EOF { break; }
        PutPut(old(State(Content(), Pos())), data[..i], [data[i]]);
        assert data[..i] + [data[i]] == data[..i + 1];
        i := i + 1;
        taken := i;
      }
      assert data[..|data|] == data;
      var ok := Flushmode();
      if !ok { return EOF, taken; }
      return i / itemSize, taken;
    }

    method Fread(itemSize: nat, items: nat) returns (rc: int, data: seq<byte>)
      requires Valid() && itemSize > 0
      modifies this, file, buff
      ensures Valid() && (buff == old(buff) || fresh(buff)) && file.faults >= old(file.faults)
      ensures Content() == old(Content()) && rc == |data| / itemSize
      ensures |data| <= itemSize * items && data == Ahead(old(State(Content(), Pos())), |data|)
              && Pos() == old(Pos()) + |data|
      ensures forall k :: 0 <= k < |data| ==> old(Pos()) + k < |Content()| && data[k] == Content()[old(Pos()) + k]
      ensures file.faults == old(file.faults) ==> data == Ahead(old(State(Content(), Pos())), itemSize * items)
      ensures file.faults == old(file.faults) ==>
                |data| == if old(Pos()) >= |Content()| then 0 else Least(itemSize * items, |Content()| - old(Pos()))
      ensures file.faults == old(file.faults) && old(file.bytes == Content()) ==> file.bytes == Content()
    {
      hide CleanOutside, Overlay, View, Ahead, Gives;
      data := [];
      ghost var st := State(Content(), Pos());
      GivesNone(st);
      while |data| < itemSize * items
        invariant |data| <= itemSize * items
        invariant Valid() && (buff == old(buff) || fresh(buff)) && file.faults >= old(file.faults)
        invariant Content() == st.content && Pos() == st.pos + |data|
        invariant file.faults == old(file.faults) && old(file.bytes == Content()) ==> file.bytes == Content()
        invariant Gives(st, data)
      {
        var c := Fgetc();
        if c == EOF { break; }
        GivesMore(st, data, c);
        data := data + [c];
      }
      GivesAhead(st, data, itemSize * items);
      rc := |data| / itemSize;
    }

    method Fclose() returns (rc: int)
      requires Valid()
      modifies this, file
      ensures rc == 0 ==> file.bytes == old(Content()) && file.faults == old(file.faults)
      ensures rc != 0 ==> rc == EOF && file.faults > old(file.faults)
    {
      var ok := Flushoutbuf(false);
      buff := null;
      rc := if ok then 0 else EOF;
    }
  }

  /** A list with one of its distinct elements taken out. */
  function Unlink<T(==)>(list: seq<T>, x: T): (rest: seq<T>)
    requires Distinct(list)
    ensures Distinct(rest)
    ensures (forall y <- rest :: y in list && y != x) && (forall y <- list :: y == x || y in rest)
  {
    if list == [] then []
    else if list[0] == x then list[1..]
    else
      var rest := Unlink(list[1..], x);
      assert forall k :: 0 < k < |list| ==> list[k] != list[0] && list[1..][k - 1] == list[k];
      assert list[0] !in rest;
      [list[0]] + rest
  }

  /** The list of all open streams, newest first. */
  class Streams {
    var allfiles: seq<Stream>

    /** Open streams share neither descriptors nor buffers. */
    ghost predicate Valid()
      reads this, allfiles, set s | s in allfiles :: s.file, set s | s in allfiles && s.buff != null :: s.buff
    {
      && (forall s <- allfiles :: s.Valid())
      && (forall s, t | s in allfiles && t in allfiles && s != t ::
            s.file != t.file && (s.buff == null || s.buff != t.buff))
      && Distinct(allfiles)
    }

    constructor ()
      ensures Valid() && allfiles == []
    {
      allfiles := [];
    }

    /** Two streams on one descriptor would each believe in a kernel position of their own. */
    method Fdopen(fd: OpenFile, append: bool, console: bool) returns (stream: Stream)
      requires Valid()
      modifies this, fd`faults
      ensures fresh(stream) && allfiles == [stream] + old(allfiles)
      ensures stream.file == fd && stream.isconsole == console
      ensures Valid() <==> fd.pos == 0 && fd.faults == old(fd.faults) && forall s <- old(allfiles) :: s.file != fd
      ensures Valid() ==> stream.Content() == fd.bytes && stream.Pos() == if append then |fd.bytes| else 0
    {
      hide CleanOutside, Overlay, View, Stream.Window, Stream.Content, Stream.Pos, Stream.Valid;
      stream := new Stream.Fdopen(fd, append, console);
      allfiles := [stream] + allfiles;
      assert stream in allfiles && allfiles[1..] == old(allfiles);
      assert Distinct(allfiles);
      assert forall s <- old(allfiles) :: s in allfiles && s != stream;
      assert forall s <- allfiles :: s == stream || s in old(allfiles);
      assert stream.Valid() ==> forall s <- allfiles :: s.Valid();
    }

    method Fclose(stream: Stream) returns (rc: int)
      requires Valid() && stream in allfiles
      modifies this, stream, stream.file
      ensures Valid() && stream !in allfiles && forall s <- old(allfiles) :: s == stream || s in allfiles
      ensures forall s <- allfiles :: s in old(allfiles) && s.Content() == old(s.Content()) && s.Pos() == old(s.Pos())
      ensures if rc == 0 then stream.file.bytes == old(stream.Content())
              else rc == EOF && stream.file.faults > old(stream.file.faults)
    {
      rc := stream.Fclose();
      hide CleanOutside, Overlay, View;
      allfiles := Unlink(allfiles, stream);
    }

    /** Reading from a console first pushes out what every console stream holds back. */
    method Fgetc(stream: Stream) returns (rc: int)
      requires Valid() && stream in allfiles
      modifies allfiles, set s | s in allfiles :: s.file, stream.buff
      ensures Valid()
      ensures forall s <- allfiles :: s.Content() == old(s.Content()) && (s != stream ==> s.Pos() == old(s.Pos()))
      ensures forall s <- allfiles :: stream.isconsole && s.isconsole && s.file.faults == old(s.file.faults) ==>
                s.file.bytes == s.Content()
      ensures rc != EOF ==> old(stream.Pos()) < |stream.Content()| && rc == stream.Content()[old(stream.Pos())]
                            && stream.Pos() == old(stream.Pos()) + 1
      ensures rc == EOF ==> stream.Pos() == old(stream.Pos())
                            && (stream.file.faults > old(stream.file.faults) || stream.Pos() >= |stream.Content()|)
    {
      hide CleanOutside, Overlay, View, Distinct;
      if stream.isconsole { FlushConsoles(); }
      rc := GetFrom(stream);
    }

    method GetFrom(stream: Stream) returns (rc: int)
      requires Valid() && stream in allfiles
      modifies stream, stream.file, stream.buff
      ensures Valid()
      ensures forall s <- allfiles :: s.Content() == old(s.Content()) && s.file.faults >= old(s.file.faults)
      ensures forall s <- allfiles ::
                s.file.faults == old(s.file.faults) && old(s.file.bytes == s.Content()) ==> s.file.bytes == s.Content()
      ensures forall s <- allfiles :: s != stream ==> s.Pos() == old(s.Pos())
      ensures rc != EOF ==> old(stream.Pos()) < |stream.Content()| && rc == stream.Content()[old(stream.Pos())]
                            && stream.Pos() == old(stream.Pos()) + 1
      ensures rc == EOF ==> stream.Pos() == old(stream.Pos())
                            && (stream.file.faults > old(stream.file.faults) || stream.Pos() >= |stream.Content()|)
    {
      hide CleanOutside, Overlay, View, Distinct;
      rc := stream.Getc();
    }

    method FlushConsoles()
      requires Valid()
      modifies allfiles, set s | s in allfiles :: s.file
      ensures Valid() && SameViews()
      ensures forall s <- allfiles :: s.isconsole && s.file.faults == old(s.file.faults) ==> s.file.bytes == s.Content()
    {
      hide CleanOutside, Overlay, View, Distinct, Stream.Content, Stream.Window, Stream.Pos, Stream.Valid;
      for i := 0 to |allfiles|
        invariant Valid() && SameViews()
        invariant forall s <- allfiles[..i] :: s.isconsole && s.file.faults == old(s.file.faults) ==>
                    s.file.bytes == s.Content()
      {
        if allfiles[i].isconsole { FlushOne(allfiles[i]); }
      }
    }

    /** No stream's view has changed, and none has lost its buffer. */
    twostate predicate SameViews()
      requires old(Valid()) && Valid() && allfiles == old(allfiles)
      reads this, allfiles, set s | s in allfiles :: s.file, set s | s in allfiles && s.buff != null :: s.buff
    {
      forall s <- allfiles :: s.buff == old(s.buff) && s.file.faults >= old(s.file.faults)
                              && s.Content() == old(s.Content()) && s.Pos() == old(s.Pos())
    }

    method FlushOne(f: Stream)
      requires Valid() && f in allfiles
      modifies f, f.file
      ensures Valid() && SameViews()
      ensures f.file.faults == old(f.file.faults) ==> f.file.bytes == f.Content()
      ensures forall s <- allfiles :: s != f ==> s.file.bytes == old(s.file.bytes)
    {
      hide CleanOutside, Overlay, View, Distinct;
      var _ := f.Flushoutbuf(false);
    }
  }

  /** What a seek has to ask for to leave no position: a place before the beginning, which after a fault may have been
      counted from -1. */
  ghost predicate StopsAt(st: State, end: nat, op: Op, fault: bool) {
    IsSeek(op) && (Goal(st, end, op) < 0 || (fault && op.SeekEnd? && Goal(st, -1, op) < 0))
  }

  /** With no fault, only a seek to a place before the beginning leaves no position. */
  lemma StopsBelow(st: State, end: nat, op: Op)
    ensures StopsAt(st, end, op, false) <==>
              || (op.SeekSet? && op.to < 0) || (op.SeekCur? && st.pos + op.delta < 0)
              || (op.SeekEnd? && end + op.past < 0)
  {}

  method DoSeek(s: Stream, op: Op) returns (out: Outcome)
    requires s.Valid() && IsSeek(op)
    modifies s, s.file, s.buff
    ensures s.buff == old(s.buff) || fresh(s.buff)
    ensures s.file.faults >= old(s.file.faults)
    ensures s.Valid() <==> s.buffpos + s.offset >= 0
    ensures s.Valid() ==> Explained(old(State(s.Content(), s.Pos())), op, out, State(s.Content(), s.Pos()))
    ensures s.file.faults == old(s.file.faults) ==>
              (s.Valid() <==> Goal(old(State(s.Content(), s.Pos())), old(|s.file.bytes|), op) >= 0)
    ensures s.file.faults == old(s.file.faults) && s.Valid() ==>
              Faultless(old(State(s.Content(), s.Pos())), old(|s.file.bytes|), op, out, State(s.Content(), s.Pos()))
    ensures s.file.faults == old(s.file.faults) && s.Valid() && old(s.file.bytes == s.Content()) ==>
              s.file.bytes == s.Content()
    ensures !s.Valid() ==>
              StopsAt(old(State(s.Content(), s.Pos())), old(|s.file.bytes|), op, s.file.faults > old(s.file.faults))
  {
    hide CleanOutside, Overlay, Put;
    var distance, whence :=
      if op.SeekSet? then op.to else if op.SeekCur? then op.delta else op.past,
      if op.SeekSet? then WhenceSet else if op.SeekCur? then WhenceCur else WhenceEnd;
    var rc, _ := s.Fseek(distance, whence);
    out := if rc == 0 then Done else Failed;
  }

  method DoWrite(s: Stream, d: seq<byte>) returns (out: Outcome)
    requires s.Valid()
    modifies s, s.file, s.buff
    ensures s.buff == old(s.buff) || fresh(s.buff)
    ensures s.file.faults >= old(s.file.faults)
    ensures s.Valid() && Explained(old(State(s.Content(), s.Pos())), Op.Write(d), out, State(s.Content(), s.Pos()))
    ensures s.file.faults == old(s.file.faults) ==>
              Exact(old(State(s.Content(), s.Pos())), Op.Write(d), out, State(s.Content(), s.Pos()))
  {
    hide CleanOutside, Overlay, View, Put;
    ghost var taken: nat;
    var rc: int;
    rc, taken := s.Fwrite(d, 1);
    assert d[..|d|] == d;
    out := if rc == |d| then Done else Failed;
  }

  method Do(s: Stream, op: Op) returns (out: Outcome)
    requires s.Valid()
    modifies s, s.file, s.buff
    ensures s.buff == old(s.buff) || fresh(s.buff)
    ensures s.file.faults >= old(s.file.faults)
    ensures s.Valid() <==> s.buffpos + s.offset >= 0
    ensures s.Valid() ==> Explained(old(State(s.Content(), s.Pos())), op, out, State(s.Content(), s.Pos()))
    ensures s.file.faults == old(s.file.faults) ==>
              (s.Valid() <==> !(IsSeek(op) && Goal(old(State(s.Content(), s.Pos())), old(|s.file.bytes|), op) < 0))
    ensures s.file.faults == old(s.file.faults) && s.Valid() ==>
              Faultless(old(State(s.Content(), s.Pos())), old(|s.file.bytes|), op, out, State(s.Content(), s.Pos()))
    ensures s.file.faults == old(s.file.faults) && op.Flush? ==> s.file.bytes == s.Content()
    ensures s.file.faults == old(s.file.faults) && s.Valid() && old(s.file.bytes == s.Content()) ==>
              op.Putc? || op.Write? || s.file.bytes == s.Content()
    ensures !s.Valid() ==>
              StopsAt(old(State(s.Content(), s.Pos())), old(|s.file.bytes|), op, s.file.faults > old(s.file.faults))
  {
    hide CleanOutside, Overlay, View, Put;
    match op {
      case Getc =>
        var c := s.Fgetc();
        out := if c == EOF then Failed else Got(c);
      case Putc(c) =>
        var rc := s.Fputc(c);
        out := if rc == EOF then Failed else Done;
      case Read(n) =>
        var rc, d := s.Fread(1, n);
        out := Data(d);
      case Write(d) =>
        out := DoWrite(s, d);
      case Flush =>
        var rc := s.Fflush();
        out := if rc == 0 then Done else Failed;
      case Tell =>
        out := At(s.Ftell());
      case _ =>
        out := DoSeek(s, op);
    }
  }

  /** Runs a program of stream calls. The path records the byte file after each call, and `ends` where the disk's
      copy of it ends. While the kernel refuses nothing the path is exactly that of the unbuffered file, but for a
      SEEK_END, which goes by the disk; only a seek to before the beginning stops a program. */
  method Run(s: Stream, ops: seq<Op>) returns (outs: seq<Outcome>, ghost path: seq<State>, ghost ends: seq<nat>)
    requires s.Valid()
    modifies s, s.file, s.buff
    ensures |path| == |ends| == |outs| + 1 <= |ops| + 1
    ensures path[0] == old(State(s.Content(), s.Pos())) && ends[0] == old(|s.file.bytes|)
    ensures forall k :: 0 <= k < |outs| ==> Explained(path[k], ops[k], outs[k], path[k + 1])
    ensures s.file.faults == old(s.file.faults) ==>
              forall k :: 0 <= k < |outs| ==> Faultless(path[k], ends[k], ops[k], outs[k], path[k + 1])
    ensures s.file.faults == old(s.file.faults) ==>
              forall k :: 0 <= k <= |outs| && Settled(ops, k, old(s.file.bytes == s.Content())) ==>
                ends[k] == |path[k].content| && (k < |outs| ==> Exact(path[k], ops[k], outs[k], path[k + 1]))
    ensures |outs| == |ops| ==> s.Valid() && State(s.Content(), s.Pos()) == path[|ops|]
    ensures |outs| == |ops| && s.file.faults == old(s.file.faults) ==>
              Settled(ops, |ops|, old(s.file.bytes == s.Content())) ==> s.file.bytes == s.Content()
    ensures |outs| < |ops| ==>
              StopsAt(path[|outs|], ends[|outs|], ops[|outs|], s.file.faults > old(s.file.faults))
  {
    hide CleanOutside, Overlay, View, Put, Step, Partial, Exact, Explained, Faultless;
    hide Stream.Valid, Stream.Content, Stream.Window, Stream.Pos;
    ghost var start := s.file.bytes == s.Content();
    outs, path, ends := [], [State(s.Content(), s.Pos())], [|s.file.bytes|];
    while |outs| < |ops|
      invariant |path| == |ends| == |outs| + 1 <= |ops| + 1
      invariant s.Valid() && (s.buff == old(s.buff) || fresh(s.buff))
      invariant s.file.faults >= old(s.file.faults)
      invariant path[0] == old(State(s.Content(), s.Pos())) && path[|outs|] == State(s.Content(), s.Pos())
      invariant ends[0] == old(|s.file.bytes|) && ends[|outs|] == |s.file.bytes|
      invariant forall k :: 0 <= k < |outs| ==> Explained(path[k], ops[k], outs[k], path[k + 1])
      invariant s.file.faults == old(s.file.faults) ==>
                  forall k :: 0 <= k < |outs| ==> Faultless(path[k], ends[k], ops[k], outs[k], path[k + 1])
      invariant s.file.faults == old(s.file.faults) ==>
                  forall k :: 0 <= k <= |outs| && Settled(ops, k, start) ==>
                    ends[k] == |path[k].content| && (k < |outs| ==> Exact(path[k], ops[k], outs[k], path[k + 1]))
      invariant s.file.faults == old(s.file.faults) && Settled(ops, |outs|, start) ==> s.file.bytes == s.Content()
    {
      ghost var before, end := State(s.Content(), s.Pos()), |s.file.bytes|;
      var out := Do(s, ops[|outs|]);
      if s.buffpos + s.offset < 0 {
        return;
      }
      outs, path, ends := outs + [out], path + [State(s.Content(), s.Pos())], ends + [|s.file.bytes|];
      FaultlessIsExact(before, end, ops[|outs| - 1], out, State(s.Content(), s.Pos()));
    }
  }

  lemma FaultlessIsExact(st: State, end: nat, op: Op, out: Outcome, st': State)
    ensures Faultless(st, end, op, out, st') && end == |st.content| ==> Exact(st, op, out, st')
  {}

  /** The simplest program that goes wrong: one byte put into an empty file, and SEEK_END takes it back to the start. */
  method SeekEndMissesBuffer(c: byte) returns (s: Stream, rc: int, ghost size: int)
    ensures fresh(s) && fresh(s.file)
    ensures s.file.faults == 0 ==> rc == 0 && s.Valid() && s.Content() == [c] && s.Pos() == 0
  {
    var file := new OpenFile([], 0);
    s := new Stream.Fdopen(file, false, false);
    rc := s.Fputc(c);
    rc, size := s.Fseek(0, WhenceEnd);
  }
}
