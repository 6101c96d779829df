/** The kernel's side of an open descriptor: a plain byte file with a position.
    The stream layer only sees it through read, write and lseek, each of which may
    fail or transfer less than was asked. */
module KernelFile {
  import opened Common

  /** `d` laid over `b` starting at `p`; a gap past the end of `b` reads as zeros. */
  function Overlay(b: seq<byte>, p: nat, d: seq<byte>): (r: seq<byte>)
    ensures |d| == 0 ==> r == b
    ensures |d| > 0 ==> |r| == if p + |d| > |b| then p + |d| else |b|
    ensures forall i :: 0 <= i < |r| ==> r[i] == if p <= i < p + |d| then d[i - p] else if i < |b| then b[i] else 0
  {
    if |d| == 0 then b
    else
      seq(if p + |d| > |b| then p + |d| else |b|,
          i requires 0 <= i =>
            if p <= i < p + |d| then d[i - p] else if i < |b| then b[i] else 0)
  }

  class OpenFile {
    var bytes: seq<byte>
    var pos: nat
    /** How many times the kernel has refused a legal request so far. */
    ghost var faults: nat

    constructor (contents: seq<byte>, at: nat)
      ensures bytes == contents && pos == at && faults == 0
    {
      bytes, pos, faults := contents, at, 0;
    }

    method Lseek(target: int) returns (rc: int)
      modifies this`pos, this`faults
      ensures rc >= 0 ==> rc == target && pos == target && faults == old(faults)
      ensures rc < 0 ==> pos == old(pos) && faults == old(faults) + if target < 0 then 0 else 1
      ensures target < 0 ==> rc < 0
    {
      var fail: bool := *;
      if target < 0 {
        rc := -1;
      } else if fail {
        rc, faults := -1, faults + 1;
      } else {
        rc, pos := target, target;
      }
    }

    /** fstat's idea of where the file ends; it may fail too. */
    method Size() returns (end: int)
      modifies this`faults
      ensures if end == -1 then faults > old(faults) else end == |bytes| && faults == old(faults)
    {
      var fail: bool := *;
      if fail {
        end, faults := -1, faults + 1;
      } else {
        end := |bytes|;
      }
    }

    /** Short reads are allowed, but a count of zero means end of file. */
    method Read(buf: array<byte>) returns (rc: int)
      modifies buf, this`pos, this`faults
      ensures rc <= buf.Length
      ensures rc < 0 ==> pos == old(pos) && faults > old(faults)
      ensures rc >= 0 ==> pos == old(pos) + rc && faults == old(faults)
      ensures rc == 0 ==> buf.Length == 0 || pos >= |bytes|
      ensures rc > 0 ==> pos <= |bytes| && buf[..rc] == bytes[old(pos)..pos]
      ensures forall i :: 0 <= i < buf.Length && i >= rc ==> buf[i] == old(buf[i])
    {
      var fail: bool := *;
      if fail {
        faults := faults + 1;
        return -1;
      }
      if pos >= |bytes| || buf.Length == 0 {
        return 0;
      }
      var n: nat :| 0 < n <= buf.Length && pos + n <= |bytes|;
      forall i | 0 <= i < n { buf[i] := bytes[pos + i]; }
      pos := pos + n;
      rc := n;
    }

    /** Writes a prefix of `buf[from..upto]`; a refused or empty write counts as a fault. */
    method Write(buf: array<byte>, from: nat, upto: nat) returns (rc: int)
      requires from < upto <= buf.Length
      modifies this
      ensures rc <= upto - from
      ensures rc <= 0 ==> bytes == old(bytes) && pos == old(pos) && faults > old(faults)
      ensures rc > 0 ==> faults == old(faults) && pos == old(pos) + rc
                         && bytes == Overlay(old(bytes), old(pos), buf[from..from + rc])
    {
      rc :| -1 <= rc <= upto - from;
      if rc <= 0 {
        faults := faults + 1;
      } else {
        bytes := Overlay(bytes, pos, buf[from..from + rc]);
        pos := pos + rc;
      }
    }
  }
}
