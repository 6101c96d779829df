/** Descriptors: a table with two hints, where the first free one may be and how far it has been used. */
module FdTable {
  import opened Common

  /** One entry: the channel and driver state that it names, and whether it is in use. A clear entry is not. */
  datatype Entry = Entry(inUse: bool, file: int)

  const CLEAR := Entry(false, 0)

  /** The open descriptors and what they name. */
  type Open = map<nat, int>

  /** What a program may ask for. `Allocate` is what `open` does: take a descriptor and fill it in. */
  datatype Request = Allocate(file: int) | Free(fd: nat) | Dup(oldfd: nat) | Dup2(oldfd: nat, newfd: nat)

  datatype Outcome = Outcome(open: Open, result: int)

  function Opened(table: seq<Entry>): Open {
    map fd: nat | 0 <= fd < |table| && table[fd].inUse :: table[fd].file
  }

  lemma Change(table: seq<Entry>, fd: nat, entry: Entry)
    requires fd < |table|
    ensures Opened(table[fd := entry]) == if entry.inUse then Opened(table)[fd := entry.file] else Opened(table) - {fd}
  {}

  /** Descriptors as POSIX has them: the lowest one that is not open, from `fd` on, or `limit`. */
  function Lowest(open: Open, fd: nat, limit: nat): (r: nat)
    requires fd <= limit
    ensures fd <= r <= limit && (r < limit ==> r !in open) && (forall i :: fd <= i < r ==> i in open)
    decreases limit - fd
  {
    if fd == limit || fd !in open then fd else Lowest(open, fd + 1, limit)
  }

  function Grant(open: Open, file: int, limit: nat): Outcome {
    var fd := Lowest(open, 0, limit);
    if fd == limit then Outcome(open, -1) else Outcome(open[fd := file], fd)
  }

  lemma FirstFree(table: seq<Entry>, fd: nat)
    requires fd <= |table| && (forall i :: 0 <= i < fd ==> table[i].inUse) && (fd < |table| ==> !table[fd].inUse)
    ensures Lowest(Opened(table), 0, |table|) == fd
  {
    ghost var open := Opened(table);
    assert forall i :: 0 <= i < fd ==> i in open;
    assert fd < |table| ==> fd !in open;
  }

  /** What each request does to the open descriptors, and the value it returns. */
  function Step(open: Open, request: Request, limit: nat): Outcome {
    match request
    case Allocate(file) => Grant(open, file, limit)
    case Free(fd) => if fd in open then Outcome(open - {fd}, 1) else Outcome(open, 0)
    case Dup(oldfd) => if oldfd in open then Grant(open, open[oldfd], limit) else Outcome(open, -1)
    case Dup2(oldfd, newfd) =>
      if oldfd !in open || newfd >= limit then Outcome(open, -1)
      else if oldfd == newfd then Outcome(open - {oldfd}, newfd)
      else Outcome(open[newfd := open[oldfd]], newfd)
  }

  function Play(open: Open, requests: seq<Request>, limit: nat): (r: (Open, seq<int>))
    decreases |requests|
  {
    if requests == [] then (open, [])
    else
      var (before, results) := Play(open, requests[..|requests| - 1], limit);
      var outcome := Step(before, requests[|requests| - 1], limit);
      (outcome.open, results + [outcome.result])
  }

  /** A descriptor is granted exactly as long as some descriptor below the limit is not open, and it is the least
      such. */
  lemma GrantIsLeast(open: Open, file: int, limit: nat)
    ensures Grant(open, file, limit).result == -1 <==> forall fd :: 0 <= fd < limit ==> fd in open
    ensures var fd := Grant(open, file, limit).result;
            fd != -1 ==> 0 <= fd < limit && fd !in open && forall i :: 0 <= i < limit && i !in open ==> fd <= i
  {
    ghost var low := Lowest(open, 0, limit);
    assert low == limit ==> forall fd :: 0 <= fd < limit ==> fd in open;
    if low < limit { assert low !in open; }
  }

  /** A descriptor that is granted names what it was asked for, the file itself or that of the descriptor copied; one
      that is freed is open no more; and no request touches any other descriptor, but for the target of dup2. */
  lemma StepIs(open: Open, request: Request, limit: nat)
    ensures var Outcome(after, result) := Step(open, request, limit);
            match request
            case Allocate(file) => Gives(open, after, result, file)
            case Dup(oldfd) =>
              if oldfd in open then Gives(open, after, result, open[oldfd]) else after == open && result == -1
            case Free(fd) =>
              && fd !in after && result == (if fd in open then 1 else 0)
              && forall i :: i != fd ==> (i in after <==> i in open) && (i in open ==> after[i] == open[i])
            case Dup2(oldfd, newfd) =>
              && (oldfd !in open || newfd >= limit ==> after == open && result == -1)
              && forall i :: i != newfd ==> (i in after <==> i in open) && (i in open ==> after[i] == open[i])
  {}

  /** A new descriptor and its file, or none and no change. */
  ghost predicate Gives(open: Open, after: Open, fd: int, file: int) {
    if fd == -1 then after == open
    else
      && fd >= 0 && fd !in open && fd in after && after[fd] == file
      && forall i :: i != fd ==> (i in after <==> i in open) && (i in open ==> after[i] == open[i])
  }

  /** POSIX leaves `newfd` open on the file of `oldfd`. Here it does so exactly when the two differ: asked to copy a
      descriptor onto itself, dup2 closes it and still reports success. */
  lemma Dup2Opens(open: Open, oldfd: nat, newfd: nat, limit: nat)
    requires oldfd in open && newfd < limit
    ensures var Outcome(after, result) := Step(open, Dup2(oldfd, newfd), limit);
            && result == newfd
            && (newfd in after && after[newfd] == open[oldfd] <==> oldfd != newfd)
            && forall fd :: fd != newfd ==> (fd in after <==> fd in open) && (fd in open ==> after[fd] == open[fd])
  {}

  class Descriptors {
    var fdfirstfree: nat
    var fdhighestused: nat
    const fdarray: array<Entry>

    /** Everything below the first hint is in use, nothing from the second on is. */
    ghost predicate Valid()
      reads this, fdarray
    {
      && fdfirstfree <= fdhighestused <= fdarray.Length
      && (forall fd :: 0 <= fd < fdfirstfree ==> fdarray[fd].inUse)
      && (forall fd :: fdhighestused <= fd < fdarray.Length ==> !fdarray[fd].inUse)
    }

    /** The table as it is when a program starts. */
    constructor (nofile: nat)
      ensures Valid() && fresh(fdarray) && fdarray.Length == nofile && Opened(fdarray[..]) == map[]
    {
      fdfirstfree, fdhighestused := 0, 0;
      fdarray := new Entry[nofile](_ => CLEAR);
    }

    /** oz_crtl_fd_alloc: the new entry is clear but for being in use. */
    method Alloc() returns (fd: int)
      requires Valid()
      modifies this, fdarray
      ensures Valid() && Outcome(Opened(fdarray[..]), fd) == Grant(old(Opened(fdarray[..])), 0, fdarray.Length)
    {
      fd := fdfirstfree;
      while fd < fdhighestused && fdarray[fd].inUse
        invariant fdfirstfree <= fd <= fdhighestused
        invariant forall i :: 0 <= i < fd ==> fdarray[i].inUse
      {
        fd := fd + 1;
      }
      FirstFree(fdarray[..], fd);
      if fd == fdarray.Length { return -1; }
      if fd == fdhighestused { fdhighestused := fd + 1; }
      Change(fdarray[..], fd, Entry(true, 0));
      fdarray[fd] := Entry(true, 0);
      fdfirstfree := fd + 1;
    }

    /** A granted descriptor's entry is filled in. */
    method Fill(fd: nat, entry: Entry)
      requires Valid() && fd in Opened(fdarray[..]) && entry.inUse
      modifies fdarray
      ensures Valid() && Opened(fdarray[..]) == old(Opened(fdarray[..]))[fd := entry.file]
    {
      Change(fdarray[..], fd, entry);
      fdarray[fd] := entry;
    }

    /** oz_crtl_fd_check. Only the upper end of the table is looked at: None is an access before its beginning. */
    method Check(fd: int) returns (open: Option<bool>)
      requires Valid()
      ensures open == if fd < 0 then None else Some(fd in Opened(fdarray[..]))
    {
      if fd >= fdarray.Length { return Some(false); }
      open := if fd < 0 then None else Some(fdarray[fd].inUse);
    }

    /** oz_crtl_fd_free, which relies on `fd` being within the table. */
    method Release(fd: nat) returns (rc: int)
      requires Valid() && fd < fdarray.Length
      modifies this, fdarray
      ensures Valid() && Outcome(Opened(fdarray[..]), rc) == Step(old(Opened(fdarray[..])), Free(fd), fdarray.Length)
    {
      if !fdarray[fd].inUse { return 0; }
      Change(fdarray[..], fd, CLEAR);
      fdarray[fd] := CLEAR;
      if fd < fdfirstfree { fdfirstfree := fd; }
      rc := 1;
    }

    /** close, with a driver that has nothing to do of its own. */
    method Close(fd: int) returns (rc: Option<int>)
      requires Valid()
      modifies this, fdarray
      ensures Valid() && (rc.None? <==> fd < 0)
      ensures Opened(fdarray[..]) ==
              if fd < 0 then old(Opened(fdarray[..]))
              else Step(old(Opened(fdarray[..])), Free(fd), fdarray.Length).open
      ensures fd >= 0 ==> rc == Some(if fd in old(Opened(fdarray[..])) then 0 else -1)
    {
      var open := Check(fd);
      if open != Some(true) { return if open.None? then None else Some(-1); }
      var was := Release(fd);
      rc := Some(if was == 0 then -1 else 0);
    }

    /** None is an access before the beginning of the table. */
    method Dup(oldfd: int) returns (newfd: Option<int>)
      requires Valid()
      modifies this, fdarray
      ensures Valid() && (newfd.None? <==> oldfd < 0)
      ensures if newfd.None? then Opened(fdarray[..]) == old(Opened(fdarray[..]))
              else Outcome(Opened(fdarray[..]), newfd.value) ==
                   Step(old(Opened(fdarray[..])), Request.Dup(oldfd), fdarray.Length)
    {
      var open := Check(oldfd);
      if open != Some(true) { return if open.None? then None else Some(-1); }
      var granted := Alloc();
      assert oldfd in Opened(fdarray[..]);
      if granted >= 0 { Fill(granted, fdarray[oldfd]); }
      newfd := Some(granted);
    }

    /** None is an access before the beginning of the table: for the old descriptor, or, if that is open, the new. */
    method Dup2(oldfd: int, newfd: int) returns (rc: Option<int>)
      requires Valid()
      modifies this, fdarray
      ensures Valid()
      ensures rc.None? <==> oldfd < 0 || (newfd < 0 && oldfd in old(Opened(fdarray[..])))
      ensures rc.None? ==> Opened(fdarray[..]) == old(Opened(fdarray[..]))
      ensures rc.Some? && newfd < 0 ==> rc == Some(-1) && Opened(fdarray[..]) == old(Opened(fdarray[..]))
      ensures rc.Some? && newfd >= 0 ==>
                Outcome(Opened(fdarray[..]), rc.value) ==
                Step(old(Opened(fdarray[..])), Request.Dup2(oldfd, newfd), fdarray.Length)
    {
      var open := Check(oldfd);
      if open != Some(true) { return if open.None? then None else Some(-1); }
      if newfd >= fdarray.Length { return Some(-1); }
      if newfd < 0 { return None; }
      RaiseHighest(newfd);
      while newfd < fdhighestused && fdarray[newfd].inUse
        invariant Valid() && newfd <= fdhighestused
        invariant Opened(fdarray[..]) == old(Opened(fdarray[..]))
                  || Opened(fdarray[..]) == old(Opened(fdarray[..])) - {newfd}
        decreases newfd in Opened(fdarray[..])
      {
        var closed := Close(newfd);
        RaiseHighest(newfd);
      }
      ghost var before := fdarray[..];
      assert newfd !in Opened(before);
      assert oldfd != newfd ==> oldfd in Opened(before) && Opened(before)[oldfd] == old(Opened(fdarray[..]))[oldfd];
      Change(before, newfd, fdarray[oldfd]);
      if newfd == fdhighestused { fdhighestused := fdhighestused + 1; }
      fdarray[newfd] := fdarray[oldfd];
      assert fdarray[..] == before[newfd := before[oldfd]];
      rc := Some(newfd);
    }

    /** The entries that the table grows by on the way up to `newfd` are cleared. */
    method RaiseHighest(newfd: nat)
      requires Valid() && newfd < fdarray.Length
      modifies this`fdhighestused, fdarray
      ensures Valid() && Opened(fdarray[..]) == old(Opened(fdarray[..]))
      ensures newfd <= fdhighestused && fdhighestused >= old(fdhighestused)
    {
      if newfd > fdhighestused {
        var i := fdhighestused;
        while i < newfd
          invariant fdhighestused <= i <= newfd
          invariant forall fd :: 0 <= fd < fdarray.Length ==>
                      fdarray[fd].inUse == old(fdarray[fd].inUse) && fdarray[fd].file == old(fdarray[fd].file)
        {
          fdarray[i] := fdarray[i].(inUse := false);
          i := i + 1;
        }
        fdhighestused := newfd;
      }
    }

    method Do(request: Request) returns (result: int)
      requires Valid()
      modifies this, fdarray
      ensures Valid() && Outcome(Opened(fdarray[..]), result) == Step(old(Opened(fdarray[..])), request, fdarray.Length)
    {
      match request
      case Allocate(file) =>
        result := Alloc();
        if result >= 0 { Fill(result, Entry(true, file)); }
      case Free(fd) =>
        if fd < fdarray.Length { result := Release(fd); } else { result := 0; }
      case Dup(oldfd) =>
        var granted := Dup(oldfd);
        result := granted.value;
      case Dup2(oldfd, newfd) =>
        var rc := Dup2(oldfd, newfd);
        result := rc.value;
    }

    /** Over any run, the two hints give exactly the descriptors that searching from 0 every time would. */
    method Run(requests: seq<Request>) returns (results: seq<int>)
      requires Valid()
      modifies this, fdarray
      ensures Valid() && (Opened(fdarray[..]), results) == Play(old(Opened(fdarray[..])), requests, fdarray.Length)
    {
      results := [];
      var i := 0;
      while i < |requests|
        invariant 0 <= i <= |requests| && Valid()
        invariant (Opened(fdarray[..]), results) == Play(old(Opened(fdarray[..])), requests[..i], fdarray.Length)
      {
        var result := Do(requests[i]);
        assert requests[..i + 1][..i] == requests[..i];
        results := results + [result];
        i := i + 1;
      }
      assert requests[..i] == requests;
    }
  }
}
