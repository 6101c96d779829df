/** select: polls that outlive the call that queued them, while the kernel completes them at any moment. */
module Select {
  import opened Common

  const PENDING: Word := 0
  const STARTED: Word := 16
  const POLLDONE: Word := 477
  const POLLDONEMAX: Word := 484

  const R: bv3 := 1
  const W: bv3 := 2
  const X: bv3 := 4

  /** A descriptor. `queue` is the kernel's: the masks of the polls that its channel has outstanding. */
  datatype Fd = Fd(open: bool, pollpendmask: bv3, pollstatus: Word, queue: seq<bv3>)

  /** The completion of one poll: by the kernel some time later, or as the answer to the request itself. */
  datatype Report = Report(fd: nat, status: Word, atOnce: bool)

  predicate Says(r: Report, fd: nat, status: Word) {
    r.fd == fd && r.status == status
  }

  datatype Verdict = Ready | Nothing | Failed(status: Word)

  predicate IsDone(status: Word) {
    POLLDONE <= status <= POLLDONEMAX
  }

  function Bits(status: Word): bv3 {
    if IsDone(status) then (status - POLLDONE) as bv3 else 0
  }

  /** The index of the report on this descriptor that no call has handed out yet is `news`. */
  ghost predicate Good(f: Fd, news: Option<nat>, fd: nat, reports: seq<Report>, handed: set<nat>) {
    && |f.queue| <= 1
    && (f.queue != [] <==> f.pollpendmask != 0 && f.pollstatus == PENDING)
    && (f.queue != [] ==> f.queue[0] == f.pollpendmask)
    && (news.Some? <==> f.pollpendmask != 0 && f.pollstatus != PENDING)
    && (news.Some? ==> news.value < |reports| && Says(reports[news.value], fd, f.pollstatus))
    && (news.Some? ==> news.value !in handed)
  }

  /** The report handed out for descriptor `i`, if one was, has the bit. */
  ghost predicate Told(given: map<nat, nat>, reports: seq<Report>, i: nat, bit: bv3) {
    i in given && given[i] < |reports| && Bits(reports[given[i]].status) & bit != 0
  }

  function Ones(s: seq<bool>): nat {
    if s == [] then 0 else Ones(s[..|s| - 1]) + if s[|s| - 1] then 1 else 0
  }

  /** Of the bits below `upto`, those are left whose descriptor was reported to have it; the others are as they were. */
  ghost predicate Kept(was: seq<bool>, now: seq<bool>, upto: nat, given: map<nat, nat>, reports: seq<Report>,
                       bit: bv3) {
    && |now| == |was|
    && forall i :: 0 <= i < |now| ==> now[i] == (was[i] && (i < upto ==> Told(given, reports, i, bit)))
  }

  lemma KeptStep(was: seq<bool>, now: seq<bool>, fd: nat, given: map<nat, nat>, given': map<nat, nat>,
                 reports: seq<Report>, reports': seq<Report>, bit: bv3, bits: bv3, polled: bool)
    requires fd < |now| && Kept(was, now, fd, given, reports, bit) && reports <= reports' && (now[fd] ==> polled)
    requires forall i :: 0 <= i < fd ==>
               (i in given' <==> i in given) && (i in given ==> given[i] == given'[i] < |reports|)
    requires if fd in given' then given'[fd] < |reports'| && bits == Bits(reports'[given'[fd]].status)
             else polled ==> bits == 0
    ensures Kept(was, now[fd := now[fd] && bits & bit != 0], fd + 1, given', reports', bit)
    ensures Ones(now[fd := now[fd] && bits & bit != 0][..fd + 1]) ==
            Ones(now[..fd]) + if now[fd] && bits & bit != 0 then 1 else 0
  {
    hide Bits;
    var now' := now[fd := now[fd] && bits & bit != 0];
    assert now'[..fd + 1][..fd] == now[..fd];
    forall i | 0 <= i < fd ensures Told(given', reports', i, bit) == Told(given, reports, i, bit) {}
    assert polled ==> Told(given', reports', fd, bit) == (bits & bit != 0);
  }

  /** One descriptor's completions, later on: a poll that was outstanding may have completed. */
  ghost predicate Later(f: Fd, news: Option<nat>, count: nat, f': Fd, news': Option<nat>) {
    && f'.open == f.open && f'.pollpendmask == f.pollpendmask
    && (f.queue == [] ==> f' == f && news' == news)
    && (f.queue != [] ==> NewPoll(f', news', count))
  }

  /** The poll is outstanding, or its report came after the first `count` of all. */
  ghost predicate NewPoll(f: Fd, news: Option<nat>, count: nat) {
    f.queue != [] || (news.Some? && news.value >= count)
  }

  /** The poll is outstanding, or its report has put the flag up, or came at once. */
  ghost predicate IsWatched(f: Fd, news: Option<nat>, reports: seq<Report>, flag: bool) {
    f.queue != [] || flag || (news.Some? && news.value < |reports| && reports[news.value].atOnce)
  }

  lemma WatchedLater(f: Fd, news: Option<nat>, reports: seq<Report>, flag: bool, f': Fd, news': Option<nat>,
                     reports': seq<Report>, flag': bool)
    requires IsWatched(f, news, reports, flag) && Later(f, news, |reports|, f', news') && reports <= reports'
    requires (flag ==> flag') && forall r :: |reports| <= r < |reports'| && !reports'[r].atOnce ==> flag'
    requires news'.Some? ==> news'.value < |reports'|
    ensures IsWatched(f', news', reports', flag')
  {}

  /** A poll that failed, and had asked for all that is wanted. */
  ghost predicate Sticks(f: Fd, mask: bv3) {
    mask != 0 && f.pollpendmask & mask == mask && f.pollstatus != PENDING && !IsDone(f.pollstatus)
  }

  /** A poll that has reported something of what is wanted, and had asked for all of it. */
  ghost predicate Waits(f: Fd, mask: bv3) {
    f.pollpendmask & mask == mask && Bits(f.pollstatus) & mask != 0
  }

  /** What queueing polls does to one descriptor: an old poll that asks for all that is wanted, whatever has come of it,
      is left alone; otherwise there is a new one, for just what is wanted. */
  ghost predicate Served(f: Fd, news: Option<nat>, count: nat, f': Fd, news': Option<nat>, mask: bv3) {
    && f'.open == f.open
    && if f.pollpendmask & mask == mask then Later(f, news, count, f', news')
       else f'.pollpendmask == mask && NewPoll(f', news', count)
  }

  /** ... and to all: those below `upto` have been served. */
  ghost predicate Queued(was: seq<Fd>, news: seq<Option<nat>>, count: nat, now: seq<Fd>, news': seq<Option<nat>>,
                         masks: seq<bv3>, upto: nat) {
    && |news| == |was| == |now| == |news'| && upto <= |masks| <= |was|
    && forall i :: 0 <= i < |was| ==> Served(was[i], news[i], count, now[i], news'[i], if i < upto then masks[i] else 0)
  }

  lemma ServedLater(f: Fd, news: Option<nat>, count: nat, f': Fd, news': Option<nat>, mask: bv3, count': nat, f'': Fd,
                    news'': Option<nat>)
    requires Served(f, news, count, f', news', mask) && count <= count' && Later(f', news', count', f'', news'')
    ensures Served(f, news, count, f'', news'', mask)
  {}

  lemma QueuedStep(was: seq<Fd>, news: seq<Option<nat>>, count: nat, now: seq<Fd>, news': seq<Option<nat>>, count': nat,
                   now': seq<Fd>, news'': seq<Option<nat>>, masks: seq<bv3>, fd: nat)
    requires Queued(was, news, count, now, news', masks, fd) && fd < |masks| && count <= count'
    requires |now'| == |now| && |news''| == |news'|
    requires forall i :: 0 <= i < |now| && i != fd ==> Later(now[i], news'[i], count', now'[i], news''[i])
    requires Served(now[fd], news'[fd], count', now'[fd], news''[fd], masks[fd])
    ensures Queued(was, news, count, now', news'', masks, fd + 1)
  {
    assert Served(was[fd], news[fd], count, now[fd], news'[fd], 0);
    forall i | 0 <= i < |was|
      ensures Served(was[i], news[i], count, now'[i], news''[i], if i < fd + 1 then masks[i] else 0)
    {
      if i != fd {
        var mask := if i < fd then masks[i] else 0;
        ServedLater(was[i], news[i], count, now[i], news'[i], mask, count', now'[i], news''[i]);
      }
    }
  }

  /** What is in the three sets. */
  datatype Bitmaps = Bitmaps(r: seq<bool>, w: seq<bool>, x: seq<bool>)

  ghost predicate AllKept(was: Bitmaps, now: Bitmaps, upto: nat, given: map<nat, nat>, reports: seq<Report>) {
    && Kept(was.r, now.r, upto, given, reports, R)
    && Kept(was.w, now.w, upto, given, reports, W)
    && Kept(was.x, now.x, upto, given, reports, X)
  }

  predicate Wanted(sets: Bitmaps, fd: nat) {
    && fd < |sets.r| && fd < |sets.w| && fd < |sets.x|
    && (sets.r[fd] || sets.w[fd] || sets.x[fd])
  }

  function Total(sets: Bitmaps, n: nat): nat
    requires n <= |sets.r| && n <= |sets.w| && n <= |sets.x|
  {
    Ones(sets.r[..n]) + Ones(sets.w[..n]) + Ones(sets.x[..n])
  }

  function KeepBit(s: seq<bool>, fd: nat, told: bool): seq<bool>
    requires fd < |s|
  {
    s[fd := s[fd] && told]
  }

  function KeepBits(sets: Bitmaps, fd: nat, bits: bv3): Bitmaps
    requires fd < |sets.r| && fd < |sets.w| && fd < |sets.x|
  {
    Bitmaps(KeepBit(sets.r, fd, bits & R != 0), KeepBit(sets.w, fd, bits & W != 0), KeepBit(sets.x, fd, bits & X != 0))
  }

  lemma AllKeptStep(was: Bitmaps, now: Bitmaps, fd: nat, given: map<nat, nat>, given': map<nat, nat>,
                    reports: seq<Report>, reports': seq<Report>, bits: bv3, polled: bool)
    requires fd < |now.r| && fd < |now.w| && fd < |now.x| && AllKept(was, now, fd, given, reports)
    requires reports <= reports'
    requires Wanted(now, fd) ==> polled
    requires forall i :: 0 <= i < fd ==>
               (i in given' <==> i in given) && (i in given ==> given[i] == given'[i] < |reports|)
    requires if fd in given' then given'[fd] < |reports'| && bits == Bits(reports'[given'[fd]].status)
             else polled ==> bits == 0
    ensures AllKept(was, KeepBits(now, fd, bits), fd + 1, given', reports')
    ensures Total(KeepBits(now, fd, bits), fd + 1) == Total(now, fd)
              + (if now.r[fd] && bits & R != 0 then 1 else 0) + (if now.w[fd] && bits & W != 0 then 1 else 0)
              + (if now.x[fd] && bits & X != 0 then 1 else 0)
  {
    hide Bits, Kept, Ones;
    KeptStep(was.r, now.r, fd, given, given', reports, reports', R, bits, polled);
    KeptStep(was.w, now.w, fd, given, given', reports, reports', W, bits, polled);
    KeptStep(was.x, now.x, fd, given, given', reports, reports', X, bits, polled);
  }

  /** The reports handed out, one for a descriptor, are of that descriptor and were not handed out before. */
  ghost predicate GivenOut(given: map<nat, nat>, upto: nat, reports: seq<Report>, before: set<nat>, after: set<nat>) {
    && (forall i :: i in given ==> i < upto && given[i] < |reports| && reports[given[i]].fd == i && given[i] !in before)
    && after == before + given.Values
  }

  lemma GivenStep(given: map<nat, nat>, fd: nat, index: Option<nat>, reports: seq<Report>, reports': seq<Report>,
                  before: set<nat>, after: set<nat>, after': set<nat>)
    returns (given': map<nat, nat>)
    requires GivenOut(given, fd, reports, before, after) && reports <= reports'
    requires after' == after + if index.Some? then {index.value} else {}
    requires index.Some? ==> index.value < |reports'| && reports'[index.value].fd == fd && index.value !in after
    ensures GivenOut(given', fd + 1, reports', before, after')
    ensures fd in given' <==> index.Some?
    ensures given' == if index.Some? then given[fd := index.value] else given
    ensures forall i :: 0 <= i < fd ==>
              (i in given' <==> i in given) && (i in given ==> given[i] == given'[i] < |reports|)
  {
    given' := if index.Some? then given[fd := index.value] else given;
    if index.Some? {
      assert forall i :: i in given ==> given[i] in given.Values;
      assert fd in given' && fd !in given;
      forall k | k in given'.Values ensures k in given.Values + {index.value} {}
      forall k | k in given.Values + {index.value} ensures k in given'.Values {
        if k != index.value {
          var i :| i in given && given[i] == k;
          assert i in given' && given'[i] == k;
        } else {
          assert given'[fd] == k;
        }
      }
    }
  }

  /** Bits are counted one by one. */
  lemma {:induction false} OnesCount(s: seq<bool>)
    ensures Ones(s) == |set i: nat | i < |s| && s[i]|
  {
    if s != [] {
      var n := |s| - 1;
      OnesCount(s[..n]);
      var before, all := set i: nat | i < n && s[..n][i], set i: nat | i < |s| && s[i];
      assert all == before + if s[n] then {n} else {};
    }
  }

  /** The eight ways in which a poll can be done; their bits are those of the number. */
  lemma BitsAre(m: nat)
    requires m < 8
    ensures IsDone(POLLDONE + m) && Bits(POLLDONE + m) as int == m
    ensures (Bits(POLLDONE + m) & R != 0 <==> m % 2 == 1) && (Bits(POLLDONE + m) & W != 0 <==> m / 2 % 2 == 1)
    ensures Bits(POLLDONE + m) & X != 0 <==> m / 4 == 1
    ensures forall status: Word :: Bits(status) != 0 ==> 477 < status <= 484
  {
    if m < 4 {
      if m == 0 {} else if m == 1 {} else if m == 2 {}
    } else {
      if m == 4 {} else if m == 5 {} else if m == 6 {}
    }
  }

  lemma {:induction false} OnesAt(s: seq<bool>, i: nat)
    requires i < |s|
    ensures s[i] ==> Ones(s) > 0
  {
    if i < |s| - 1 { OnesAt(s[..|s| - 1], i); }
  }

  lemma NothingGiven(was: Bitmaps, reports: seq<Report>, handed: set<nat>)
    ensures AllKept(was, was, 0, map[], reports) && GivenOut(map[], 0, reports, handed, handed) && Total(was, 0) == 0
  {}

  lemma OthersWanted(sets: Bitmaps, fd: nat, bits: bv3, n: nat)
    requires fd < |sets.r| && fd < |sets.w| && fd < |sets.x|
    ensures forall i :: fd < i < n && Wanted(KeepBits(sets, fd, bits), i) ==> Wanted(sets, i)
  {}

  class FdSets {
    const readfds: array<bool>
    const writefds: array<bool>
    const exceptfds: array<bool>

    constructor (readfds: array<bool>, writefds: array<bool>, exceptfds: array<bool>)
      ensures this.readfds == readfds && this.writefds == writefds && this.exceptfds == exceptfds
    {
      this.readfds, this.writefds, this.exceptfds := readfds, writefds, exceptfds;
    }

    predicate Holds(n: nat) {
      && n <= readfds.Length && n <= writefds.Length && n <= exceptfds.Length
      && readfds != writefds && readfds != exceptfds && writefds != exceptfds
    }

    function Now(): Bitmaps
      reads readfds, writefds, exceptfds
    {
      Bitmaps(readfds[..], writefds[..], exceptfds[..])
    }

    ghost function Masks(n: nat): (r: seq<bv3>)
      requires Holds(n)
      reads readfds, writefds, exceptfds
      ensures |r| == n && forall i :: 0 <= i < n ==> r[i] == Mask(i)
    {
      seq(n, i requires 0 <= i < n reads readfds, writefds, exceptfds => Mask(i))
    }

    function Mask(fd: nat): bv3
      requires Holds(fd + 1)
      reads readfds, writefds, exceptfds
    {
      (if readfds[fd] then R else 0) | (if writefds[fd] then W else 0) | (if exceptfds[fd] then X else 0)
    }

    /** Each bit asked about comes from its own set. */
    lemma MaskIs(fd: nat)
      requires Holds(fd + 1)
      ensures (Mask(fd) & R != 0 <==> readfds[fd]) && (Mask(fd) & W != 0 <==> writefds[fd])
      ensures (Mask(fd) & X != 0 <==> exceptfds[fd]) && (Mask(fd) != 0 <==> Wanted(Now(), fd))
    {}
  }

  class Poller {
    const fds: array<Fd>
    /** The timer of the call in progress: its status, and whether the kernel has it. */
    var timerstatus: Word
    var timerOn: bool
    /** The event flag that a call waits for: set by completions, but not by answers given at once. */
    var flag: bool
    /** Every completion there has been, the one of each descriptor not handed out yet, and those handed out. */
    ghost var reports: seq<Report>
    ghost var news: seq<Option<nat>>
    ghost var handed: set<nat>

    ghost predicate Valid()
      reads this, fds
    {
      && |news| == fds.Length && (timerOn ==> timerstatus == PENDING) && (forall k :: k in handed ==> k < |reports|)
      && forall fd :: 0 <= fd < fds.Length ==> Good(fds[fd], news[fd], fd, reports, handed)
    }

    /** What the kernel may have done since: complete polls, and the timer. */
    twostate predicate Since()
      reads this, fds
    {
      && |news| == old(|news|) == fds.Length && handed == old(handed) && old(reports) <= reports
      && (forall fd :: 0 <= fd < fds.Length ==> Later(old(fds[fd]), old(news[fd]), old(|reports|), fds[fd], news[fd]))
      && (timerOn ==> old(timerOn))
      && (timerOn == old(timerOn) ==> timerstatus == old(timerstatus))
      && (timerOn != old(timerOn) ==> timerstatus != PENDING)
    }

    constructor (size: nat)
      ensures Valid() && fresh(fds) && fds.Length == size && reports == [] && handed == {} && !timerOn
    {
      fds := new Fd[size](_ => Fd(false, 0, PENDING, []));
      timerstatus, timerOn, flag := PENDING, false, false;
      reports, news, handed := [], seq(size, _ => None), {};
    }

    /** A descriptor that is allocated starts out clear. */
    method Open(fd: nat)
      requires Valid() && fd < fds.Length && fds[fd].queue == []
      modifies this`news, fds
      ensures Valid() && fds[fd] == Fd(true, 0, PENDING, [])
      ensures forall i :: 0 <= i < fds.Length && i != fd ==> fds[i] == old(fds[i]) && news[i] == old(news[i])
    {
      fds[fd] := Fd(true, 0, PENDING, []);
      news := news[fd := None];
    }

    /** Nothing has taken the flag down, and what was completed has put it up. */
    twostate predicate Woken()
      reads this
    {
      && (old(flag) ==> flag)
      && forall r :: old(|reports|) <= r < |reports| && !reports[r].atOnce ==> flag
    }

    /** The kernel completes the poll of one descriptor. */
    method Complete(fd: nat, status: Word)
      requires Valid() && fd < fds.Length && fds[fd].queue != [] && status != PENDING
      modifies this`reports, this`news, this`flag, fds
      ensures Valid() && Since() && fds[fd].queue == [] && fds[fd].pollstatus == status && flag
      ensures reports == old(reports) + [Report(fd, status, false)]
      ensures forall i :: 0 <= i < fds.Length && i != fd ==> fds[i] == old(fds[i]) && news[i] == old(news[i])
    {
      Answer(fd, status, false);
      flag := true;
    }

    /** The status of a poll is filled in. */
    method Answer(fd: nat, status: Word, atOnce: bool)
      requires Valid() && fd < fds.Length && fds[fd].queue != [] && status != PENDING
      modifies this`reports, this`news, fds
      ensures Valid() && Since() && fds[fd].queue == [] && fds[fd].pollstatus == status
      ensures reports == old(reports) + [Report(fd, status, atOnce)] && news[fd] == Some(|old(reports)|)
      ensures forall i :: 0 <= i < fds.Length && i != fd ==> fds[i] == old(fds[i]) && news[i] == old(news[i])
    {
      fds[fd] := fds[fd].(pollstatus := status, queue := fds[fd].queue[1..]);
      news := news[fd := Some(|reports|)];
      reports := reports + [Report(fd, status, atOnce)];
    }

    /** No poll is outstanding. */
    ghost predicate Idle()
      reads fds
    {
      forall i :: 0 <= i < fds.Length ==> fds[i].queue == []
    }

    /** The kernel completes whatever it likes. */
    method Tick()
      requires Valid()
      modifies this`reports, this`news, this`flag, this`timerstatus, this`timerOn, fds
      ensures Valid() && Since() && Woken()
      ensures old(!timerOn && Idle()) ==> flag == old(flag) && reports == old(reports)
    {
      var i := 0;
      while i < fds.Length
        invariant 0 <= i <= fds.Length && Valid() && Since() && Woken()
        invariant old(Idle()) ==> flag == old(flag) && reports == old(reports)
        invariant timerOn == old(timerOn) && timerstatus == old(timerstatus)
      {
        var completes: bool := *;
        var status: Word := *;
        if completes && status != PENDING && fds[i].queue != [] { Complete(i, status); }
        i := i + 1;
      }
      var expires: bool := *;
      var status: Word := *;
      if expires && status != PENDING && timerOn { timerOn, timerstatus, flag := false, status, true; }
    }

    /** oz_sys_io_abort, and the wait for it to have taken effect, which takes the flag down each time. */
    method AbortPoll(fd: nat)
      requires Valid() && fd < fds.Length
      modifies this`reports, this`news, this`flag, this`timerstatus, this`timerOn, fds
      ensures Valid() && Since() && fds[fd].queue == []
    {
      Tick();
      if fds[fd].queue != [] {
        var status: Word := *;
        if status == PENDING { status := STARTED; }
        Complete(fd, status);
        flag := *;
      }
    }

    /** Queue a poll: the kernel may take it, and complete it there and then, or may answer at once. */
    method StartPoll(fd: nat, mask: bv3)
      requires Valid() && fd < fds.Length && fds[fd].queue == [] && mask != 0
      modifies this`reports, this`news, this`flag, fds
      ensures Valid() && handed == old(handed) && old(reports) <= reports && |news| == old(|news|)
      ensures fds[fd].open == old(fds[fd].open) && fds[fd].pollpendmask == mask
              && NewPoll(fds[fd], news[fd], old(|reports|))
      ensures Woken()
      ensures reports == old(reports) || (|reports| == |old(reports)| + 1 && news[fd] == Some(|old(reports)|))
      ensures reports != old(reports) && reports[|old(reports)|].atOnce ==> flag == old(flag)
      ensures forall i :: 0 <= i < fds.Length && i != fd ==> fds[i] == old(fds[i]) && news[i] == old(news[i])
    {
      fds[fd] := fds[fd].(pollpendmask := mask, pollstatus := PENDING, queue := fds[fd].queue + [mask]);
      news := news[fd := None];
      var status: Word := *;
      if status == STARTED {
        var done: Word := *;
        if done != PENDING { Complete(fd, done); }
      } else if status != PENDING {
        Answer(fd, status, true);
      }
    }

    /** What a call relies on once its polls are queued: each descriptor it asks about is open and polled for that
        much. */
    ghost predicate Polled(sets: FdSets, upto: nat)
      requires sets.Holds(upto) && upto <= fds.Length
      reads fds, sets.readfds, sets.writefds, sets.exceptfds
    {
      forall i {:trigger sets.Mask(i)} :: 0 <= i < upto ==>
        sets.Mask(i) != 0 ==> fds[i].open && fds[i].pollpendmask & sets.Mask(i) == sets.Mask(i)
    }

    /** Nothing is handed out, no report is lost, and no timer starts. */
    twostate predicate Onward()
      reads this
    {
      && handed == old(handed) && old(reports) <= reports && (timerOn ==> old(timerOn))
      && (timerOn == old(timerOn) ==> timerstatus == old(timerstatus))
      && (timerOn != old(timerOn) ==> timerstatus != PENDING)
    }

    /** Every descriptor is as open as before, and nothing but the kernel's completions has happened to any but `fd`. */
    twostate predicate OthersPolled(fd: nat)
      reads this, fds
    {
      && |news| == old(|news|) == fds.Length
      && forall i :: 0 <= i < fds.Length ==>
           && fds[i].open == old(fds[i].open)
           && (i != fd ==> Later(old(fds[i]), old(news[i]), old(|reports|), fds[i], news[i]))
    }

    /** The first descriptor asked about has a poll that sticks. */
    ghost predicate Stuck(i: nat, n: nat, sets: FdSets)
      requires sets.Holds(n) && n <= fds.Length
      reads fds, sets.readfds, sets.writefds, sets.exceptfds
    {
      i < n && Sticks(fds[i], sets.Mask(i)) && First(i, sets)
    }

    /** No descriptor before it is asked about. */
    ghost predicate First(i: nat, sets: FdSets)
      requires sets.Holds(i)
      reads sets.readfds, sets.writefds, sets.exceptfds
    {
      forall j :: 0 <= j < i ==> sets.Mask(j) == 0
    }

    /** Every descriptor asked about is open. */
    ghost predicate AllOpen(n: nat, sets: FdSets)
      requires sets.Holds(n) && n <= fds.Length
      reads fds, sets.readfds, sets.writefds, sets.exceptfds
    {
      forall i {:trigger sets.Mask(i)} :: 0 <= i < n && sets.Mask(i) != 0 ==> fds[i].open
    }

    /** Something that the caller wants has been reported, by a poll that asked for all of it. */
    ghost predicate Due(i: nat, n: nat, sets: FdSets)
      requires sets.Holds(n) && n <= fds.Length
      reads fds, sets.readfds, sets.writefds, sets.exceptfds
    {
      i < n && Waits(fds[i], sets.Mask(i))
    }

    /** The descriptors that have something for the caller already. */
    ghost function AllDue(n: nat, sets: FdSets): (due: set<nat>)
      requires Valid() && sets.Holds(n) && n <= fds.Length
      reads this, fds, sets.readfds, sets.writefds, sets.exceptfds
      ensures forall i: nat {:trigger Due(i, n, sets)} :: Due(i, n, sets) <==> i in due
    {
      set i: nat | i < n && Due(i, n, sets)
    }

    lemma EveryDueIsDone(n: nat, sets: FdSets)
      requires Valid() && sets.Holds(n) && n <= fds.Length
      ensures forall i: nat {:trigger Due(i, n, sets)} :: Due(i, n, sets) ==>
                i < n && fds[i].pollpendmask != 0 && IsDone(fds[i].pollstatus)
      ensures forall i: nat {:trigger Stuck(i, n, sets)} :: Stuck(i, n, sets) ==> i < n
    {
      DueIsQuiet(n, sets);
      hide Valid, IsDone, Waits;
      forall i: nat | Due(i, n, sets) ensures i < n && fds[i].pollpendmask != 0 && IsDone(fds[i].pollstatus) {}
    }

    lemma DueIsQuiet(n: nat, sets: FdSets)
      requires Valid() && sets.Holds(n) && n <= fds.Length
      ensures forall i <- AllDue(n, sets) ::
                i < n && fds[i].queue == [] && sets.Mask(i) != 0 && fds[i].pollpendmask != 0
                && IsDone(fds[i].pollstatus) && Bits(fds[i].pollstatus) & sets.Mask(i) != 0
    {
      hide Valid, Bits, IsDone;
      forall i | i in AllDue(n, sets)
        ensures i < n && fds[i].queue == [] && sets.Mask(i) != 0 && fds[i].pollpendmask != 0
                && IsDone(fds[i].pollstatus) && Bits(fds[i].pollstatus) & sets.Mask(i) != 0
      {
        assert Due(i, n, sets);
        DueIsDone(i, n, sets);
      }
    }

    lemma DueIsDone(i: nat, n: nat, sets: FdSets)
      requires Valid() && sets.Holds(n) && n <= fds.Length && Due(i, n, sets)
      ensures fds[i].pollpendmask != 0 && IsDone(fds[i].pollstatus) && fds[i].pollstatus != PENDING
      ensures fds[i].queue == [] && sets.Mask(i) != 0
    {
      ReportedIsDone(fds[i].pollstatus, sets.Mask(i), fds[i].pollpendmask);
    }

    /** A poll for what the caller wants takes the place of one that may be outstanding for something else. */
    method Requeue(fd: nat, mask: bv3)
      requires Valid() && fd < fds.Length && mask != 0
      modifies this`reports, this`news, this`flag, this`timerstatus, this`timerOn, fds
      ensures Valid() && Onward() && OthersPolled(fd) && fds[fd].pollpendmask == mask
      ensures NewPoll(fds[fd], news[fd], old(|reports|))
    {
      if fds[fd].pollpendmask != 0 { AbortPoll(fd); }
      StartPoll(fd, mask);
    }

    /** The descriptor that is stuck, if one is: there can be no other. */
    lemma FindStuck(n: nat, sets: FdSets) returns (stuck: bool, i: nat)
      requires Valid() && n <= fds.Length && sets.Holds(n)
      ensures stuck ==> Stuck(i, n, sets) && fds[i].queue == []
      ensures forall k: nat {:trigger Stuck(k, n, sets)} :: Stuck(k, n, sets) ==> stuck && k == i
    {
      hide IsDone;
      stuck, i := false, 0;
      if k: nat :| Stuck(k, n, sets) { stuck, i := true, k; }
    }

    /** One turn of the first scan. It fails on a descriptor that is not open. */
    method QueueOne(fd: nat, mask: bv3, ghost was: seq<Fd>, ghost wasNews: seq<Option<nat>>, ghost count: nat,
                    ghost masks: seq<bv3>)
      returns (ok: bool)
      requires Valid() && fd < fds.Length && count <= |reports| && fd < |masks| && masks[fd] == mask
      requires Queued(was, wasNews, count, fds[..], news, masks, fd)
      modifies this`reports, this`news, this`flag, this`timerstatus, this`timerOn, fds
      ensures Valid() && Onward()
      ensures Queued(was, wasNews, count, fds[..], news, masks, if ok then fd + 1 else fd)
      ensures forall i :: 0 <= i < fds.Length ==>
                fds[i].open == old(fds[i].open) && (i != fd ==> fds[i].pollpendmask == old(fds[i].pollpendmask))
      ensures ok <==> mask == 0 || fds[fd].open
      ensures ok && mask != 0 ==> fds[fd].pollpendmask & mask == mask
    {
      hide Queued;
      ghost var now, nowNews, nowCount := fds[..], news, |reports|;
      ok := true;
      if mask != 0 {
        if !fds[fd].open { return false; }
        if fds[fd].pollpendmask & mask != mask { Requeue(fd, mask); }
      }
      QueuedStep(was, wasNews, count, now, nowNews, nowCount, fds[..], news, masks, fd);
    }

    /** The first scan: queue polls, up to a descriptor that is not open. */
    method QueuePolls(n: nat, sets: FdSets) returns (ok: bool, ghost reached: nat)
      requires Valid() && n <= fds.Length && sets.Holds(n)
      modifies this`reports, this`news, this`flag, this`timerstatus, this`timerOn, fds
      ensures Valid() && Onward() && reached <= n
      ensures Queued(old(fds[..]), old(news), old(|reports|), fds[..], news, sets.Masks(n), reached)
      ensures if ok then reached == n && Polled(sets, n)
              else reached < n && sets.Mask(reached) != 0 && !fds[reached].open
      ensures ok <==> old(AllOpen(n, sets))
    {
      NothingQueued(n, sets);
      hide Valid, Served, Later, Queued;
      ghost var was, wasNews, count, masks := fds[..], news, |reports|, sets.Masks(n);
      var fd := 0;
      while fd < n
        invariant 0 <= fd <= n && Valid() && Onward() && Polled(sets, fd)
        invariant Queued(was, wasNews, count, fds[..], news, masks, fd)
        invariant forall i :: 0 <= i < fds.Length ==> fds[i].open == was[i].open
      {
        ok := QueueOne(fd, sets.Mask(fd), was, wasNews, count, masks);
        if !ok { return false, fd; }
        fd := fd + 1;
      }
      ok, reached := true, n;
    }

    lemma NothingQueued(n: nat, sets: FdSets)
      requires Valid() && n <= fds.Length && sets.Holds(n)
      ensures |news| == fds.Length && Queued(fds[..], news, |reports|, fds[..], news, sets.Masks(n), 0)
    {
      hide IsDone;
    }

    /** What has become of one poll: not done, failed, done with something wanted, or else queued again. */
    method Examine(fd: nat, mask: bv3) returns (verdict: Verdict)
      requires Valid() && fd < fds.Length && mask != 0 && fds[fd].pollpendmask & mask == mask
      modifies this`reports, this`news, this`flag, this`timerstatus, this`timerOn, fds
      ensures Valid() && Onward() && OthersPolled(fd) && fds[fd].pollpendmask & mask == mask
      ensures verdict == Ready ==> fds[fd].pollpendmask != 0 && Bits(fds[fd].pollstatus) & mask != 0
      ensures verdict.Failed? ==>
                verdict.status == fds[fd].pollstatus && !IsDone(verdict.status) && verdict.status != PENDING
      ensures old(fds[fd].pollstatus) != PENDING && !IsDone(old(fds[fd].pollstatus)) ==>
                verdict.Failed? && fds[fd] == old(fds[fd])
      ensures IsDone(old(fds[fd].pollstatus)) && Bits(old(fds[fd].pollstatus)) & mask != 0 ==>
                verdict == Ready && fds[fd] == old(fds[fd])
      ensures Woken() && (verdict == Nothing ==> NewPoll(fds[fd], news[fd], old(|reports|)))
      ensures old(!timerOn && Idle() && IsDone(fds[fd].pollstatus) && Bits(fds[fd].pollstatus) & mask == 0) ==>
                && verdict == Nothing && (fds[fd].queue != [] ==> reports == old(reports))
                && (fds[fd].queue == [] ==>
                      && news[fd] == Some(|old(reports)|) && |reports| == |old(reports)| + 1
                      && (reports[|old(reports)|].atOnce ==> flag == old(flag)))
    {
      Tick();
      var status := fds[fd].pollstatus;
      if status == PENDING { return Nothing; }
      if !IsDone(status) { return Failed(status); }
      if Bits(status) & mask != 0 { return Ready; }
      StartPoll(fd, mask);
      verdict := Nothing;
    }

    /** Every descriptor below `upto` that is asked about has its poll outstanding, unless the flag is up or the poll
        was answered at once. */
    ghost predicate Watched(upto: nat, sets: FdSets)
      requires sets.Holds(upto) && upto <= fds.Length
      reads this, fds, sets.readfds, sets.writefds, sets.exceptfds
    {
      && |news| == fds.Length
      && forall k {:trigger sets.Mask(k)} :: 0 <= k < upto && sets.Mask(k) != 0 ==>
           IsWatched(fds[k], news[k], reports, flag)
    }

    ghost predicate SomeReady(n: nat, sets: FdSets)
      requires sets.Holds(n) && n <= fds.Length
      reads fds, sets.readfds, sets.writefds, sets.exceptfds
    {
      exists i {:trigger sets.Mask(i)} :: 0 <= i < n && Bits(fds[i].pollstatus) & sets.Mask(i) != 0
    }

    /** One turn of that pass, which goes over what is not asked about. */
    method ScanTurn(fd: nat, ghost n: nat, sets: FdSets) returns (verdict: Verdict)
      requires Valid() && fd < n <= fds.Length && sets.Holds(n) && Polled(sets, n) && Watched(fd, sets)
      modifies this`reports, this`news, this`flag, this`timerstatus, this`timerOn, fds
      ensures Valid() && Onward() && Polled(sets, n)
      ensures verdict == Ready ==> SomeReady(n, sets)
      ensures verdict.Failed? ==> !IsDone(verdict.status) && fds[fd].pollstatus == verdict.status
      ensures verdict != Nothing ==> sets.Mask(fd) != 0
      ensures forall i :: 0 <= i < n && i != fd && old(fds[i].queue) == [] ==> fds[i] == old(fds[i])
      ensures sets.Mask(fd) != 0 && Sticks(old(fds[fd]), sets.Mask(fd)) ==> verdict.Failed? && fds[fd] == old(fds[fd])
      ensures sets.Mask(fd) != 0 && Waits(old(fds[fd]), sets.Mask(fd)) ==>
                verdict == Ready && fds[fd] == old(fds[fd])
      ensures verdict == Nothing ==> Watched(fd + 1, sets)
    {
      NewsInReports();
      hide Valid, Polled, SomeReady, IsDone, Sticks, Waits, Watched;
      var mask := sets.Mask(fd);
      if mask == 0 {
        NoneAsked(fd + 1, sets);
        verdict := Nothing;
      } else {
        verdict := ScanOne(fd, n, sets);
      }
    }

    method ScanOne(fd: nat, ghost n: nat, sets: FdSets) returns (verdict: Verdict)
      requires Valid() && fd < n <= fds.Length && sets.Holds(n) && Polled(sets, n) && sets.Mask(fd) != 0
      requires Watched(fd, sets)
      modifies this`reports, this`news, this`flag, this`timerstatus, this`timerOn, fds
      ensures Valid() && Onward() && Polled(sets, n)
      ensures verdict == Ready ==> SomeReady(n, sets)
      ensures verdict.Failed? ==> !IsDone(verdict.status) && fds[fd].pollstatus == verdict.status
      ensures forall i :: 0 <= i < n && i != fd && old(fds[i].queue) == [] ==> fds[i] == old(fds[i])
      ensures Sticks(old(fds[fd]), sets.Mask(fd)) ==> verdict.Failed? && fds[fd] == old(fds[fd])
      ensures Waits(old(fds[fd]), sets.Mask(fd)) ==> verdict == Ready && fds[fd] == old(fds[fd])
      ensures verdict == Nothing ==> Watched(fd + 1, sets)
    {
      hide Valid, Bits, IsDone;
      if Waits(fds[fd], sets.Mask(fd)) {
        ReportedIsDone(fds[fd].pollstatus, sets.Mask(fd), fds[fd].pollpendmask);
      }
      var mask := sets.Mask(fd);
      ghost var was, wasNews, wasReports, wasFlag := fds[..], news, reports, flag;
      verdict := Examine(fd, mask);
      assert sets.Mask(fd) == mask;
      if verdict == Nothing { StillWatched(was, wasNews, wasReports, wasFlag, fd, sets); }
    }

    /** One turn of a pass, for the descriptors looked at before it. */
    lemma StillWatched(was: seq<Fd>, wasNews: seq<Option<nat>>, wasReports: seq<Report>, wasFlag: bool, fd: nat,
                       sets: FdSets)
      requires Valid() && fd < fds.Length == |was| == |wasNews| && sets.Holds(fd + 1) && wasReports <= reports
      requires forall k :: 0 <= k < fd && sets.Mask(k) != 0 ==> IsWatched(was[k], wasNews[k], wasReports, wasFlag)
      requires forall k :: 0 <= k < fd ==> Later(was[k], wasNews[k], |wasReports|, fds[k], news[k])
      requires (wasFlag ==> flag) && forall r :: |wasReports| <= r < |reports| && !reports[r].atOnce ==> flag
      requires NewPoll(fds[fd], news[fd], |wasReports|)
      ensures Watched(fd + 1, sets)
    {
      hide Later, IsDone;
      NewsInReports();
      hide Valid;
      forall k {:trigger sets.Mask(k)} | 0 <= k < fd + 1 && sets.Mask(k) != 0
        ensures IsWatched(fds[k], news[k], reports, flag)
      {
        if k < fd { WatchedLater(was[k], wasNews[k], wasReports, wasFlag, fds[k], news[k], reports, flag); }
      }
    }

    lemma NewsInReports()
      requires Valid()
      ensures |news| == fds.Length && forall k :: 0 <= k < fds.Length && news[k].Some? ==> news[k].value < |reports|
    {
      hide IsDone;
    }

    /** One pass over the polls; the kernel may complete any of them meanwhile. */
    method Scan(n: nat, sets: FdSets) returns (verdict: Verdict)
      requires Valid() && n <= fds.Length && sets.Holds(n) && Polled(sets, n)
      modifies this`reports, this`news, this`flag, this`timerstatus, this`timerOn, fds
      ensures Valid() && Onward() && Polled(sets, n)
      ensures verdict == Ready ==> SomeReady(n, sets)
      ensures verdict.Failed? ==>
                !IsDone(verdict.status) && exists i :: 0 <= i < n && fds[i].pollstatus == verdict.status
      ensures forall i: nat {:trigger old(Stuck(i, n, sets))} :: old(Stuck(i, n, sets)) ==>
                i < n && verdict.Failed? && fds[i] == old(fds[i])
      ensures forall i: nat {:trigger old(Due(i, n, sets))} :: old(Due(i, n, sets)) ==>
                i < n && verdict != Nothing && fds[i] == old(fds[i]) && (First(i, sets) ==> verdict == Ready)
      ensures verdict == Nothing ==> Watched(n, sets)
    {
      ghost var stuck, i := FindStuck(n, sets);
      ghost var due := AllDue(n, sets);
      DueIsQuiet(n, sets);
      assert forall k <- due :: Due(k, n, sets);
      assert forall k <- due :: Waits(fds[k], sets.Mask(k));
      TakeDown(n, sets);
      hide Valid, Bits, IsDone, Polled, SomeReady, AllDue, Sticks, Waits, Watched;
      verdict := ScanAll(n, sets, if stuck then {i} else {}, due);
    }

    /** The flag is taken down before anything is looked at, so that nothing that comes later is missed. */
    method TakeDown(n: nat, sets: FdSets)
      requires Valid() && n <= fds.Length && sets.Holds(n) && Polled(sets, n)
      modifies this`flag
      ensures Valid() && Polled(sets, n) && !flag
    {
      flag := false;
    }

    /** The pass itself. It ends at the latest at a poll that has failed for good, or that has reported something. */
    method ScanAll(n: nat, sets: FdSets, ghost stuck: set<nat>, ghost due: set<nat>) returns (verdict: Verdict)
      requires Valid() && n <= fds.Length && sets.Holds(n) && Polled(sets, n)
      requires forall k <- stuck :: k < n && fds[k].queue == [] && Sticks(fds[k], sets.Mask(k))
      requires forall k <- stuck :: First(k, sets)
      requires forall k <- due :: k < n && fds[k].queue == [] && Waits(fds[k], sets.Mask(k)) && sets.Mask(k) != 0
      modifies this`reports, this`news, this`flag, this`timerstatus, this`timerOn, fds
      ensures Valid() && Onward() && Polled(sets, n)
      ensures verdict == Ready ==> SomeReady(n, sets)
      ensures verdict.Failed? ==>
                !IsDone(verdict.status) && exists i :: 0 <= i < n && fds[i].pollstatus == verdict.status
      ensures forall k <- stuck :: verdict.Failed? && fds[k] == old(fds[k])
      ensures forall k <- due ::
                verdict != Nothing && fds[k] == old(fds[k]) && (First(k, sets) ==> verdict == Ready)
      ensures verdict == Nothing ==> Watched(n, sets)
    {
      assert forall k <- stuck :: sets.Mask(k) != 0;
      NewsInReports();
      hide Valid, IsDone, Polled, SomeReady, Sticks, Waits, IsWatched, Watched;
      NoneAsked(0, sets);
      var fd := 0;
      while fd < n
        invariant 0 <= fd <= n && Valid() && Onward() && Polled(sets, n)
        invariant forall k <- stuck :: fd <= k && fds[k] == old(fds[k])
        invariant forall k <- due :: fd <= k && fds[k] == old(fds[k])
        invariant Watched(fd, sets)
      {
        verdict := ScanTurn(fd, n, sets);
        if verdict != Nothing { return; }
        fd := fd + 1;
      }
      verdict := Nothing;
    }

    /** What is not asked about need not be watched. */
    lemma NoneAsked(upto: nat, sets: FdSets)
      requires sets.Holds(upto) && upto <= fds.Length == |news|
      ensures upto == 0 || (Watched(upto - 1, sets) && sets.Mask(upto - 1) == 0) ==> Watched(upto, sets)
    {}

    /** Reads how one poll has come out. If it is done, the next call is to queue another: its report is handed out. */
    method Take(fd: nat) returns (bits: bv3, ghost index: Option<nat>)
      requires Valid() && fd < fds.Length
      modifies this`reports, this`news, this`flag, this`handed, this`timerstatus, this`timerOn, fds
      ensures Valid() && old(reports) <= reports && OthersPolled(fd) && (old(!timerOn) ==> !timerOn)
      ensures index.Some? ==> index.value < |reports| && index.value !in old(handed) && fds[fd].pollpendmask == 0
      ensures index.Some? ==> reports[index.value].fd == fd && bits == Bits(reports[index.value].status)
      ensures handed == old(handed) + if index.Some? then {index.value} else {}
      ensures index.None? && old(fds[fd].pollpendmask) != 0 ==> bits == 0
      ensures old(fds[fd].pollpendmask) != 0 && IsDone(old(fds[fd].pollstatus)) ==>
                index.Some? && reports[index.value].status == old(fds[fd].pollstatus)
      ensures forall i ::
                0 <= i < fds.Length && i != fd && old(fds[i].pollpendmask) != 0 && IsDone(old(fds[i].pollstatus)) ==>
                fds[i] == old(fds[i])
    {
      hide Idle, Woken;
      Tick();
      index := None;
      var sts := (fds[fd].pollstatus - POLLDONE) % 0x1_0000_0000;
      if sts > POLLDONEMAX - POLLDONE { return 0, None; }
      bits := sts as bv3;
      index := news[fd];
      news := news[fd := None];
      handed := handed + if index.Some? then {index.value} else {};
      fds[fd] := fds[fd].(pollpendmask := 0);
    }

    /** Bits of one descriptor stay if they were reported, and count if they stay. */
    static method Keep(fd: nat, sets: FdSets, bits: bv3) returns (count: nat)
      requires sets.Holds(fd + 1)
      modifies sets.readfds, sets.writefds, sets.exceptfds
      ensures sets.Now() == old(KeepBits(sets.Now(), fd, bits))
      ensures count == (if old(sets.readfds[fd]) && bits & R != 0 then 1 else 0)
                + (if old(sets.writefds[fd]) && bits & W != 0 then 1 else 0)
                + (if old(sets.exceptfds[fd]) && bits & X != 0 then 1 else 0)
    {
      var r := KeepIn(sets.readfds, fd, bits & R != 0);
      var w := KeepIn(sets.writefds, fd, bits & W != 0);
      var x := KeepIn(sets.exceptfds, fd, bits & X != 0);
      count := r + w + x;
    }

    static method KeepIn(a: array<bool>, fd: nat, told: bool) returns (count: nat)
      requires fd < a.Length
      modifies a
      ensures a[..] == old(KeepBit(a[..], fd, told)) && count == if old(a[fd]) && told then 1 else 0
    {
      count := 0;
      if a[fd] {
        if told { count := 1; } else { a[fd] := false; }
      }
    }

    lemma WantedIsPolled(n: nat, sets: FdSets)
      requires n <= fds.Length && sets.Holds(n) && Polled(sets, n)
      ensures forall i :: 0 <= i < n && Wanted(sets.Now(), i) ==> fds[i].pollpendmask != 0
    {
      forall i | 0 <= i < n && Wanted(sets.Now(), i) ensures fds[i].pollpendmask != 0 {
        assert sets.Mask(i) != 0;
      }
    }

    /** The polls that were done before are handed out below `upto`, and still as they were above it. */
    twostate predicate Settled(given: map<nat, nat>, upto: nat)
      reads this, fds
    {
      forall i :: 0 <= i < fds.Length && old(fds[i].pollpendmask) != 0 && IsDone(old(fds[i].pollstatus)) ==>
        if i < upto then
          i in given && given[i] < |reports| && Says(reports[given[i]], i, old(fds[i].pollstatus))
        else fds[i] == old(fds[i])
    }

    /** One turn of the last scan. */
    method CollectOne(fd: nat, ghost n: nat, sets: FdSets, ghost given: map<nat, nat>, ghost was: Bitmaps,
                      ghost before: set<nat>)
      returns (count: nat, ghost given': map<nat, nat>)
      requires Valid() && fd < n <= fds.Length && sets.Holds(fd + 1)
      requires Wanted(sets.Now(), fd) ==> fds[fd].pollpendmask != 0
      requires GivenOut(given, fd, reports, before, handed) && AllKept(was, sets.Now(), fd, given, reports)
      modifies this`reports, this`news, this`flag, this`handed, this`timerstatus, this`timerOn, fds
      modifies sets.readfds, sets.writefds, sets.exceptfds
      ensures Valid() && old(reports) <= reports && OthersPolled(fd) && (old(!timerOn) ==> !timerOn)
      ensures GivenOut(given', fd + 1, reports, before, handed) && AllKept(was, sets.Now(), fd + 1, given', reports)
      ensures Total(sets.Now(), fd + 1) == old(Total(sets.Now(), fd)) + count
      ensures forall i :: fd < i < n && Wanted(sets.Now(), i) ==> old(Wanted(sets.Now(), i))
      ensures forall i :: 0 <= i < fd ==>
                (i in given' <==> i in given) && (i in given ==> given[i] == given'[i] < |old(reports)|)
      ensures old(fds[fd].pollpendmask) != 0 && IsDone(old(fds[fd].pollstatus)) ==>
                fd in given' && given'[fd] < |reports| && Says(reports[given'[fd]], fd, old(fds[fd].pollstatus))
      ensures forall i ::
                0 <= i < fds.Length && i != fd && old(fds[i].pollpendmask) != 0 && IsDone(old(fds[i].pollstatus)) ==>
                fds[i] == old(fds[i])
    {
      hide Valid, Bits, IsDone, AllKept, GivenOut, Total, KeepBits, Wanted;
      ghost var reports0, handed0, polled, now := reports, handed, fds[fd].pollpendmask != 0, sets.Now();
      ghost var index;
      var bits: bv3;
      bits, index := Take(fd);
      given' := GivenStep(given, fd, index, reports0, reports, before, handed0, handed);
      AllKeptStep(was, now, fd, given, given', reports0, reports, bits, polled);
      count := Keep(fd, sets, bits);
      OthersWanted(now, fd, bits, n);
    }

    /** The last scan: hand out what has been reported. */
    method Collect(n: nat, sets: FdSets) returns (rc: nat, ghost given: map<nat, nat>)
      requires Valid() && n <= fds.Length && sets.Holds(n) && Polled(sets, n)
      modifies this`reports, this`news, this`flag, this`handed, this`timerstatus, this`timerOn, fds
      modifies sets.readfds, sets.writefds, sets.exceptfds
      ensures Valid() && old(reports) <= reports && (old(!timerOn) ==> !timerOn)
      ensures GivenOut(given, n, reports, old(handed), handed) && Settled(given, n)
      ensures AllKept(old(sets.Now()), sets.Now(), n, given, reports) && rc == Total(sets.Now(), n)
    {
      hide Valid, Bits, IsDone, AllKept, GivenOut, Total, Wanted, Polled;
      given := map[];
      rc := 0;
      var fd := 0;
      NothingGiven(sets.Now(), reports, handed);
      WantedIsPolled(n, sets);
      while fd < n
        invariant 0 <= fd <= n && Valid() && old(reports) <= reports && (old(!timerOn) ==> !timerOn)
        invariant forall i :: fd <= i < n && Wanted(sets.Now(), i) ==> fds[i].pollpendmask != 0
        invariant GivenOut(given, fd, reports, old(handed), handed) && Settled(given, fd)
        invariant AllKept(old(sets.Now()), sets.Now(), fd, given, reports) && rc == Total(sets.Now(), fd)
      {
        var count;
        count, given := CollectOne(fd, n, sets, given, old(sets.Now()), old(handed));
        rc := rc + count;
        fd := fd + 1;
      }
    }

    /** Each call has a timer status of its own, which asks for a timer if there is a timeout. */
    method ResetTimer(timeout: bool)
      requires Valid()
      modifies this`timerstatus, this`timerOn
      ensures Valid() && !timerOn && timerstatus == if timeout then STARTED else PENDING
    {
      timerOn, timerstatus := false, if timeout then STARTED else PENDING;
    }

    /** The timer: the kernel may take it, and even complete it there and then, or may answer at once. */
    method StartTimer()
      requires Valid() && !timerOn
      modifies this`timerstatus, this`timerOn, this`flag
      ensures Valid() && (timerOn <==> timerstatus == PENDING) && (old(flag) ==> flag)
    {
      timerOn, timerstatus := true, PENDING;
      var done: bool := *;
      var status: Word := *;
      var later: bool := *;
      if done && status != PENDING {
        timerOn, timerstatus := false, status;
        if later { flag := true; }
      }
    }

    /** oz_sys_io_abort, and the wait for it to have taken effect. */
    method AbortTimer()
      requires Valid() && timerOn
      modifies this`reports, this`news, this`flag, this`timerstatus, this`timerOn, fds
      ensures Valid() && Since() && !timerOn
      ensures forall i :: 0 <= i < fds.Length && old(fds[i].pollpendmask) != 0 && IsDone(old(fds[i].pollstatus)) ==>
                fds[i] == old(fds[i])
    {
      Tick();
      if timerOn {
        timerOn, timerstatus := false, STARTED;
        flag := *;
      }
    }

    /** A bit that is wanted and has been reported is one that is left. */
    static lemma ReadyIsLeft(n: nat, was: Bitmaps, now: Bitmaps, i: nat, given: map<nat, nat>, reports: seq<Report>)
      requires i < n && n <= |was.r| && n <= |was.w| && n <= |was.x| && AllKept(was, now, n, given, reports)
      requires i in given && given[i] < |reports|
      requires Bits(reports[given[i]].status)
               & ((if was.r[i] then R else 0) | (if was.w[i] then W else 0) | (if was.x[i] then X else 0)) != 0
      ensures Total(now, n) > 0
    {
      hide Bits;
      OnesAt(now.r[..n], i);
      OnesAt(now.w[..n], i);
      OnesAt(now.x[..n], i);
      assert now.r[..n][i] || now.w[..n][i] || now.x[..n][i];
    }

    /** A timer that is still running is stopped; polls that are done stay so. */
    method StopTimer(n: nat, sets: FdSets, timeout: bool)
      requires Valid() && n <= fds.Length && sets.Holds(n) && Polled(sets, n)
      requires if timeout then timerOn <==> timerstatus == PENDING else !timerOn
      modifies this`reports, this`news, this`flag, this`timerstatus, this`timerOn, fds
      ensures Valid() && Polled(sets, n) && !timerOn && handed == old(handed) && old(reports) <= reports
      ensures forall i :: 0 <= i < fds.Length && old(fds[i].pollpendmask) != 0 && IsDone(old(fds[i].pollstatus)) ==>
                fds[i] == old(fds[i])
    {
      hide Valid;
      if timerstatus == PENDING && timeout { AbortTimer(); }
    }

    /** What is done when a poll has come out, or the time has: stop the timer and hand out what has been reported. */
    method Finish(n: nat, sets: FdSets, timeout: bool) returns (rc: nat, ghost given: map<nat, nat>)
      requires Valid() && n <= fds.Length && sets.Holds(n) && Polled(sets, n)
      requires if timeout then timerOn <==> timerstatus == PENDING else !timerOn
      modifies this`reports, this`news, this`flag, this`handed, this`timerstatus, this`timerOn, fds
      modifies sets.readfds, sets.writefds, sets.exceptfds
      ensures Valid() && old(reports) <= reports && GivenOut(given, n, reports, old(handed), handed) && !timerOn
      ensures AllKept(old(sets.Now()), sets.Now(), n, given, reports) && rc == Total(sets.Now(), n)
      ensures old(SomeReady(n, sets)) ==> rc > 0
      ensures Settled(given, n)
    {
      hide Valid, AllKept, GivenOut, Total, Bits, IsDone, Since, Polled;
      ghost var i, f := FindReady(n, sets);
      StopTimer(n, sets, timeout);
      rc, given := Collect(n, sets);
      if f.Some? { ReadyIsLeft(n, old(sets.Now()), sets.Now(), i, given, reports); }
    }

    /** A descriptor that has something for the caller, if there is one. */
    lemma FindReady(n: nat, sets: FdSets) returns (i: nat, f: Option<Fd>)
      requires n <= fds.Length && sets.Holds(n) && Polled(sets, n)
      ensures f.Some? <==> SomeReady(n, sets)
      ensures f.Some? ==> i < n && f.value == fds[i] && f.value.pollpendmask != 0 && IsDone(f.value.pollstatus)
      ensures f.Some? ==> Bits(f.value.pollstatus) & sets.Mask(i) != 0
    {
      hide Bits;
      i, f := 0, None;
      if SomeReady(n, sets) {
        i :| 0 <= i < n && Bits(fds[i].pollstatus) & sets.Mask(i) != 0;
        ReportedIsDone(fds[i].pollstatus, sets.Mask(i), fds[i].pollpendmask);
        f := Some(fds[i]);
      }
    }

    static lemma ReportedIsDone(status: Word, mask: bv3, pendmask: bv3)
      requires Bits(status) & mask != 0
      ensures IsDone(status) && status != PENDING && mask != 0
      ensures pendmask & mask == mask ==> pendmask != 0
    {}

    /** A poll that has come out, and had asked for all that is wanted, stays as it is while polls are queued. */
    lemma LeftAlone(was: seq<Fd>, wasNews: seq<Option<nat>>, count: nat, n: nat, sets: FdSets, reached: nat, i: nat)
      requires n <= fds.Length && sets.Holds(n) && reached <= n && i < n
      requires Queued(was, wasNews, count, fds[..], news, sets.Masks(n), reached)
      requires was[i].queue == [] && was[i].pollpendmask & sets.Mask(i) == sets.Mask(i)
      ensures fds[i] == was[i]
    {
      hide NewPoll;
      assert Served(was[i], wasNews[i], count, fds[..][i], news[i], if i < reached then sets.Masks(n)[i] else 0);
    }

    /** Queues the polls, and changes none that has come out and asked for all that is wanted. */
    method QueueAll(n: nat, sets: FdSets, ghost keep: set<nat>) returns (ok: bool)
      requires Valid() && n <= fds.Length && sets.Holds(n)
      requires forall k <- keep :: Covers(k, n, sets)
      modifies this`reports, this`news, this`flag, this`timerstatus, this`timerOn, fds
      ensures Valid() && Onward() && (ok ==> Polled(sets, n)) && (ok <==> old(AllOpen(n, sets)))
      ensures forall k <- keep :: k < n && fds[k] == old(fds[k])
    {
      ghost var was, wasNews, count := fds[..], news, |reports|;
      assert forall k <- keep :: k < n && was[k].queue == []
                                 && was[k].pollpendmask & sets.Mask(k) == sets.Mask(k);
      hide Valid, Queued, Polled;
      ghost var reached;
      ok, reached := QueuePolls(n, sets);
      forall k | k in keep ensures k < n && fds[k] == was[k] {
        LeftAlone(was, wasNews, count, n, sets, reached, k);
      }
    }

    ghost predicate Covers(i: nat, n: nat, sets: FdSets)
      requires sets.Holds(n) && n <= fds.Length
      reads fds, sets.readfds, sets.writefds, sets.exceptfds
    {
      i < n && fds[i].queue == [] && fds[i].pollpendmask & sets.Mask(i) == sets.Mask(i)
    }

    /** The start of a call: what it depends on stays. */
    method Begin(n: nat, sets: FdSets, timeout: bool) returns (ok: bool)
      requires Valid() && n <= fds.Length && sets.Holds(n)
      modifies this`reports, this`news, this`flag, this`timerstatus, this`timerOn, fds
      ensures Valid() && handed == old(handed) && old(reports) <= reports && (ok ==> Polled(sets, n))
      ensures ok <==> old(AllOpen(n, sets))
      ensures !timerOn && timerstatus == if timeout then STARTED else PENDING
      ensures forall i: nat {:trigger old(Stuck(i, n, sets))} :: old(Stuck(i, n, sets)) ==>
                Stuck(i, n, sets) && i < n && fds[i] == old(fds[i])
      ensures forall i: nat {:trigger old(Due(i, n, sets))} :: old(Due(i, n, sets)) ==>
                Due(i, n, sets) && i < n && fds[i] == old(fds[i])
    {
      ghost var stuck, i := FindStuck(n, sets);
      ghost var keep := AllDue(n, sets) + if stuck then {i} else {};
      DueIsQuiet(n, sets);
      hide Valid, Sticks, Waits, Polled, AllDue;
      ResetTimer(timeout);
      assert forall k <- keep :: Covers(k, n, sets);
      ok := QueueAll(n, sets, keep);
    }

    /** The time of a wait. */
    method Wait(n: nat, sets: FdSets)
      requires Valid() && n <= fds.Length && sets.Holds(n) && Polled(sets, n) && Watched(n, sets)
      modifies this`reports, this`news, this`flag, this`timerstatus, this`timerOn, fds
      ensures Valid() && Onward() && Polled(sets, n) && Watched(n, sets)
    {
      ghost var was, wasNews, wasReports, wasFlag := fds[..], news, reports, flag;
      Tick();
      NewsInReports();
      hide Valid, IsDone;
      forall k {:trigger sets.Mask(k)} | 0 <= k < n && sets.Mask(k) != 0
        ensures IsWatched(fds[k], news[k], reports, flag)
      {
        WatchedLater(was[k], wasNews[k], wasReports, wasFlag, fds[k], news[k], reports, flag);
      }
    }

    /** Scans and waits until a poll has come out or the time has, or for good. */
    method Await(n: nat, sets: FdSets, timeout: bool, patience: nat) returns (verdict: Verdict, waiting: bool)
      requires Valid() && n <= fds.Length && sets.Holds(n) && Polled(sets, n)
      requires if timeout then timerOn <==> timerstatus == PENDING else !timerOn && timerstatus == PENDING
      modifies this`reports, this`news, this`flag, this`timerstatus, this`timerOn, fds
      ensures Valid() && handed == old(handed) && old(reports) <= reports && Polled(sets, n)
      ensures if timeout then timerOn <==> timerstatus == PENDING else !timerOn && timerstatus == PENDING
      ensures verdict == Ready ==> SomeReady(n, sets)
      ensures (waiting ==> verdict == Nothing) && (verdict == Nothing && !waiting ==> timeout)
      ensures forall i: nat {:trigger old(Stuck(i, n, sets))} :: old(Stuck(i, n, sets)) ==>
                i < n && verdict.Failed? && fds[i] == old(fds[i])
      ensures forall i: nat {:trigger old(Due(i, n, sets))} :: old(Due(i, n, sets)) ==>
                i < n && verdict != Nothing && fds[i] == old(fds[i]) && (First(i, sets) ==> verdict == Ready)
      ensures waiting ==> Watched(n, sets)
    {
      ghost var stuck, i := FindStuck(n, sets);
      ghost var due := AllDue(n, sets);
      hide Valid, SomeReady, Sticks, Waits, IsDone, AllDue, IsWatched;
      waiting := false;
      var wakeups := 0;
      while true
        invariant 0 <= wakeups <= patience && Valid() && handed == old(handed) && old(reports) <= reports
        invariant Polled(sets, n)
        invariant if timeout then timerOn <==> timerstatus == PENDING else !timerOn && timerstatus == PENDING
        invariant if wakeups == 0 then forall k :: 0 <= k < n ==> fds[k] == old(fds[k]) else !stuck && due == {}
        decreases patience - wakeups
      {
        assert stuck ==> Stuck(i, n, sets);
        assert forall k <- due :: Due(k, n, sets);
        verdict := Scan(n, sets);
        if verdict != Nothing { return; }
        if timerstatus == STARTED { StartTimer(); }
        Wait(n, sets);
        if !flag || wakeups == patience { return Nothing, true; }
        wakeups := wakeups + 1;
        if timerstatus != PENDING { return; }
      }
    }

    /** The whole call. It waits for the kernel as often as `patience` allows; a result of None is a call that is
        waiting still. One that sleeps has a poll outstanding on all it asks about, but for polls answered at once. */
    method Select(n: nat, sets: FdSets, timeout: bool, patience: nat)
      returns (rc: Option<int>, ghost given: map<nat, nat>)
      requires Valid() && n <= fds.Length && sets.Holds(n)
      modifies this`reports, this`news, this`flag, this`handed, this`timerstatus, this`timerOn, fds
      modifies sets.readfds, sets.writefds, sets.exceptfds
      ensures Valid() && old(reports) <= reports
      ensures rc.Some? && rc.value != -1 ==>
                && GivenOut(given, n, reports, old(handed), handed)
                && AllKept(old(sets.Now()), sets.Now(), n, given, reports)
                && rc.value == Total(sets.Now(), n) && !timerOn && (rc.value == 0 ==> timeout)
      ensures rc == None || rc == Some(-1) ==> sets.Now() == old(sets.Now()) && handed == old(handed)
      ensures !old(AllOpen(n, sets)) ==> rc == Some(-1)
      ensures rc == None && !flag ==>
                && |news| == fds.Length
                && forall i {:trigger sets.Mask(i)} :: 0 <= i < n && sets.Mask(i) != 0 ==>
                     fds[i].queue != [] || (news[i].Some? && news[i].value < |reports| && reports[news[i].value].atOnce)
      ensures forall i: nat {:trigger old(Stuck(i, n, sets))} :: old(Stuck(i, n, sets)) ==>
                i < n && rc == Some(-1) && fds[i] == old(fds[i])
      ensures forall i: nat {:trigger old(Due(i, n, sets))} :: old(Due(i, n, sets)) ==>
                && i < n && rc.Some? && (old(First(i, sets) && AllOpen(n, sets)) ==> rc != Some(-1))
                && if rc == Some(-1) then fds[i] == old(fds[i])
                   else
                     && rc.value > 0 && i in given && given[i] < |reports|
                     && Says(reports[given[i]], i, old(fds[i].pollstatus))
    {
      EveryDueIsDone(n, sets);
      hide Valid, AllKept, GivenOut, Total, SomeReady, Stuck, Due, First, AllOpen, Polled, IsDone, Bits;
      var ok := Begin(n, sets, timeout);
      if !ok { return Some(-1), map[]; }
      var verdict, waiting := Await(n, sets, timeout, patience);
      if verdict.Failed? { return Some(-1), map[]; }
      if waiting { return None, map[]; }
      var left;
      left, given := Finish(n, sets, timeout);
      rc := Some(left);
    }

    /** A poll that is started again and answered at once has its answer overlooked: the scan goes on as if nothing had
        come, and with the flag down the call goes to sleep, be the answer what it may. */
    static method AnswerOverlooked(p: Poller) returns (verdict: Verdict)
      requires p.Valid() && p.fds.Length == 1 && p.fds[0] == Fd(true, R | W, POLLDONE + 2, []) && !p.timerOn && !p.flag
      modifies p`reports, p`news, p`flag, p`timerstatus, p`timerOn, p.fds
      ensures verdict == Nothing
      ensures p.reports == old(p.reports) + [Report(0, POLLDONE + 1, true)] ==>
                p.fds[0].queue == [] && Bits(p.fds[0].pollstatus) & R != 0 && !p.flag
    {
      assert p.Idle();
      verdict := p.Examine(0, R);
      assert Good(p.fds[0], p.news[0], 0, p.reports, p.handed);
    }

    /** A descriptor whose poll has failed does no harm behind one that is ready. */
    static method StuckBehindReady(p: Poller, sets: FdSets, timeout: bool, patience: nat)
      returns (rc: Option<int>, ghost given: map<nat, nat>)
      requires p.Valid() && p.fds.Length == 2 && sets.Holds(2) && sets.readfds[0] && sets.readfds[1]
      requires !sets.writefds[0] && !sets.writefds[1] && !sets.exceptfds[0] && !sets.exceptfds[1]
      requires p.fds[0] == Fd(true, R, POLLDONE + 1, []) && p.fds[1] == Fd(true, R, STARTED, [])
      modifies p`reports, p`news, p`flag, p`handed, p`timerstatus, p`timerOn, p.fds
      modifies sets.readfds, sets.writefds, sets.exceptfds
      ensures rc.Some? && rc.value > 0 && 0 in given
    {
      assert sets.Mask(0) == R && sets.Mask(1) == R;
      assert p.Due(0, 2, sets) && Sticks(p.fds[1], sets.Mask(1)) && p.First(0, sets) && p.AllOpen(2, sets);
      rc, given := p.Select(2, sets, timeout, patience);
    }
  }
}
