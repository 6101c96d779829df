/** Delivery of signals: setsigmask and call_signal call each other over the pending and blocked sets, with one-shot
    handlers running in the middle. A handler is a list of acts, any of those a program can do; signals also arrive by
    themselves between its acts. `budget` bounds how many signals are raised and handlers installed inside a handler: a
    run that spends it is not followed further, and since it is arbitrary every run that ends is covered. */
module Signals {

  /** `handler` says which of the program's handlers is installed. */
  datatype SigAction = SigAction(handled: bool, mask: set<nat>, handler: nat)

  datatype How = Block | Unblock | SetMask | BadHow

  /** What a program or a handler does, and signals that arrive meanwhile. */
  datatype Act =
    | Mask(how: How, s: set<nat>) | Arrive(sig: nat) | Suspend(mask: set<nat>) | Action(signum: int, act: SigAction)

  predicate Fits(act: Act, nsig: nat, handlers: nat) {
    match act
    case Mask(_, s) => forall x <- s :: x < nsig
    case Arrive(sig) => sig < nsig
    case Suspend(mask) => forall x <- mask :: x < nsig
    case Action(_, act) => (forall x <- act.mask :: x < nsig) && (act.handled ==> act.handler < handlers)
  }

  /** What happened to a signal. `found` is the mask an action started from, `running` the one it ran under. */
  datatype Event = Raised(sig: nat) | Acted(sig: nat, found: set<nat>, running: set<nat>)

  /** Signals raised and not acted on since. */
  ghost function Owed(log: seq<Event>): set<nat> {
    if log == [] then {}
    else
      var last, before := log[|log| - 1], Owed(log[..|log| - 1]);
      if last.Raised? then before + {last.sig} else before - {last.sig}
  }

  lemma OwedSnoc(log: seq<Event>, e: Event)
    ensures Owed(log + [e]) == if e.Raised? then Owed(log) + {e.sig} else Owed(log) - {e.sig}
  {
    assert (log + [e])[..|log|] == log;
  }

  ghost predicate ActedSince(log: seq<Event>, from: nat, s: nat) {
    exists j :: from <= j < |log| && log[j].Acted? && log[j].sig == s
  }

  ghost predicate RaisedSince(log: seq<Event>, from: nat, s: nat) {
    exists j :: from <= j < |log| && log[j].Raised? && log[j].sig == s
  }

  ghost predicate AnyActed(log: seq<Event>, from: nat) {
    exists j :: from <= j < |log| && log[j].Acted?
  }

  /** The first thing that happened was an action on the signal, which blocked `more` while it ran. */
  ghost predicate ActedFirst(log: seq<Event>, at: nat, s: nat, mask: set<nat>, more: set<nat>) {
    at < |log| && log[at] == Acted(s, mask, mask + more)
  }

  /** The signals of `s` from number `n` on. */
  ghost function From(s: set<nat>, n: nat): set<nat> {
    set x | x in s && x >= n
  }

  ghost predicate Below(s: set<nat>, n: nat) {
    forall x <- s :: x < n
  }

  /** The signals of `s` below `n`, in ascending order. */
  ghost function Ascending(s: set<nat>, n: nat): seq<nat> {
    if n == 0 then [] else Ascending(s, n - 1) + if n - 1 in s then [n - 1] else []
  }

  lemma {:induction false} AscendingIs(s: set<nat>, n: nat)
    ensures forall i, j :: 0 <= i < j < |Ascending(s, n)| ==> Ascending(s, n)[i] < Ascending(s, n)[j]
    ensures forall x :: x in Ascending(s, n) <==> x in s && x < n
  {
    if n > 0 {
      AscendingIs(s, n - 1);
      var before := Ascending(s, n - 1);
      assert forall i :: 0 <= i < |before| ==> before[i] in before;
    }
  }

  lemma {:induction false} NoneAscending(n: nat)
    ensures Ascending({}, n) == []
  {
    if n > 0 { NoneAscending(n - 1); }
  }

  lemma AscendingNext(s: set<nat>, n: nat)
    ensures Ascending(s, n + 1) == Ascending(s, n) + if n in s then [n] else []
    ensures Ascending(s, 0) == []
  {}

  // What has been done, in full.

  /** What the routines work on. */
  datatype Now = Now(pend: set<nat>, blocked: set<nat>, actions: seq<SigAction>)

  /** A signal that was to be acted on: it was left pending, or met its default action, or its handler took `steps` and
      then the signals released by restoring the mask were called. */
  datatype Call = Call(sig: nat, was: Now, now: Now, run: Run)

  datatype Run = Pended | Default | Handled(steps: seq<Step>, calls: seq<Call>)

  /** An act, the handler's own or a signal that arrived by itself. `calls` are the signals released by it, or the one
      that arrived. A wait has those that arrived meanwhile, and those released by restoring the mask. */
  datatype Step =
    Step(act: Act, own: bool, was: Now, now: Now, calls: seq<Call>, arrivals: seq<Call>, last: seq<Call>)

  /** Calls made one after another. */
  ghost predicate Linked(calls: seq<Call>, from: Now, to: Now) {
    if calls == [] then from == to
    else Linked(calls[..|calls| - 1], from, calls[|calls| - 1].was) && calls[|calls| - 1].now == to
  }

  ghost predicate Taken(steps: seq<Step>, from: Now, to: Now) {
    if steps == [] then from == to
    else Taken(steps[..|steps| - 1], from, steps[|steps| - 1].was) && steps[|steps| - 1].now == to
  }

  ghost function Sigs(calls: seq<Call>): seq<nat> {
    seq(|calls|, i requires 0 <= i < |calls| => calls[i].sig)
  }

  /** The acts that are the handler's own, in order. */
  ghost function Own(steps: seq<Step>): seq<Act> {
    if steps == [] then []
    else Own(steps[..|steps| - 1]) + if steps[|steps| - 1].own then [steps[|steps| - 1].act] else []
  }

  ghost function Ends(calls: seq<Call>, from: Now): Now {
    if calls == [] then from else calls[|calls| - 1].now
  }

  ghost function StepsEnd(steps: seq<Step>, from: Now): Now {
    if steps == [] then from else steps[|steps| - 1].now
  }

  /** A new mask: the pending signals that it lets through are called, in ascending order. */
  ghost predicate Released(was: Now, mask: set<nat>, calls: seq<Call>, now: Now) {
    && Linked(calls, Now(was.pend * mask, mask, was.actions), now)
    && Sigs(calls) == Ascending(was.pend - mask, |was.actions|)
  }

  /** The state a handler starts in: its own signals are blocked too, and it is installed no more. */
  ghost function Entered(was: Now, sig: nat): Now
    requires sig < |was.actions|
  {
    Now(was.pend, was.blocked + was.actions[sig].mask, was.actions[sig := was.actions[sig].(handled := false)])
  }

  ghost predicate Right(c: Call, code: seq<seq<Act>>)
    decreases c
  {
    && c.sig < |c.was.actions|
    && match c.run
       case Pended => c.sig in c.was.blocked && c.now == c.was.(pend := c.was.pend + {c.sig})
       case Default => c.sig !in c.was.blocked && !c.was.actions[c.sig].handled && c.now == c.was
       case Handled(steps, calls) =>
         && c.sig !in c.was.blocked && c.was.actions[c.sig].handled && c.was.actions[c.sig].handler < |code|
         && Taken(steps, Entered(c.was, c.sig), StepsEnd(steps, Entered(c.was, c.sig)))
         && Own(steps) == code[c.was.actions[c.sig].handler]
         && Released(StepsEnd(steps, Entered(c.was, c.sig)), c.was.blocked, calls, c.now)
         && (forall s <- steps :: RightStep(s, code) && (s.own || s.act.Arrive?))
         && (forall d <- calls :: Right(d, code))
  }

  ghost predicate RightStep(s: Step, code: seq<seq<Act>>)
    decreases s
  {
    && (forall c <- s.calls :: Right(c, code))
    && (forall c <- s.arrivals :: Right(c, code))
    && (forall c <- s.last :: Right(c, code))
    && (!s.act.Suspend? ==> s.arrivals == [] && s.last == [])
    && match s.act
       case Mask(Block, x) => s.calls == [] && s.now == s.was.(blocked := s.was.blocked + x)
       case Mask(Unblock, x) => Released(s.was, s.was.blocked - x, s.calls, s.now)
       case Mask(SetMask, x) => Released(s.was, x, s.calls, s.now)
       case Mask(BadHow, _) => s.calls == [] && s.now == s.was
       case Arrive(sig) => |s.calls| == 1 && s.calls[0].sig == sig && Linked(s.calls, s.was, s.now)
       case Suspend(mask) =>
         var start := Now(s.was.pend * mask, mask, s.was.actions);
         && Released(s.was, mask, s.calls, Ends(s.calls, start))
         && Linked(s.arrivals, Ends(s.calls, start), Ends(s.arrivals, Ends(s.calls, start)))
         && Released(Ends(s.arrivals, Ends(s.calls, start)), s.was.blocked, s.last, s.now)
         && SomeActed(s.calls + s.arrivals)
       case Action(n, act) =>
         && s.calls == []
         && s.now == s.was.(actions := if 0 <= n < |s.was.actions| then s.was.actions[n := act] else s.was.actions)
  }

  // The history that is left by what has been done.

  /** What a handler of the signal has blocked while it runs; a default action blocks nothing. */
  ghost function Extra(actions: seq<SigAction>, signum: nat): set<nat> {
    if signum < |actions| && actions[signum].handled then actions[signum].mask else {}
  }

  ghost function EventsOf(c: Call): seq<Event> {
    match c.run
    case Pended => []
    case Default => [Acted(c.sig, c.was.blocked, c.was.blocked)]
    case Handled(steps, calls) =>
      var first := Acted(c.sig, c.was.blocked, c.was.blocked + Extra(c.was.actions, c.sig));
      [first] + StepsEvents(steps) + CallsEvents(calls)
  }

  ghost function CallsEvents(calls: seq<Call>): seq<Event> {
    if calls == [] then [] else CallsEvents(calls[..|calls| - 1]) + EventsOf(calls[|calls| - 1])
  }

  ghost function ArrivalsEvents(calls: seq<Call>): seq<Event> {
    if calls == [] then []
    else
      var c := calls[|calls| - 1];
      ArrivalsEvents(calls[..|calls| - 1]) + ([Raised(c.sig)] + EventsOf(c))
  }

  ghost function StepEvents(s: Step): seq<Event> {
    if s.act.Arrive? then ArrivalsEvents(s.calls)
    else CallsEvents(s.calls) + ArrivalsEvents(s.arrivals) + CallsEvents(s.last)
  }

  ghost function StepsEvents(steps: seq<Step>): seq<Event> {
    if steps == [] then [] else StepsEvents(steps[..|steps| - 1]) + StepEvents(steps[|steps| - 1])
  }

  lemma LinkedMore(calls: seq<Call>, from: Now, c: Call)
    requires Linked(calls, from, c.was)
    ensures Linked(calls + [c], from, c.now) && Sigs(calls + [c]) == Sigs(calls) + [c.sig]
    ensures CallsEvents(calls + [c]) == CallsEvents(calls) + EventsOf(c)
    ensures ArrivalsEvents(calls + [c]) == ArrivalsEvents(calls) + ([Raised(c.sig)] + EventsOf(c))
    ensures Ends(calls + [c], from) == c.now
  {
    assert (calls + [c])[..|calls|] == calls;
  }

  lemma NoCalls(from: Now)
    ensures Linked([], from, from) && Sigs([]) == [] && CallsEvents([]) == [] && ArrivalsEvents([]) == []
  {}

  lemma TakenMore(steps: seq<Step>, from: Now, s: Step)
    requires Taken(steps, from, s.was)
    ensures Taken(steps + [s], from, s.now) && Own(steps + [s]) == Own(steps) + if s.own then [s.act] else []
    ensures StepsEvents(steps + [s]) == StepsEvents(steps) + StepEvents(s) && StepsEnd(steps + [s], from) == s.now
  {
    assert (steps + [s])[..|steps|] == steps;
  }

  lemma NoSteps(from: Now)
    ensures Taken([], from, from) && Own([]) == [] && StepsEvents([]) == []
  {}

  lemma LinkedEnds(calls: seq<Call>, from: Now, to: Now)
    requires Linked(calls, from, to)
    ensures Ends(calls, from) == to
  {}

  lemma TakenEnds(steps: seq<Step>, from: Now, to: Now)
    requires Taken(steps, from, to)
    ensures StepsEnd(steps, from) == to
  {}

  ghost predicate MayWait(body: seq<Act>) {
    exists act :: act in body && act.Suspend?
  }

  ghost predicate NoneInstalled(actions: seq<SigAction>) {
    forall a <- actions :: !a.handled
  }

  /** How a routine comes to its end: it is done, waits for a signal for good, or is inside a handler that does so or
      has spent the budget. */
  datatype Ending = Done | Waits | Stopped

  class Process {
    const NSIG: nat
    const code: seq<seq<Act>>
    var pend: set<nat>
    var blocked: set<nat>
    var actions: seq<SigAction>
    /** The event flag that ends sigsuspend. */
    var wakeup: bool
    ghost var log: seq<Event>
    var budget: nat

    ghost predicate WellFormed()
      reads this
    {
      && |actions| == NSIG
      && Below(blocked, NSIG) && Below(pend, NSIG)
      && (forall i :: 0 <= i < |actions| ==> Fits(Action(i, actions[i]), NSIG, |code|))
      && (forall k :: 0 <= k < |code| ==> AllFit(code[k], NSIG, |code|))
    }

    /** What holds at every call boundary: only blocked signals are pending. */
    ghost predicate Valid()
      reads this
    {
      WellFormed() && pend <= blocked
    }

    ghost function State(): Now
      reads this
    {
      Now(pend, blocked, actions)
    }

    ghost function Installed(): set<nat>
      reads this
    {
      set s | 0 <= s < |actions| && actions[s].handled
    }

    constructor (nsig: nat, code: seq<seq<Act>>)
      requires forall k :: 0 <= k < |code| ==> AllFit(code[k], nsig, |code|)
      ensures Valid() && NSIG == nsig && this.code == code && pend == blocked == {} && log == []
      ensures NoneInstalled(actions)
    {
      NSIG, this.code := nsig, code;
      pend, blocked, log, wakeup := {}, {}, [], false;
      actions := seq(nsig, i => SigAction(false, {}, 0));
      budget := 0;
    }

    /** Why a run may not be followed to its end: the budget is spent, or some handler waits. */
    ghost predicate Spent()
      reads this
    {
      budget == 0 || exists k :: 0 <= k < |code| && MayWait(code[k])
    }

    /** The history only grows, and the recursion has less left to do. */
    twostate predicate Onward()
      reads this
    {
      old(log) <= log && (budget < old(budget) || (budget == old(budget) && Installed() <= old(Installed())))
    }

    /** No pending signal is dropped, and nothing becomes pending unless raised. */
    twostate predicate Follows()
      reads this
    {
      && Onward()
      && (forall s <- old(pend) :: s in pend || ActedSince(log, |old(log)|, s))
      && (forall s <- pend :: s in old(pend) || RaisedSince(log, |old(log)|, s))
    }

    /** The event flag is set by every action. A handler may clear it, by waiting itself; its end sets it again. */
    twostate predicate Wakes()
      reads this
    {
      wakeup <==> old(wakeup) || AnyActed(log, |old(log)|)
    }

    method SetSigMask(newMask: set<nat>, ghost late: set<nat>) returns (end: Ending, ghost calls: seq<Call>)
      requires WellFormed() && Below(newMask, NSIG)
      requires Owed(log) <= pend + late
      modifies this
      ensures Valid() && Onward() && end in {Done, Stopped} && (end.Stopped? ==> Spent())
      ensures end.Done? ==> blocked == newMask && Follows() && Wakes() && Owed(log) <= pend + late
      ensures end.Done? ==> Released(old(State()), newMask, calls, State()) && AllRight(calls, code)
      ensures end.Done? ==> log == old(log) + CallsEvents(calls)
      ensures end.Done? ==> (wakeup <==> old(wakeup) || SomeActed(calls))
      decreases budget, Installed(), 3
    {
      hide Owed, Right, Linked, CallsEvents, ArrivalsEvents, EventsOf, SomeActed, Sigs, Ascending;
      NoneActed();
      AscendingNext(pend - newMask, 0);
      blocked := newMask;
      var callmask := pend - blocked;
      pend := pend * blocked;
      calls := [];
      ghost var start := State();
      NoCalls(start);
      for signum := 0 to NSIG
        invariant Valid() && blocked == newMask && Onward()
        invariant Owed(log) <= pend + late + From(callmask, signum)
        invariant forall s <- old(pend) :: s in pend || s in From(callmask, signum) || ActedSince(log, |old(log)|, s)
        invariant forall s <- pend :: s in old(pend) || RaisedSince(log, |old(log)|, s)
        invariant wakeup <==> old(wakeup) || AnyActed(log, |old(log)|)
        invariant wakeup <==> old(wakeup) || SomeActed(calls)
        invariant Linked(calls, start, State()) && Sigs(calls) == Ascending(callmask, signum) && AllRight(calls, code)
        invariant log == old(log) + CallsEvents(calls)
      {
        AscendingNext(callmask, signum);
        if signum in callmask {
          ghost var call;
          end, call := CallReleased(signum, callmask, late);
          if !end.Done? { return Stopped, calls; }
          LinkedMore(calls, start, call);
          SomeMore(calls, call);
          calls := calls + [call];
        }
      }
      assert From(callmask, NSIG) == {};
      end := Done;
    }

    /** One of the signals that a new mask lets through. */
    method CallReleased(signum: nat, ghost callmask: set<nat>, ghost late: set<nat>)
      returns (end: Ending, ghost call: Call)
      requires Valid() && signum < NSIG && signum in callmask && callmask !! blocked
      requires Owed(log) <= pend + late + From(callmask, signum)
      modifies this
      ensures Valid() && Onward() && end in {Done, Stopped} && (end.Stopped? ==> Spent())
      ensures end.Done? ==> blocked == old(blocked) && Follows() && ActedSince(log, |old(log)|, signum)
      ensures end.Done? ==> Owed(log) <= pend + late + From(callmask, signum + 1)
      ensures end.Done? ==> call.sig == signum && call.was == old(State()) && call.now == State() && Right(call, code)
      ensures end.Done? ==> log == old(log) + EventsOf(call) && wakeup && !call.run.Pended?
      decreases budget, Installed(), 2
    {
      hide Owed, Right, EventsOf;
      assert From(callmask, signum) == From(callmask, signum + 1) + {signum};
      end, call := CallSignal(signum, late + From(callmask, signum + 1));
    }

    method CallSignal(signum: nat, ghost late: set<nat>) returns (end: Ending, ghost call: Call)
      requires Valid() && signum < NSIG
      requires Owed(log) <= pend + late + {signum}
      modifies this
      ensures Valid() && Onward() && end in {Done, Stopped} && (end.Stopped? ==> Spent())
      ensures end.Done? ==> blocked == old(blocked) && Owed(log) <= pend + late
      ensures signum in old(blocked) ==>
                end.Done? && pend == old(pend) + {signum} && unchanged(this`actions, this`wakeup, this`log, this`budget)
      ensures signum !in old(blocked) && end.Done? ==>
                && Follows() && wakeup
                && ActedFirst(log, |old(log)|, signum, old(blocked), Extra(old(actions), signum))
      ensures signum !in old(blocked) && end.Done? && budget == old(budget) ==> signum !in Installed()
      ensures end.Done? ==> call.sig == signum && call.was == old(State()) && call.now == State() && Right(call, code)
      ensures end.Done? ==> log == old(log) + EventsOf(call) && (call.run.Pended? <==> signum in old(blocked))
      ensures end.Done? && signum !in old(blocked) && old(actions[signum].handled) ==>
                call.run.Handled? && Own(call.run.steps) == code[old(actions[signum].handler)]
      decreases budget, Installed(), 1
    {
      hide Owed, Taken, Own, Linked, StepsEvents, CallsEvents, Sigs, Ascending, RightStep, Released;
      ghost var was := State();
      call := Call(signum, was, was, Pended);
      if signum in blocked {
        pend := pend + {signum};
        return Done, Call(signum, was, State(), Pended);
      }
      if !actions[signum].handled {
        OwedSnoc(log, Acted(signum, blocked, blocked));
        log := log + [Acted(signum, blocked, blocked)];
        assert blocked == blocked + {};
        end, call := Done, Call(signum, was, State(), Default);
      } else {
        ghost var running := Acted(signum, blocked, blocked + actions[signum].mask);
        OwedSnoc(log, running);
        log := log + [running];
        ghost var steps, calls;
        end, steps, calls := Enter(signum, late);
        if !end.Done? { return; }
        call := Call(signum, was, State(), Handled(steps, calls));
        assert log == old(log) + ([running] + StepsEvents(steps) + CallsEvents(calls));
      }
      assert log[|old(log)|].Acted?;
      wakeup := true;
    }

    /** A handler runs with its own signals blocked, and is installed no more; then the mask is restored. */
    method Enter(signum: nat, ghost late: set<nat>)
      returns (end: Ending, ghost steps: seq<Step>, ghost calls: seq<Call>)
      requires Valid() && signum < NSIG && actions[signum].handled && Owed(log) <= pend + late
      modifies this
      ensures Valid() && Onward() && end in {Done, Stopped} && (end.Stopped? ==> Spent())
      ensures end.Done? ==> blocked == old(blocked) && Follows() && Owed(log) <= pend + late
      ensures end.Done? && budget == old(budget) ==> signum !in Installed()
      ensures end.Done? ==>
                var entered := Entered(old(State()), signum);
                && Taken(steps, entered, StepsEnd(steps, entered)) && StepsRight(steps, code)
                && Own(steps) == code[old(actions[signum].handler)]
                && Released(StepsEnd(steps, entered), old(blocked), calls, State()) && AllRight(calls, code)
      ensures end.Done? ==> log == old(log) + (StepsEvents(steps) + CallsEvents(calls))
      decreases budget, Installed(), 0
    {
      hide Owed, Taken, Own, StepsEvents, CallsEvents, Released, Right, RightStep;
      var savemask, handler := blocked, actions[signum].handler;
      blocked := blocked + actions[signum].mask;
      assert signum in Installed();
      actions := actions[signum := actions[signum].(handled := false)];
      assert signum !in Installed() && Installed() <= old(Installed());
      ghost var entered := State();
      steps, calls := [], [];
      end, steps := RunHandler(code[handler], late);
      if !end.Done? { return; }
      TakenEnds(steps, entered, State());
      end, calls := SetSigMask(savemask, late);
    }

    /** A handler's body: its acts one after another, and whatever arrives between them. */
    method RunHandler(body: seq<Act>, ghost late: set<nat>) returns (end: Ending, ghost steps: seq<Step>)
      requires Valid() && Owed(log) <= pend + late && AllFit(body, NSIG, |code|) && body in code
      modifies this
      ensures Valid() && Onward() && end in {Done, Stopped} && (end.Stopped? ==> Spent())
      ensures end.Done? ==> Follows() && Owed(log) <= pend + late
      ensures end.Done? ==> Taken(steps, old(State()), State()) && Own(steps) == body && StepsRight(steps, code)
      ensures end.Done? ==> log == old(log) + StepsEvents(steps)
      decreases budget, Installed(), 8
    {
      hide Owed, Taken, Own, StepsEvents, StepEvents, RightStep;
      steps := [];
      var i := 0;
      NoSteps(State());
      while true
        invariant i <= |body| && Valid() && Follows() && Owed(log) <= pend + late
        invariant Taken(steps, old(State()), State()) && Own(steps) == body[..i] && StepsRight(steps, code)
        invariant log == old(log) + StepsEvents(steps)
        decreases |body| - i, budget
      {
        var arrives: bool, signum: nat := *, *;
        ghost var step;
        if arrives && budget > 0 && signum < NSIG {
          end, step := Take(Arrive(signum), false, late);
        } else if i == |body| {
          assert body[..i] == body;
          return Done, steps;
        } else {
          end, step := Take(body[i], true, late);
          i := i + 1;
        }
        if !end.Done? {
          if end.Waits? { Waiting(body, i - 1); }
          return Stopped, steps;
        }
        TakenMore(steps, old(State()), step);
        steps := steps + [step];
      }
    }

    lemma Waiting(body: seq<Act>, i: int)
      requires body in code && 0 <= i < |body| && body[i].Suspend?
      ensures Spent()
    {
      var k :| 0 <= k < |code| && code[k] == body;
      assert MayWait(code[k]);
    }

    /** One act. */
    method Take(act: Act, ghost own: bool, ghost late: set<nat>) returns (end: Ending, ghost step: Step)
      requires Valid() && Owed(log) <= pend + late && Fits(act, NSIG, |code|)
      modifies this
      ensures Valid() && Onward() && (end.Stopped? ==> Spent())
      ensures end.Done? ==> Follows() && Owed(log) <= pend + late
      ensures end.Done? ==> step.act == act && step.own == own && step.was == old(State()) && step.now == State()
      ensures end.Done? ==> RightStep(step, code) && log == old(log) + StepEvents(step)
      ensures end.Done? && act.Arrive? ==> budget < old(budget)
      ensures end.Waits? ==>
                && act.Suspend? && blocked == act.mask && !AnyActed(log, |old(log)|)
                && Follows() && Owed(log) <= pend + late
      decreases budget, Installed(), 7
    {
      hide Owed, Right, RightStep, StepEvents, EventsOf;
      ghost var was, calls, arrivals, last := State(), [], [], [];
      step := Step(act, own, was, was, [], [], []);
      match act {
        case Mask(how, s) =>
          var rc;
          rc, end, calls := SigProcMask(how, s, late);
        case Arrive(sig) =>
          if budget == 0 { return Stopped, step; }
          ghost var call;
          end, call := Raise(sig, late);
          if end.Done? {
            calls := [call];
            ArriveStep(call, code);
          }
        case Suspend(mask) =>
          end, calls, arrivals, last := SigSuspend(mask, late);
        case Action(signum, sigaction) =>
          if budget == 0 { return Stopped, step; }
          budget := budget - 1;
          var _ := Sigaction(signum, sigaction);
          end := Done;
          ActionStep(signum, sigaction, was, State(), code);
      }
      step := Step(act, own, was, State(), calls, arrivals, last);
      AnyonesStep(step, code);
    }

    /** One act of the program itself. */
    method Perform(act: Act, budget: nat) returns (end: Ending, ghost step: Step)
      requires Sound() && Fits(act, NSIG, |code|)
      modifies this
      ensures Valid() && (!end.Stopped? ==> Sound()) && (end.Stopped? ==> Spent()) && old(log) <= log
      ensures end.Done? ==> step.act == act && step.was == old(State()) && step.now == State()
      ensures end.Done? ==> RightStep(step, code) && log == old(log) + StepEvents(step)
      ensures end.Waits? ==> act.Suspend? && blocked == act.mask && !AnyActed(log, |old(log)|)
    {
      hide Owed, RightStep, StepEvents;
      this.budget := budget;
      end, step := Take(act, true, {});
    }

    /** Whatever was raised has been acted on or is pending, only blocked signals are pending, and each was raised. */
    ghost predicate Sound()
      reads this
    {
      Valid() && Owed(log) <= pend + {} && forall s <- pend :: RaisedSince(log, 0, s)
    }

    /** A signal arrives. */
    method Raise(signum: nat, ghost late: set<nat>) returns (end: Ending, ghost call: Call)
      requires Valid() && signum < NSIG && budget > 0 && Owed(log) <= pend + late
      modifies this
      ensures Valid() && Onward() && budget < old(budget) && end in {Done, Stopped} && (end.Stopped? ==> Spent())
      ensures end.Done? ==> blocked == old(blocked) && Follows() && Wakes() && Owed(log) <= pend + late
      ensures end.Done? ==> ActedSince(log, |old(log)|, signum) || signum in pend
      ensures end.Done? ==> |log| > |old(log)| && log[|old(log)|] == Raised(signum)
      ensures end.Done? ==>
                if signum in old(blocked) then
                  log == old(log) + [Raised(signum)] && actions == old(actions) && pend == old(pend) + {signum}
                else ActedFirst(log, |old(log)| + 1, signum, old(blocked), Extra(old(actions), signum))
      ensures end.Done? ==> call.sig == signum && call.was == old(State()) && call.now == State() && Right(call, code)
      ensures end.Done? ==> log == old(log) + ([Raised(signum)] + EventsOf(call))
      ensures end.Done? ==> (wakeup <==> old(wakeup) || !call.run.Pended?)
      decreases budget, Installed(), 4
    {
      hide Owed, Right, EventsOf;
      budget := budget - 1;
      OwedSnoc(log, Raised(signum));
      log := log + [Raised(signum)];
      assert log[|old(log)|] == Raised(signum);
      end, call := CallSignal(signum, late);
    }

    method Sigaction(signum: int, act: SigAction) returns (rc: int)
      requires Valid() && Fits(Action(signum, act), NSIG, |code|)
      modifies this`actions
      ensures Valid()
      ensures if 0 <= signum < NSIG then rc == 0 && actions == old(actions)[signum := act]
              else rc == -1 && actions == old(actions)
    {
      if signum < 0 || signum >= NSIG { return -1; }
      actions := actions[signum := act];
      return 0;
    }

    method SigProcMask(how: How, s: set<nat>, ghost late: set<nat>)
      returns (rc: int, end: Ending, ghost calls: seq<Call>)
      requires Valid() && Below(s, NSIG) && Owed(log) <= pend + late
      modifies this
      ensures Valid() && Onward() && end in {Done, Stopped} && (end.Stopped? ==> Spent())
      ensures end.Done? ==> Follows() && Owed(log) <= pend + late
      ensures end.Done? ==>
                forall x: nat :: x in blocked <==>
                  match how
                  case Block => x in old(blocked) || x in s
                  case Unblock => x in old(blocked) && x !in s
                  case SetMask => x in s
                  case BadHow => x in old(blocked)
      ensures rc == if how == BadHow then -1 else 0
      ensures end.Done? ==>
                var step := Step(Mask(how, s), true, old(State()), State(), calls, [], []);
                RightStep(step, code) && log == old(log) + StepEvents(step)
      decreases budget, Installed(), 4
    {
      hide Owed, Right, Linked, CallsEvents;
      rc, end, calls := 0, Done, [];
      NoCalls(State());
      match how {
        case Block =>
          blocked := blocked + s;
        case Unblock =>
          blocked := blocked - s;
          end, calls := SetSigMask(blocked, late);
        case SetMask =>
          end, calls := SetSigMask(s, late);
        case BadHow =>
          rc := -1;
      }
    }

    /** Signals that arrive while it waits are taken under `mask`; it goes on once one has been acted on, even if that
        was before the wait. */
    method SigSuspend(mask: set<nat>, ghost late: set<nat>)
      returns (end: Ending, ghost calls: seq<Call>, ghost arrivals: seq<Call>, ghost last: seq<Call>)
      requires Valid() && Below(mask, NSIG) && Owed(log) <= pend + late
      modifies this
      ensures Valid() && Onward() && (end.Stopped? ==> Spent())
      ensures !end.Stopped? ==> Follows()
      ensures end.Done? ==> AnyActed(log, |old(log)|) && blocked == old(blocked)
      ensures end.Waits? ==> blocked == mask && !AnyActed(log, |old(log)|)
      ensures !end.Stopped? ==> Owed(log) <= pend + late
      ensures end.Done? ==>
                var step := Step(Suspend(mask), true, old(State()), State(), calls, arrivals, last);
                RightStep(step, code) && log == old(log) + StepEvents(step)
      decreases budget, Installed(), 6
    {
      hide Owed, Right, Linked, CallsEvents, ArrivalsEvents, Released, SomeActed, RightStep, StepEvents;
      calls, arrivals, last := [], [], [];
      wakeup := false;
      var savemask := blocked;
      end, calls := SetSigMask(mask, late);
      if !end.Done? { return; }
      ghost var was, start := Now(old(pend), old(blocked), old(actions)), State();
      ReleasedEnds(was, mask, calls, start);
      end, arrivals := Arrivals(late);
      if !end.Done? { return; }
      LinkedEnds(arrivals, start, State());
      if !wakeup { return Waits, calls, arrivals, last; }
      SomeCalled(calls, arrivals);
      ghost var after := State();
      end, last := SetSigMask(savemask, late);
      if end.Done? { SuspendStep(mask, was, start, after, State(), calls, arrivals, last, code); }
    }

    /** The time of a wait. */
    method Arrivals(ghost late: set<nat>) returns (end: Ending, ghost calls: seq<Call>)
      requires Valid() && Owed(log) <= pend + late
      modifies this
      ensures Valid() && Onward() && end in {Done, Stopped} && (end.Stopped? ==> Spent())
      ensures end.Done? ==> Follows() && Wakes() && Owed(log) <= pend + late && blocked == old(blocked)
      ensures end.Done? ==> Linked(calls, old(State()), State()) && AllRight(calls, code)
      ensures end.Done? ==> log == old(log) + ArrivalsEvents(calls)
      ensures end.Done? ==> (wakeup <==> old(wakeup) || SomeActed(calls))
      decreases budget, Installed(), 5
    {
      hide Owed, Right, Linked, CallsEvents, ArrivalsEvents, Sigs, EventsOf, SomeActed;
      NoneActed();
      end, calls := Done, [];
      NoCalls(State());
      var count: nat :| true;
      for i := 0 to count
        invariant Valid() && blocked == old(blocked) && Follows() && Wakes() && Owed(log) <= pend + late && end.Done?
        invariant wakeup <==> old(wakeup) || SomeActed(calls)
        invariant Linked(calls, old(State()), State()) && AllRight(calls, code)
        invariant log == old(log) + ArrivalsEvents(calls)
      {
        var signum: nat := *;
        if budget > 0 && signum < NSIG {
          ghost var call;
          end, call := Raise(signum, late);
          if !end.Done? { return; }
          LinkedMore(calls, old(State()), call);
          SomeMore(calls, call);
          calls := calls + [call];
        }
      }
    }
  }

  lemma ArriveStep(c: Call, code: seq<seq<Act>>)
    requires Right(c, code)
    ensures var step := Step(Arrive(c.sig), true, c.was, c.now, [c], [], []);
            RightStep(step, code) && StepEvents(step) == [Raised(c.sig)] + EventsOf(c)
  {
    hide Right, EventsOf;
    NoCalls(c.was);
    LinkedMore([], c.was, c);
    assert [] + [c] == [c];
  }

  lemma ActionStep(n: int, act: SigAction, was: Now, now: Now, code: seq<seq<Act>>)
    requires now == was.(actions := if 0 <= n < |was.actions| then was.actions[n := act] else was.actions)
    ensures var step := Step(Action(n, act), true, was, now, [], [], []);
            RightStep(step, code) && StepEvents(step) == []
  {}

  lemma ReleasedEnds(was: Now, mask: set<nat>, calls: seq<Call>, now: Now)
    requires Released(was, mask, calls, now)
    ensures Ends(calls, Now(was.pend * mask, mask, was.actions)) == now
  {
    LinkedEnds(calls, Now(was.pend * mask, mask, was.actions), now);
  }

  lemma SuspendStep(mask: set<nat>, was: Now, start: Now, after: Now, now: Now, calls: seq<Call>, arrivals: seq<Call>,
                    last: seq<Call>, code: seq<seq<Act>>)
    requires Released(was, mask, calls, start) && Linked(arrivals, start, after) && Released(after, was.blocked, last, now)
    requires AllRight(calls, code) && AllRight(arrivals, code) && AllRight(last, code) && SomeActed(calls + arrivals)
    ensures var step := Step(Suspend(mask), true, was, now, calls, arrivals, last);
            && RightStep(step, code)
            && StepEvents(step) == CallsEvents(calls) + ArrivalsEvents(arrivals) + CallsEvents(last)
  {
    hide Right, Linked, SomeActed, Ends, CallsEvents, ArrivalsEvents, Released;
    ReleasedEnds(was, mask, calls, start);
    LinkedEnds(arrivals, start, after);
  }

  /** Whose act it was makes no difference to it. */
  lemma AnyonesStep(s: Step, code: seq<seq<Act>>)
    ensures RightStep(s.(own := true), code) <==> RightStep(s, code)
    ensures StepEvents(s.(own := true)) == StepEvents(s)
  {
    hide Right, Linked;
  }

  /** Some signal was not left pending. */
  ghost predicate SomeActed(calls: seq<Call>) {
    exists c :: c in calls && !c.run.Pended?
  }

  lemma NoneActed()
    ensures !SomeActed([])
  {}

  lemma SomeMore(calls: seq<Call>, c: Call)
    ensures SomeActed(calls + [c]) <==> SomeActed(calls) || !c.run.Pended?
  {
    assert c in calls + [c];
    assert forall d :: d in calls + [c] <==> d in calls || d == c;
  }

  lemma SomeCalled(calls: seq<Call>, arrivals: seq<Call>)
    ensures SomeActed(calls + arrivals) <==> SomeActed(calls) || SomeActed(arrivals)
  {
    assert forall d :: d in calls + arrivals <==> d in calls || d in arrivals;
  }

  /** Any program at all, from start-up, with any handlers: each act in turn does what it is for, and so does each act
      of every handler that it leads to, until the program is done or waits in sigsuspend for good. (A run is not
      followed to its end when an act takes more than the budget, or a handler waits for good.) Whatever was raised has
      been acted on or is pending, only blocked signals are pending, and each was raised. */
  method AnyProgram(nsig: nat, code: seq<seq<Act>>, program: seq<Act>, budget: nat)
    returns (p: Process, end: Ending, ghost steps: seq<Step>)
    requires AllFit(program, nsig, |code|) && forall k :: 0 <= k < |code| ==> AllFit(code[k], nsig, |code|)
    ensures fresh(p) && p.Valid() && p.NSIG == nsig && p.code == code
    ensures |steps| <= |program|
    ensures forall k :: 0 <= k < |steps| ==> steps[k].act == program[k] && RightStep(steps[k], code)
    ensures forall k :: 0 < k < |steps| ==> steps[k].was == steps[k - 1].now
    ensures steps != [] ==> steps[0].was.pend == {} && steps[0].was.blocked == {} && NoneInstalled(steps[0].was.actions)
    ensures end.Done? ==> |steps| == |program| && p.log == StepsEvents(steps)
    ensures end.Stopped? ==> p.Spent()
    ensures end.Done? && program != [] ==> p.State() == steps[|steps| - 1].now
    ensures end.Waits? ==>
              && |steps| < |program| && program[|steps|].Suspend? && p.blocked == program[|steps|].mask
              && StepsEvents(steps) <= p.log && !AnyActed(p.log, |StepsEvents(steps)|)
    ensures !end.Stopped? ==> Owed(p.log) <= p.pend <= p.blocked && forall s <- p.pend :: RaisedSince(p.log, 0, s)
  {
    hide Owed, RightStep, StepsEvents, StepEvents, Taken, Own, Process.Spent, RaisedSince, Fits, Process.WellFormed;
    p := new Process(nsig, code);
    ghost var start := p.State();
    steps := [];
    NoSteps(start);
    NothingOwed();
    var i := 0;
    while i < |program|
      invariant fresh(p) && p.Sound() && p.NSIG == nsig && p.code == code && |steps| == i <= |program|
      invariant forall k :: 0 <= k < i ==> steps[k].act == program[k] && RightStep(steps[k], code)
      invariant Taken(steps, start, p.State())
      invariant p.log == StepsEvents(steps)
    {
      TakenIs(steps, start, p.State());
      ghost var step;
      end, step := p.Perform(program[i], budget);
      if !end.Done? { return; }
      TakenMore(steps, start, step);
      steps := steps + [step];
      i := i + 1;
    }
    TakenIs(steps, start, p.State());
    end := Done;
  }

  lemma NothingOwed()
    ensures Owed([]) == {}
  {}

  // What the record means.

  /** Calls made one after another start where the one before has ended. */
  lemma {:induction false} LinkedIs(calls: seq<Call>, from: Now, to: Now)
    requires Linked(calls, from, to)
    ensures calls == [] ==> from == to
    ensures calls != [] ==> calls[0].was == from && calls[|calls| - 1].now == to
    ensures forall i :: 0 < i < |calls| ==> calls[i].was == calls[i - 1].now
  {
    if calls != [] { LinkedIs(calls[..|calls| - 1], from, calls[|calls| - 1].was); }
  }

  lemma {:induction false} TakenIs(steps: seq<Step>, from: Now, to: Now)
    requires Taken(steps, from, to)
    ensures steps == [] ==> from == to
    ensures steps != [] ==> steps[0].was == from && steps[|steps| - 1].now == to
    ensures forall i :: 0 < i < |steps| ==> steps[i].was == steps[i - 1].now
  {
    if steps != [] { TakenIs(steps[..|steps| - 1], from, steps[|steps| - 1].was); }
  }

  /** With nothing arriving by itself, a handler's steps are its acts, one by one. */
  lemma {:induction false} OwnIs(steps: seq<Step>)
    requires forall s <- steps :: s.own
    ensures |Own(steps)| == |steps| && forall k :: 0 <= k < |steps| ==> Own(steps)[k] == steps[k].act
  {
    if steps != [] { OwnIs(steps[..|steps| - 1]); }
  }

  /** Whatever a signal leads to, the mask is afterwards what it was. */
  lemma {:induction false} CallKeepsMask(c: Call, code: seq<seq<Act>>)
    requires Right(c, code)
    ensures c.now.blocked == c.was.blocked
    decreases c
  {
    hide RightStep, Taken, Own, Ascending;
    if c.run.Handled? {
      var end := StepsEnd(c.run.steps, Entered(c.was, c.sig));
      forall d | d in c.run.calls ensures d.now.blocked == d.was.blocked { CallKeepsMask(d, code); }
      CallsKeepMask(c.run.calls, Now(end.pend * c.was.blocked, c.was.blocked, end.actions), c.now);
    }
  }

  lemma {:induction false} CallsKeepMask(calls: seq<Call>, from: Now, to: Now)
    requires Linked(calls, from, to) && forall d <- calls :: d.now.blocked == d.was.blocked
    ensures to.blocked == from.blocked
  {
    if calls != [] {
      assert calls[|calls| - 1] in calls;
      CallsKeepMask(calls[..|calls| - 1], from, calls[|calls| - 1].was);
    }
  }

  lemma ReleasedMask(was: Now, mask: set<nat>, calls: seq<Call>, now: Now, code: seq<seq<Act>>)
    requires Released(was, mask, calls, now) && AllRight(calls, code)
    ensures now.blocked == mask
  {
    hide Right, Ascending, Sigs;
    forall d | d in calls ensures d.now.blocked == d.was.blocked { CallKeepsMask(d, code); }
    CallsKeepMask(calls, Now(was.pend * mask, mask, was.actions), now);
  }

  /** What each act does to the mask and the actions, whatever handlers ran in it. */
  lemma ActsAre(s: Step, code: seq<seq<Act>>)
    requires RightStep(s, code)
    ensures match s.act
            case Mask(how, m) =>
              forall x: nat :: x in s.now.blocked <==>
                (how.Block? && (x in s.was.blocked || x in m)) || (how.Unblock? && x in s.was.blocked && x !in m)
                || (how.SetMask? && x in m) || (how.BadHow? && x in s.was.blocked)
            case Arrive(sig) =>
              && s.now.blocked == s.was.blocked
              && (sig in s.was.blocked ==>
                    && s.now.pend == s.was.pend + {sig} && s.now.actions == s.was.actions
                    && StepEvents(s) == [Raised(sig)])
            case Suspend(_) => s.now.blocked == s.was.blocked
            case Action(n, act) =>
              && s.now.blocked == s.was.blocked && s.now.pend == s.was.pend
              && |s.now.actions| == |s.was.actions|
              && forall i :: 0 <= i < |s.now.actions| ==> s.now.actions[i] == if i == n then act else s.was.actions[i]
  {
    hide Right, Released;
    match s.act
    case Mask(Unblock, m) => ReleasedMask(s.was, s.was.blocked - m, s.calls, s.now, code);
    case Mask(SetMask, m) => ReleasedMask(s.was, m, s.calls, s.now, code);
    case Mask(_, _) =>
    case Arrive(sig) => ArrivalIs(s, code);
    case Suspend(mask) =>
      var before := Ends(s.arrivals, Ends(s.calls, Now(s.was.pend * mask, mask, s.was.actions)));
      ReleasedMask(before, s.was.blocked, s.last, s.now, code);
    case Action(_, _) =>
  }

  lemma ArrivalIs(s: Step, code: seq<seq<Act>>)
    requires RightStep(s, code) && s.act.Arrive?
    ensures s.now.blocked == s.was.blocked
    ensures s.act.sig in s.was.blocked ==>
              && s.now.pend == s.was.pend + {s.act.sig} && s.now.actions == s.was.actions
              && StepEvents(s) == [Raised(s.act.sig)]
  {
    var c := s.calls[0];
    assert s.calls == [c] && c in s.calls && Right(c, code);
    LinkedIs(s.calls, s.was, s.now);
    CallKeepsMask(c, code);
    assert s.calls[..|s.calls| - 1] == [] && ArrivalsEvents([]) == [];
    assert ArrivalsEvents(s.calls) == [] + ([Raised(c.sig)] + EventsOf(c));
  }

  /** A signal that is not blocked and has a handler: each act of the handler is done in turn, from the state in which
      its signals are blocked and it is installed no more, after the entry that says so and before the mask is
      restored. */
  lemma HandlerRuns(c: Call, code: seq<seq<Act>>)
    requires Right(c, code) && c.sig !in c.was.blocked && c.was.actions[c.sig].handled
    ensures c.run.Handled? && c.now.blocked == c.was.blocked && c.was.actions[c.sig].handler < |code|
    ensures var steps, mask := c.run.steps, c.was.actions[c.sig].mask;
            && Own(steps) == code[c.was.actions[c.sig].handler] && StepsRight(steps, code)
            && (steps != [] ==>
                  && steps[0].was.pend == c.was.pend && steps[0].was.blocked == c.was.blocked + mask
                  && steps[0].was.actions == c.was.actions[c.sig := c.was.actions[c.sig].(handled := false)])
            && (forall k :: 0 < k < |steps| ==> steps[k].was == steps[k - 1].now)
            && EventsOf(c) ==
                 [Acted(c.sig, c.was.blocked, c.was.blocked + mask)] + StepsEvents(steps) + CallsEvents(c.run.calls)
  {
    hide RightStep, Taken, Own, Released;
    CallKeepsMask(c, code);
    var entered := Entered(c.was, c.sig);
    TakenIs(c.run.steps, entered, StepsEnd(c.run.steps, entered));
  }

  /** A handler that only installs itself again, with nothing arriving while it runs, is installed again afterwards, and
      nothing else has changed. */
  lemma Reinstalls(c: Call, code: seq<seq<Act>>, act: SigAction)
    requires Right(c, code) && c.sig !in c.was.blocked && c.was.actions[c.sig].handled && c.was.pend <= c.was.blocked
    requires c.run.Handled? && code[c.was.actions[c.sig].handler] == [Action(c.sig, act)]
    requires forall s <- c.run.steps :: s.own
    ensures c.now == c.was.(actions := c.was.actions[c.sig := act])
  {
    HandlerRuns(c, code);
    var steps := c.run.steps;
    OwnIs(steps);
    assert RightStep(steps[0], code);
    var end := StepsEnd(steps, Entered(c.was, c.sig));
    assert end == steps[0].now && end.pend == c.was.pend;
    assert end.pend - c.was.blocked == {};
    NoneAscending(|end.actions|);
    assert end.pend * c.was.blocked == c.was.pend;
    assert |Sigs(c.run.calls)| == |c.run.calls|;
  }

  ghost predicate AllFit(body: seq<Act>, nsig: nat, handlers: nat) {
    forall act <- body :: Fits(act, nsig, handlers)
  }

  ghost predicate AllRight(calls: seq<Call>, code: seq<seq<Act>>) {
    forall c <- calls :: Right(c, code)
  }

  ghost predicate StepsRight(steps: seq<Step>, code: seq<seq<Act>>) {
    forall s <- steps :: RightStep(s, code) && (s.own || s.act.Arrive?)
  }
}
