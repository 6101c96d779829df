/** The pseudo-console database lock: one event flag swapped atomically and an owner word,
    run by any number of threads whose steps interleave between the flag and the word. */
module DbLock {
  import opened Common

  /** Where a thread is. `prev` and `v` are values the event flag had. */
  datatype Pc =
    | Idle                  // outside lockdb and unlkdb
    | Trying                // at the swap
    | Swapped(prev: int)    // has swapped the flag to zero
    | Compare(prev: int)    // about to compare the owner word with itself
    | Waiting               // waiting for the flag
    | Clearing(v: int)      // unlkdb: about to clear the owner word
    | Setting(v: int)       // unlkdb: about to set the flag

  /** `held` lists what the thread's unfinished lockdb calls returned, outermost first. */
  datatype Thread = Thread(pc: Pc, held: seq<int>)

  datatype State = State(event: int, owner: Option<nat>, threads: seq<Thread>)

  datatype Action = BeginLock | Swap | Claim | Decide | Wake | BeginUnlock | Clear | Set

  predicate Enabled(s: State, t: nat, a: Action)
    requires t < |s.threads|
  {
    var me := s.threads[t];
    match a
    case BeginLock => me.pc == Idle
    case Swap => me.pc == Trying
    case Claim => me.pc.Swapped?
    case Decide => me.pc.Compare?
    case Wake => me.pc == Waiting && s.event != 0
    case BeginUnlock => me.pc == Idle && me.held != []
    case Clear => me.pc.Clearing?
    case Set => me.pc.Setting?
  }

  /** One atomic step of thread `t`. Unlocks are paired with locks, innermost first. */
  function Act(s: State, t: nat, a: Action): State
    requires t < |s.threads| && Enabled(s, t, a)
  {
    var me := s.threads[t];
    match a
    case BeginLock => s.(threads := s.threads[t := me.(pc := Trying)])
    case Swap => s.(event := 0, threads := s.threads[t := me.(pc := Swapped(s.event))])
    case Claim =>
      s.(owner := if me.pc.prev > 0 then Some(t) else s.owner,
         threads := s.threads[t := me.(pc := Compare(me.pc.prev))])
    case Decide =>
      if s.owner == Some(t) then s.(threads := s.threads[t := Thread(Idle, me.held + [me.pc.prev])])
      else s.(threads := s.threads[t := me.(pc := Waiting)])
    case Wake => s.(threads := s.threads[t := me.(pc := Trying)])
    case BeginUnlock =>
      var v := me.held[|me.held| - 1];
      var held := me.held[..|me.held| - 1];
      s.(threads := s.threads[t := Thread(if v > 0 then Clearing(v) else Idle, held)])
    case Clear => s.(owner := None, threads := s.threads[t := me.(pc := Setting(me.pc.v))])
    case Set => s.(event := me.pc.v, threads := s.threads[t := me.(pc := Idle)])
  }

  ghost predicate Init(s: State) {
    s.event == 1 && s.owner == None && forall t :: 0 <= t < |s.threads| ==> s.threads[t] == Thread(Idle, [])
  }

  ghost predicate Next(s: State, s': State) {
    exists t: nat, a :: t < |s.threads| && Enabled(s, t, a) && s' == Act(s, t, a)
  }

  /** A finite run of the system from its initial state. */
  ghost predicate Run(run: seq<State>) {
    run != [] && Init(run[0]) && forall i :: 0 <= i < |run| - 1 ==> Next(run[i], run[i + 1])
  }

  /** The thread has the token that is otherwise in the event flag. */
  predicate HasToken(me: Thread) {
    || me.held != []
    || (me.pc.Swapped? && me.pc.prev > 0)
    || (me.pc.Compare? && me.pc.prev > 0)
    || me.pc.Clearing? || me.pc.Setting?
  }

  /** The part of a token holder's time during which the owner word names it. */
  predicate Named(me: Thread) {
    me.held != [] || (me.pc.Compare? && me.pc.prev > 0) || me.pc.Clearing?
  }

  ghost predicate ThreadOk(me: Thread) {
    && (forall i :: 0 <= i < |me.held| ==> me.held[i] == if i == 0 then 1 else 0)
    && (me.pc.Swapped? ==> me.pc.prev == 0 || (me.pc.prev == 1 && me.held == []))
    && (me.pc.Compare? ==> me.pc.prev == 0 || (me.pc.prev == 1 && me.held == []))
    && (me.pc.Clearing? ==> me.pc.v == 1 && me.held == [])
    && (me.pc.Setting? ==> me.pc.v == 1 && me.held == [])
    && (me.pc == Waiting ==> me.held == [])
  }

  /** Exactly one token: in the flag, or with exactly one thread. */
  ghost predicate OneToken(s: State) {
    && (s.event == 0 || s.event == 1)
    && (s.event == 0 <==> exists t :: 0 <= t < |s.threads| && HasToken(s.threads[t]))
    && (forall t, u ::
          0 <= t < |s.threads| && 0 <= u < |s.threads| && HasToken(s.threads[t]) && HasToken(s.threads[u]) ==> t == u)
  }

  ghost predicate Inv(s: State) {
    && OneToken(s)
    && (forall t :: 0 <= t < |s.threads| ==> ThreadOk(s.threads[t]))
    && (s.owner.Some? ==> s.owner.value < |s.threads|)
    && (forall t: nat :: t < |s.threads| ==> (s.owner == Some(t) <==> Named(s.threads[t])))
  }

  lemma InitInv(s: State)
    requires Init(s)
    ensures Inv(s)
  {}

  lemma ActKeepsThreadOk(s: State, t: nat, a: Action)
    requires Inv(s) && t < |s.threads| && Enabled(s, t, a)
    ensures ThreadOk(Act(s, t, a).threads[t])
  {}

  lemma ActKeepsOneToken(s: State, t: nat, a: Action)
    requires Inv(s) && t < |s.threads| && Enabled(s, t, a)
    ensures OneToken(Act(s, t, a))
  {
    var s' := Act(s, t, a);
    if s'.event == 0 && !HasToken(s'.threads[t]) {
      var u :| 0 <= u < |s.threads| && HasToken(s.threads[u]);
      assert u != t && HasToken(s'.threads[u]);
    }
  }

  lemma ActKeepsOwner(s: State, t: nat, a: Action)
    requires Inv(s) && t < |s.threads| && Enabled(s, t, a)
    ensures var s' := Act(s, t, a);
            forall u: nat :: u < |s'.threads| ==> (s'.owner == Some(u) <==> Named(s'.threads[u]))
  {}

  lemma ActKeepsInv(s: State, t: nat, a: Action)
    requires Inv(s) && t < |s.threads| && Enabled(s, t, a)
    ensures Inv(Act(s, t, a)) && |Act(s, t, a).threads| == |s.threads|
  {
    hide OneToken;
    ActKeepsThreadOk(s, t, a);
    ActKeepsOneToken(s, t, a);
    ActKeepsOwner(s, t, a);
  }

  lemma {:induction false} RunInv(run: seq<State>, i: nat)
    requires Run(run) && i < |run|
    ensures Inv(run[i])
  {
    if i == 0 {
      InitInv(run[0]);
    } else {
      RunInv(run, i - 1);
      assert Next(run[i - 1], run[i]);
      var t: nat, a :| t < |run[i - 1].threads| && Enabled(run[i - 1], t, a) && run[i] == Act(run[i - 1], t, a);
      ActKeepsInv(run[i - 1], t, a);
    }
  }

  /** In no run are two threads ever inside, and nobody is inside while the flag is set. */
  lemma MutualExclusion(run: seq<State>, i: nat, t: nat, u: nat)
    requires Run(run) && i < |run| && t < |run[i].threads| && u < |run[i].threads|
    requires run[i].threads[t].held != []
    ensures run[i].threads[u].held != [] ==> t == u
    ensures run[i].event == 0
  {
    RunInv(run, i);
  }

  /** What a client may rely on: a lock that its owner may take again. */
  datatype Reentrant = Free | Owned(who: nat, depth: nat)

  ghost function Abs(s: State): Reentrant {
    if exists t: nat :: t < |s.threads| && s.threads[t].held != [] then
      var t: nat :| t < |s.threads| && s.threads[t].held != [];
      Owned(t, |s.threads[t].held|)
    else Free
  }

  lemma AbsIs(s: State, t: nat)
    requires Inv(s) && t < |s.threads| && s.threads[t].held != []
    ensures Abs(s) == Owned(t, |s.threads[t].held|)
  {
    assert HasToken(s.threads[t]);
  }

  /** Every step of the flag-and-word protocol is a step of the reentrant lock: only a lockdb that
      finds its own name takes it, only unlkdb gives it back, and the value lockdb returns is nonzero
      exactly when it was free. */
  lemma Refines(s: State, t: nat, a: Action)
    requires Inv(s) && t < |s.threads| && Enabled(s, t, a)
    ensures var l, l' := Abs(s), Abs(Act(s, t, a));
            if a == Decide && s.owner == Some(t) then
              && (l == Free || (l.Owned? && l.who == t))
              && l' == Owned(t, if l.Free? then 1 else l.depth + 1)
              && (s.threads[t].pc.prev > 0 <==> l == Free)
            else if a == BeginUnlock then
              && l.Owned? && l.who == t
              && l' == (if l.depth == 1 then Free else Owned(t, l.depth - 1))
            else l' == l
  {
    var s' := Act(s, t, a);
    ActKeepsInv(s, t, a);
    if u: nat :| u < |s.threads| && s.threads[u].held != [] { AbsIs(s, u); assert HasToken(s.threads[u]); }
    if u: nat :| u < |s'.threads| && s'.threads[u].held != [] { AbsIs(s', u); assert HasToken(s'.threads[u]); }
    if s.threads[t].held != [] { AbsIs(s, t); }
    if s'.threads[t].held != [] { AbsIs(s', t); }
  }

  /** A stretch of steps that starts at `s`. */
  ghost predicate Path(p: seq<State>, s: State) {
    p != [] && p[0] == s && forall i :: 0 <= i < |p| - 1 ==> Next(p[i], p[i + 1])
  }

  /** The last state of a path; the steps keep the invariant and the threads. */
  ghost predicate Leads(p: seq<State>, s: State, s': State) {
    Path(p, s) && p[|p| - 1] == s' && Inv(s') && |s'.threads| == |s.threads|
  }

  lemma StepThen(s: State, t: nat, a: Action, p: seq<State>, s': State)
    requires t < |s.threads| && Enabled(s, t, a) && Leads(p, Act(s, t, a), s')
    ensures Leads([s] + p, s, s')
  {
    var q := [s] + p;
    assert Next(s, p[0]);
    forall i | 0 <= i < |q| - 1 ensures Next(q[i], q[i + 1]) {
      if i > 0 { assert Next(p[i - 1], p[i]); }
    }
  }

  lemma PathJoin(p: seq<State>, q: seq<State>, s: State, m: State, s': State)
    requires Leads(p, s, m) && Leads(q, m, s')
    ensures Leads(p + q[1..], s, s')
  {
    var r := p + q[1..];
    forall i | 0 <= i < |r| - 1 ensures Next(r[i], r[i + 1]) {
      if i >= |p| - 1 { assert Next(q[i - |p| + 1], q[i - |p| + 2]); }
    }
  }

  /** The next thing a token holder does on its way to giving the token back. */
  ghost function Onward(me: Thread): Action {
    match me.pc
    case Idle => BeginUnlock
    case Trying => Swap
    case Swapped(_) => Claim
    case Compare(_) => Decide
    case Waiting => Wake
    case Clearing(_) => Clear
    case Setting(_) => Set
  }

  ghost function StepsToGo(me: Thread): nat {
    match me.pc
    case Setting(_) => 1
    case Clearing(_) => 2
    case Idle => 3 * |me.held|
    case Compare(_) => 3 * |me.held| + 4
    case Swapped(_) => 3 * |me.held| + 5
    case Trying => 3 * |me.held| + 6
    case Waiting => 3 * |me.held| + 7
  }

  lemma OnwardWorks(s: State, t: nat)
    requires Inv(s) && t < |s.threads| && HasToken(s.threads[t])
    ensures Enabled(s, t, Onward(s.threads[t]))
    ensures var m := Act(s, t, Onward(s.threads[t]));
            Inv(m) && |m.threads| == |s.threads|
            && (m.event == 1 || (HasToken(m.threads[t]) && StepsToGo(m.threads[t]) < StepsToGo(s.threads[t])))
  {
    ActKeepsInv(s, t, Onward(s.threads[t]));
  }

  /** The holder alone can always bring the token back to the flag. */
  lemma {:induction false} CanRelease(s: State, t: nat) returns (p: seq<State>, s': State)
    requires Inv(s) && t < |s.threads| && HasToken(s.threads[t])
    ensures Leads(p, s, s') && s'.event == 1
    decreases StepsToGo(s.threads[t])
  {
    hide Inv, Act;
    OnwardWorks(s, t);
    var a := Onward(s.threads[t]);
    var m := Act(s, t, a);
    if m.event == 1 {
      p, s' := [m], m;
    } else {
      p, s' := CanRelease(m, t);
    }
    StepThen(s, t, a, p, s');
    p := [s] + p;
  }

  ghost function Inward(me: Thread): Action {
    if me.pc == Idle then BeginLock else Onward(me)
  }

  ghost function StepsToEnter(me: Thread): nat {
    if me.held != [] then 0
    else match me.pc
         case Compare(prev) => if prev > 0 then 1 else 5
         case Swapped(prev) => if prev > 0 then 2 else 6
         case Trying => 3
         case Idle => 4
         case Waiting => 4
         case Setting(_) => 5
         case Clearing(_) => 6
  }

  lemma InwardWorks(s: State, t: nat)
    requires Inv(s) && t < |s.threads| && s.threads[t].held == [] && (s.event == 1 || HasToken(s.threads[t]))
    ensures Enabled(s, t, Inward(s.threads[t]))
    ensures var m := Act(s, t, Inward(s.threads[t]));
            Inv(m) && |m.threads| == |s.threads|
            && (m.event == 1 || HasToken(m.threads[t])) && StepsToEnter(m.threads[t]) < StepsToEnter(s.threads[t])
  {
    ActKeepsInv(s, t, Inward(s.threads[t]));
  }

  /** With the flag set, a thread that wants the lock gets it by its own steps. */
  lemma {:induction false} CanTake(s: State, t: nat) returns (p: seq<State>, s': State)
    requires Inv(s) && t < |s.threads| && (s.event == 1 || HasToken(s.threads[t]))
    ensures Leads(p, s, s') && s'.threads[t].held != []
    decreases StepsToEnter(s.threads[t])
  {
    hide Inv, Act;
    if s.threads[t].held != [] {
      return [s], s;
    }
    InwardWorks(s, t);
    p, s' := CanTake(Act(s, t, Inward(s.threads[t])), t);
    StepThen(s, t, Inward(s.threads[t]), p, s');
    p := [s] + p;
  }

  /** No interleaving ever locks a thread out: whatever has happened, some continuation lets it in. */
  lemma NeverLockedOut(run: seq<State>, t: nat) returns (p: seq<State>)
    requires Run(run) && t < |run[|run| - 1].threads|
    ensures Path(p, run[|run| - 1])
    ensures |p[|p| - 1].threads| == |run[|run| - 1].threads| && p[|p| - 1].threads[t].held != []
  {
    var s := run[|run| - 1];
    RunInv(run, |run| - 1);
    if s.event == 1 {
      var s': State;
      p, s' := CanTake(s, t);
    } else {
      var u: nat :| u < |s.threads| && HasToken(s.threads[u]);
      var toFree, m := CanRelease(s, u);
      var toTaken, s' := CanTake(m, t);
      PathJoin(toFree, toTaken, s, m, s');
      p := toFree + toTaken[1..];
    }
  }
}
