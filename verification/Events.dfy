/** Matching events with the requests that wait for them, first in, first out. */
module Events {
  import opened TailQueue

  /** What has become of a request. */
  datatype Fate = Waiting | Given(event: int) | Aborted

  /** `events` and `reqs` are histories, of all that ever came; `fates` says of each request what became of it. */
  datatype Events = Events(queue: seq<int>, waiting: seq<nat>, events: seq<int>, reqs: seq<nat>, fates: seq<Fate>,
                           matched: seq<(nat, int)>)

  ghost const EMPTY := Events([], [], [], [], [], [])

  /** The requests that still wait, in order. */
  function WaitingOf(reqs: seq<nat>, fates: seq<Fate>): seq<nat>
    requires |reqs| == |fates|
  {
    if reqs == [] then []
    else
      var n := |reqs| - 1;
      WaitingOf(reqs[..n], fates[..n]) + if fates[n] == Waiting then [reqs[n]] else []
  }

  /** The requests that got an event, in order, each with its event. */
  function MatchedOf(reqs: seq<nat>, fates: seq<Fate>): seq<(nat, int)>
    requires |reqs| == |fates|
  {
    if reqs == [] then []
    else
      var n := |reqs| - 1;
      MatchedOf(reqs[..n], fates[..n]) + if fates[n].Given? then [(reqs[n], fates[n].event)] else []
  }

  /** The requests that were not aborted, in order. */
  function KeptOf(reqs: seq<nat>, fates: seq<Fate>): seq<nat>
    requires |reqs| == |fates|
  {
    if reqs == [] then []
    else
      var n := |reqs| - 1;
      KeptOf(reqs[..n], fates[..n]) + if fates[n] == Aborted then [] else [reqs[n]]
  }

  /** The first request that waits is given the event. */
  function GiveFirst(fates: seq<Fate>, event: int): (r: seq<Fate>)
    ensures |r| == |fates|
    ensures forall i :: 0 <= i < |r| ==> r[i] == fates[i] || (fates[i] == Waiting && r[i] == Given(event))
  {
    if fates == [] then []
    else
      var n := |fates| - 1;
      if Waiting in fates[..n] then GiveFirst(fates[..n], event) + [fates[n]]
      else if fates[n] == Waiting then fates[..n] + [Given(event)] else fates
  }

  function AbortThose(reqs: seq<nat>, fates: seq<Fate>, abortok: nat -> bool): (r: seq<Fate>)
    requires |reqs| == |fates|
    ensures |r| == |fates|
    ensures forall i :: 0 <= i < |r| ==> r[i] == if fates[i] == Waiting && abortok(reqs[i]) then Aborted else fates[i]
  {
    seq(|fates|, i requires 0 <= i < |fates| => if fates[i] == Waiting && abortok(reqs[i]) then Aborted else fates[i])
  }

  function Got(s: Events, e: int): Events {
    if s.waiting == [] then s.(queue := s.queue + [e], events := s.events + [e])
    else
      s.(waiting := s.waiting[1..], events := s.events + [e], fates := GiveFirst(s.fates, e),
         matched := s.matched + [(s.waiting[0], e)])
  }

  function Ask(s: Events, r: nat): Events {
    if s.queue == [] then s.(waiting := s.waiting + [r], reqs := s.reqs + [r], fates := s.fates + [Waiting])
    else
      s.(queue := s.queue[1..], reqs := s.reqs + [r], fates := s.fates + [Given(s.queue[0])],
         matched := s.matched + [(r, s.queue[0])])
  }

  function Abort(s: Events, abortok: nat -> bool): Events {
    s.(waiting := Select(s.waiting, abortok, false),
       fates := if |s.reqs| == |s.fates| then AbortThose(s.reqs, s.fates, abortok) else s.fates)
  }

  /** No request that waits was made before one that got an event. */
  ghost predicate InTurn(fates: seq<Fate>) {
    forall i, j :: 0 <= i < j < |fates| && fates[i] == Waiting ==> !fates[j].Given?
  }

  /** Requests get events in turn, event after event; never do both wait. */
  ghost predicate Inv(s: Events) {
    && |s.fates| == |s.reqs| && InTurn(s.fates)
    && s.waiting == WaitingOf(s.reqs, s.fates) && s.matched == MatchedOf(s.reqs, s.fates)
    && |s.matched| <= |s.events| && (forall k :: 0 <= k < |s.matched| ==> s.matched[k].1 == s.events[k])
    && s.queue == s.events[|s.matched|..]
    && (s.queue == [] || s.waiting == [])
  }

  lemma EmptyInv()
    ensures Inv(EMPTY)
  {}

  lemma Append(reqs: seq<nat>, fates: seq<Fate>, r: nat, f: Fate)
    requires |reqs| == |fates|
    ensures WaitingOf(reqs + [r], fates + [f]) == WaitingOf(reqs, fates) + if f == Waiting then [r] else []
    ensures MatchedOf(reqs + [r], fates + [f]) == MatchedOf(reqs, fates) + if f.Given? then [(r, f.event)] else []
  {
    assert (reqs + [r])[..|reqs|] == reqs && (fates + [f])[..|fates|] == fates;
  }

  lemma Last(reqs: seq<nat>, fates: seq<Fate>)
    requires |reqs| == |fates| > 0
    ensures var n := |reqs| - 1;
            && WaitingOf(reqs, fates) ==
                 WaitingOf(reqs[..n], fates[..n]) + (if fates[n] == Waiting then [reqs[n]] else [])
            && MatchedOf(reqs, fates) == MatchedOf(reqs[..n], fates[..n])
                                         + if fates[n].Given? then [(reqs[n], fates[n].event)] else []
  {}

  lemma {:induction false} SomeWait(reqs: seq<nat>, fates: seq<Fate>)
    requires |reqs| == |fates|
    ensures WaitingOf(reqs, fates) != [] <==> Waiting in fates
  {
    if reqs != [] {
      var n := |reqs| - 1;
      SomeWait(reqs[..n], fates[..n]);
      assert fates == fates[..n] + [fates[n]];
    }
  }

  lemma {:induction false} GiveInTurn(fates: seq<Fate>, e: int)
    requires InTurn(fates)
    ensures InTurn(GiveFirst(fates, e))
  {
    if fates != [] {
      var n, now := |fates| - 1, GiveFirst(fates, e);
      if Waiting in fates[..n] {
        GiveInTurn(fates[..n], e);
        var i :| 0 <= i < n && fates[..n][i] == Waiting;
        assert !fates[n].Given? by { assert fates[i] == Waiting; }
        assert forall k :: 0 <= k < n ==> now[k] == GiveFirst(fates[..n], e)[k];
      } else {
        assert forall k :: 0 <= k < n ==> now[k] == fates[..n][k] != Waiting;
      }
    }
  }

  /** The first that waits is given the event, and is then the last that has one. */
  lemma {:induction false} GiveMatches(reqs: seq<nat>, fates: seq<Fate>, e: int)
    requires |reqs| == |fates| && InTurn(fates) && WaitingOf(reqs, fates) != []
    ensures var now := GiveFirst(fates, e);
            && WaitingOf(reqs, now) == WaitingOf(reqs, fates)[1..]
            && MatchedOf(reqs, now) == MatchedOf(reqs, fates) + [(WaitingOf(reqs, fates)[0], e)]
  {
    hide WaitingOf, MatchedOf, InTurn;
    SomeWait(reqs, fates);
    var n, now := |reqs| - 1, GiveFirst(fates, e);
    Last(reqs, fates);
    Last(reqs, now);
    SomeWait(reqs[..n], fates[..n]);
    if Waiting in fates[..n] {
      NotGivenAfter(fates);
      GiveMatches(reqs[..n], fates[..n], e);
      assert now[..n] == GiveFirst(fates[..n], e) && now[n] == fates[n];
    } else {
      assert fates == fates[..n] + [fates[n]];
      assert now[..n] == fates[..n] && now[n] == Given(e);
    }
  }

  lemma NotGivenAfter(fates: seq<Fate>)
    requires InTurn(fates) && fates != [] && Waiting in fates[..|fates| - 1]
    ensures InTurn(fates[..|fates| - 1]) && !fates[|fates| - 1].Given?
  {
    var i :| 0 <= i < |fates| - 1 && fates[..|fates| - 1][i] == Waiting;
    assert fates[i] == Waiting;
  }

  lemma {:induction false} AbortSelects(reqs: seq<nat>, fates: seq<Fate>, abortok: nat -> bool)
    requires |reqs| == |fates|
    ensures var now := AbortThose(reqs, fates, abortok);
            && WaitingOf(reqs, now) == Select(WaitingOf(reqs, fates), abortok, false)
            && MatchedOf(reqs, now) == MatchedOf(reqs, fates)
  {
    if reqs != [] {
      var n := |reqs| - 1;
      AbortSelects(reqs[..n], fates[..n], abortok);
      var now := AbortThose(reqs, fates, abortok);
      assert now[..n] == AbortThose(reqs[..n], fates[..n], abortok);
      var before, all := WaitingOf(reqs[..n], fates[..n]), WaitingOf(reqs, fates);
      if fates[n] == Waiting {
        assert all == before + [reqs[n]];
        assert all[..|all| - 1] == before;
      } else {
        assert all == before;
      }
    }
  }

  lemma GotKeepsInv(s: Events, e: int)
    requires Inv(s)
    ensures Inv(Got(s, e))
  {
    hide WaitingOf, MatchedOf, GiveFirst, InTurn;
    GiveInTurn(s.fates, e);
    if s.waiting != [] { GiveMatches(s.reqs, s.fates, e); }
  }

  lemma AskKeepsInv(s: Events, r: nat)
    requires Inv(s)
    ensures Inv(Ask(s, r))
  {
    hide WaitingOf, MatchedOf;
    Append(s.reqs, s.fates, r, if s.queue == [] then Waiting else Given(s.queue[0]));
    SomeWait(s.reqs, s.fates);
    assert s.queue != [] ==> forall i :: 0 <= i < |s.fates| ==> s.fates[i] in s.fates;
  }

  lemma AbortKeepsInv(s: Events, abortok: nat -> bool)
    requires Inv(s)
    ensures Inv(Abort(s, abortok)) && Abort(s, abortok).matched == s.matched && Abort(s, abortok).queue == s.queue
  {
    hide WaitingOf, MatchedOf;
    AbortSelects(s.reqs, s.fates, abortok);
    if s.waiting == [] { assert Select(s.waiting, abortok, false) == []; }
  }

  /** The requests not aborted are those that got an event, and then those that wait. */
  lemma {:induction false} KeptInTurn(reqs: seq<nat>, fates: seq<Fate>)
    requires |reqs| == |fates| && InTurn(fates)
    ensures var matched, waiting, kept := MatchedOf(reqs, fates), WaitingOf(reqs, fates), KeptOf(reqs, fates);
            && |kept| == |matched| + |waiting| && kept[|matched|..] == waiting
            && forall k :: 0 <= k < |matched| ==> kept[k] == matched[k].0
  {
    if reqs != [] {
      var n := |reqs| - 1;
      KeptInTurn(reqs[..n], fates[..n]);
      SomeWait(reqs[..n], fates[..n]);
      assert forall i :: 0 <= i < n ==> fates[..n][i] == fates[i];
    }
  }

  datatype Call = Happen(event: int) | Request(r: nat) | Cancel(abortok: nat -> bool)

  function After(s: Events, c: Call): Events {
    match c
    case Happen(e) => Got(s, e)
    case Request(r) => Ask(s, r)
    case Cancel(abortok) => Abort(s, abortok)
  }

  function Play(calls: seq<Call>): Events {
    if calls == [] then Events([], [], [], [], [], []) else After(Play(calls[..|calls| - 1]), calls[|calls| - 1])
  }

  /** Over any run: the k-th event goes to the k-th request not aborted, no event is lost or given twice,
      and a request waits only when no event does. */
  lemma {:induction false} AnyRun(calls: seq<Call>)
    ensures var s := Play(calls);
            && Inv(s)
            && var kept := KeptOf(s.reqs, s.fates);
               && |s.events| == |s.matched| + |s.queue| && |kept| == |s.matched| + |s.waiting|
               && (forall k :: 0 <= k < |s.matched| ==> s.matched[k] == (kept[k], s.events[k]))
               && kept[|s.matched|..] == s.waiting && s.events[|s.matched|..] == s.queue
  {
    hide Got, Ask, Abort;
    if calls == [] {
      EmptyInv();
    } else {
      var before, c := calls[..|calls| - 1], calls[|calls| - 1];
      AnyRun(before);
      match c {
        case Happen(e) => GotKeepsInv(Play(before), e);
        case Request(r) => AskKeepsInv(Play(before), r);
        case Cancel(abortok) => AbortKeepsInv(Play(before), abortok);
      }
    }
    KeptInTurn(Play(calls).reqs, Play(calls).fates);
  }

  /** A request that has been matched or aborted stays so, and only those that wait and may be aborted ever are. */
  lemma FateIsFinal(s: Events, c: Call, i: nat)
    requires Inv(s) && i < |s.reqs|
    ensures var s' := After(s, c);
            && s.reqs <= s'.reqs && |s.reqs| <= |s'.fates|
            && (s.fates[i] != Waiting ==> s'.fates[i] == s.fates[i])
            && (c.Cancel? ==>
                  (s'.fates[i] == Aborted <==>
                     s.fates[i] == Aborted || (s.fates[i] == Waiting && c.abortok(s.reqs[i]))))
            && (!c.Cancel? ==> (s'.fates[i] == Aborted <==> s.fates[i] == Aborted))
  {
    hide WaitingOf, MatchedOf, GiveFirst;
  }
}
