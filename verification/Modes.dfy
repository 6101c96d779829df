/** The get and set mode requests of the pseudo-console driver: the class driver asks, the server fetches and posts.
    Posting the last of several leaves the queue broken: the next request takes the place of all that wait. */
module Modes {
  import opened TailQueue

  datatype Gsreq = Gsreq(param: nat, fetched: bool)

  /** `asked`, `posted` and `lost` are histories. */
  datatype Modes = Modes(queue: seq<Gsreq>, broken: bool, asked: seq<nat>, posted: seq<nat>, lost: seq<nat>)

  ghost const EMPTY := Modes([], false, [], [], [])

  function Params(queue: seq<Gsreq>): seq<nat> {
    seq(|queue|, i requires 0 <= i < |queue| => queue[i].param)
  }

  function Asked(m: Modes, param: nat): Modes {
    var more := m.(asked := m.asked + [param], broken := false);
    if m.broken then more.(queue := [Gsreq(param, false)], lost := m.lost + Params(m.queue))
    else more.(queue := m.queue + [Gsreq(param, false)])
  }

  function Mark(r: Gsreq): Gsreq { r.(fetched := true) }

  /** The first request, if any, that has not been fetched. */
  function FirstNew(queue: seq<Gsreq>): (k: nat)
    ensures k <= |queue| && (forall i :: 0 <= i < k ==> queue[i].fetched) && (k < |queue| ==> !queue[k].fetched)
  {
    if queue == [] || !queue[0].fetched then 0 else FirstNew(queue[1..]) + 1
  }

  lemma {:induction false} FirstNewIs(queue: seq<Gsreq>, k: nat)
    requires k <= |queue| && (forall i :: 0 <= i < k ==> queue[i].fetched) && (k < |queue| ==> !queue[k].fetched)
    ensures FirstNew(queue) == k
  {
    if k > 0 { FirstNewIs(queue[1..], k - 1); }
  }

  function Fetched(m: Modes): Modes {
    var k := FirstNew(m.queue);
    if k == |m.queue| then m else m.(queue := m.queue[k := Mark(m.queue[k])])
  }

  function Posted(m: Modes, k: nat): Modes {
    if k >= |m.queue| || !m.queue[k].fetched then m
    else
      var rest := RemoveAt(m.queue, k);
      m.(queue := rest, broken := rest != [] && (m.broken || k == |rest|), posted := m.posted + [m.queue[k].param])
  }

  datatype Call = Ask(param: nat) | Fetch | Post(k: nat)

  function After(m: Modes, c: Call): Modes {
    match c
    case Ask(param) => Asked(m, param)
    case Fetch => Fetched(m)
    case Post(k) => Posted(m, k)
  }

  ghost function Play(calls: seq<Call>): Modes {
    if calls == [] then EMPTY else After(Play(calls[..|calls| - 1]), calls[|calls| - 1])
  }

  ghost predicate Inv(m: Modes) {
    && (m.broken ==> m.queue != [])
    && multiset(m.asked) == multiset(Params(m.queue)) + multiset(m.posted) + multiset(m.lost)
  }

  lemma AskedParams(m: Modes, param: nat)
    ensures Params(Asked(m, param).queue) == if m.broken then [param] else Params(m.queue) + [param]
  {}

  lemma FetchedParams(m: Modes)
    ensures Params(Fetched(m).queue) == Params(m.queue)
  {}

  lemma PostedParams(queue: seq<Gsreq>, k: nat)
    requires k < |queue|
    ensures multiset(Params(queue)) == multiset(Params(RemoveAt(queue, k))) + multiset{queue[k].param}
    ensures k == 0 ==> Params(queue) == [queue[k].param] + Params(RemoveAt(queue, k))
  {
    hide Params, RemoveAt;
    SomeParams(queue);
    ParamsWithout(queue, k);
    Without(Params(queue), k, Params(RemoveAt(queue, k)));
  }

  lemma ParamsWithout(queue: seq<Gsreq>, k: nat)
    requires k < |queue| == |Params(queue)|
    ensures Params(queue)[k] == queue[k].param
    ensures Params(RemoveAt(queue, k)) == Params(queue)[..k] + Params(queue)[k + 1..]
  {}

  lemma Without(s: seq<nat>, k: nat, rest: seq<nat>)
    requires k < |s| && rest == s[..k] + s[k + 1..]
    ensures multiset(s) == multiset(rest) + multiset{s[k]} && (k == 0 ==> s == [s[k]] + rest)
  {
    assert s == s[..k] + [s[k]] + s[k + 1..];
  }

  lemma AfterKeepsInv(m: Modes, c: Call)
    requires Inv(m)
    ensures Inv(After(m, c))
    ensures After(m, c).lost == m.lost <==> !(c.Ask? && m.broken)
    ensures m.lost <= After(m, c).lost
  {
    hide Params, RemoveAt, FirstNew;
    match c
    case Ask(param) => AskKeepsInv(m, param);
    case Fetch => FetchedParams(m);
    case Post(k) => if k < |m.queue| { PostedParams(m.queue, k); }
  }

  lemma AskKeepsInv(m: Modes, param: nat)
    requires Inv(m)
    ensures Inv(Asked(m, param)) && m.lost <= Asked(m, param).lost
    ensures Asked(m, param).lost == m.lost <==> !m.broken
  {
    hide Params;
    AskedParams(m, param);
    SomeParams(m.queue);
  }

  lemma SomeParams(queue: seq<Gsreq>)
    ensures |Params(queue)| == |queue|
  {}

  /** Over any run every request is posted, waiting or lost, and none is lost if and only if nothing was asked while the
      queue was broken. */
  lemma {:induction false} AnyRun(calls: seq<Call>)
    ensures Inv(Play(calls))
    ensures Play(calls).lost == [] <==> forall i :: 0 <= i < |calls| && calls[i].Ask? ==> !Play(calls[..i]).broken
  {
    hide After, Inv;
    if calls == [] {
      assert Inv(EMPTY) by { EmptyInv(); }
    } else {
      var n := |calls| - 1;
      AnyRun(calls[..n]);
      AfterKeepsInv(Play(calls[..n]), calls[n]);
      assert forall i :: 0 <= i < n ==> calls[..n][i] == calls[i] && calls[..n][..i] == calls[..i];
    }
  }

  lemma EmptyInv()
    ensures Inv(EMPTY)
  {}

  /** A server that posts the oldest first loses nothing and answers in the order of asking. */
  lemma {:induction false} InOrder(calls: seq<Call>)
    requires forall c <- calls :: c.Post? ==> c.k == 0
    ensures var m := Play(calls); !m.broken && m.lost == [] && m.asked == m.posted + Params(m.queue)
  {
    hide Params, RemoveAt, FirstNew;
    if calls == [] {
      SomeParams([]);
    } else {
      var n := |calls| - 1;
      assert calls[n] in calls;
      InOrder(calls[..n]);
      var m := Play(calls[..n]);
      match calls[n]
      case Ask(param) => AskedParams(m, param);
      case Fetch => FetchedParams(m);
      case Post(_) => if m.queue != [] { PostedParams(m.queue, 0); }
    }
  }

  /** One that does not may lose a request that was never answered. */
  lemma LosesOne(a: nat, b: nat, c: nat)
    ensures var m := Play([Ask(a), Ask(b), Fetch, Fetch, Post(1), Ask(c)]);
            m.lost == [a] && m.queue == [Gsreq(c, false)]
  {
    hide Play, RemoveAt;
    PlayMore([], Ask(a), [Ask(a)]);
    PlayMore([Ask(a)], Ask(b), [Ask(a), Ask(b)]);
    PlayMore([Ask(a), Ask(b)], Fetch, [Ask(a), Ask(b), Fetch]);
    PlayMore([Ask(a), Ask(b), Fetch], Fetch, [Ask(a), Ask(b), Fetch, Fetch]);
    PlayMore([Ask(a), Ask(b), Fetch, Fetch], Post(1), [Ask(a), Ask(b), Fetch, Fetch, Post(1)]);
    PlayMore([Ask(a), Ask(b), Fetch, Fetch, Post(1)], Ask(c), [Ask(a), Ask(b), Fetch, Fetch, Post(1), Ask(c)]);
    var m := Modes([Gsreq(a, true), Gsreq(b, true)], false, [a, b], [], []);
    assert Play([Ask(a), Ask(b)]).queue == [Gsreq(a, false), Gsreq(b, false)];
    assert Play([Ask(a), Ask(b), Fetch, Fetch]) == m;
    assert RemoveAt(m.queue, 1) == [Gsreq(a, true)];
    assert Params([Gsreq(a, true)]) == [a];
  }

  lemma PlayMore(calls: seq<Call>, c: Call, more: seq<Call>)
    requires more == calls + [c]
    ensures Play([]) == EMPTY && Play(more) == After(Play(calls), c)
  {
    assert more[..|calls|] == calls;
  }
}
