/** What the pseudo-console driver owes its two clients about screen data: the class driver hands in
    buffers, the server takes bytes out in pieces of any size. */
module Screen {

  /** A display buffer; `data` is the part not taken out yet. */
  datatype Senddat = Senddat(param: int, data: seq<char>)

  /** `accepted` and `handed` are histories: buffers taken in, bytes given out in copy order, and the
      buffers reported displayed. */
  datatype Screen = Screen(queue: seq<Senddat>, accepted: seq<Senddat>, handed: seq<char>, displayed: seq<int>)

  const SENDDATQMAX := 5

  function Flat(bufs: seq<Senddat>): seq<char> {
    if bufs == [] then [] else Flat(bufs[..|bufs| - 1]) + bufs[|bufs| - 1].data
  }

  function Params(bufs: seq<Senddat>): seq<int> {
    if bufs == [] then [] else Params(bufs[..|bufs| - 1]) + [bufs[|bufs| - 1].param]
  }

  ghost const EMPTY := Screen([], [], [], [])

  function Accept(s: Screen, d: Senddat): Screen {
    s.(queue := s.queue + [d], accepted := s.accepted + [d])
  }

  /** One request with room for `size` is served. */
  function Take(s: Screen, size: nat): Screen
    requires s.queue != []
  {
    var d := s.queue[0];
    if |d.data| > size then
      s.(queue := [d.(data := d.data[size..])] + s.queue[1..], handed := s.handed + d.data[..size])
    else
      s.(queue := s.queue[1..], handed := s.handed + d.data, displayed := s.displayed + [d.param])
  }

  /** The buffers reported displayed are the first ones accepted and have been handed out in full; the
      next one has been handed out up to what is left of it; the rest are untouched. */
  ghost predicate Inv(s: Screen) {
    && |s.accepted| == |s.displayed| + |s.queue|
    && |s.queue| <= SENDDATQMAX
    && s.displayed == Params(s.accepted[..|s.displayed|])
    && if s.queue == [] then s.handed == Flat(s.accepted)
       else
         && s.queue[0].param == s.accepted[|s.displayed|].param
         && s.queue[1..] == s.accepted[|s.displayed| + 1..]
         && s.handed + s.queue[0].data == Flat(s.accepted[..|s.displayed| + 1])
         && |s.queue[0].data| <= |s.accepted[|s.displayed|].data|
  }

  lemma EmptyInv()
    ensures Inv(EMPTY)
  {}

  lemma FlatSnoc(bufs: seq<Senddat>, d: Senddat)
    ensures Flat(bufs + [d]) == Flat(bufs) + d.data && Params(bufs + [d]) == Params(bufs) + [d.param]
  {
    assert (bufs + [d])[..|bufs|] == bufs;
  }

  lemma {:induction false} FlatPrefix(bufs: seq<Senddat>, n: nat)
    requires n <= |bufs|
    ensures Flat(bufs[..n]) <= Flat(bufs) && Params(bufs[..n]) <= Params(bufs)
    decreases |bufs| - n
  {
    if n == |bufs| {
      assert bufs[..n] == bufs;
    } else {
      assert bufs[..n + 1] == bufs[..n] + [bufs[n]];
      FlatSnoc(bufs[..n], bufs[n]);
      FlatPrefix(bufs, n + 1);
    }
  }

  lemma AcceptKeepsInv(s: Screen, d: Senddat)
    requires Inv(s) && |s.queue| < SENDDATQMAX
    ensures Inv(Accept(s, d))
  {
    var s', n := Accept(s, d), |s.displayed|;
    assert s'.accepted[..n] == s.accepted[..n];
    if s.queue == [] {
      assert s.accepted[..n] == s.accepted && s'.accepted[..n + 1] == s'.accepted;
      FlatSnoc(s.accepted, d);
    } else {
      assert s'.accepted[..n + 1] == s.accepted[..n + 1];
      assert s'.accepted[n + 1..] == s.accepted[n + 1..] + [d];
    }
  }

  lemma TakeKeepsInv(s: Screen, size: nat)
    requires Inv(s) && s.queue != []
    ensures Inv(Take(s, size))
  {
    var s', n := Take(s, size), |s.displayed|;
    var d := s.queue[0];
    if |d.data| > size {
      assert s.handed + d.data[..size] + d.data[size..] == s.handed + d.data;
    } else {
      assert s.accepted[..n + 1] == s.accepted[..n] + [s.accepted[n]];
      FlatSnoc(s.accepted[..n], s.accepted[n]);
      if s'.queue != [] {
        assert s.accepted[..n + 2] == s.accepted[..n + 1] + [s.accepted[n + 1]];
        assert s'.queue[0] == s.accepted[n + 1..][0];
        FlatSnoc(s.accepted[..n + 1], s.accepted[n + 1]);
        assert s'.queue[1..] == s.accepted[n + 1..][1..];
      } else {
        assert s.accepted[..n + 1] == s.accepted;
      }
    }
  }

  /** The bytes handed out are a prefix of everything accepted, and contain every buffer reported displayed. */
  lemma HandedIsPrefix(s: Screen)
    requires Inv(s)
    ensures s.handed <= Flat(s.accepted)
    ensures s.displayed <= Params(s.accepted)
    ensures Flat(s.accepted[..|s.displayed|]) <= s.handed
  {
    var n := |s.displayed|;
    if s.queue == [] {
      assert s.accepted[..n] == s.accepted;
    } else {
      FlatPrefix(s.accepted, n);
      FlatPrefix(s.accepted, n + 1);
      assert s.accepted[..n + 1] == s.accepted[..n] + [s.accepted[n]];
      FlatSnoc(s.accepted[..n], s.accepted[n]);
      var whole := Flat(s.accepted[..n + 1]);
      assert s.handed == whole[..|s.handed|];
      assert Flat(s.accepted[..n]) == whole[..|Flat(s.accepted[..n])|];
    }
  }

  /** What the two clients do: show a buffer, or pull bytes, at once or when a posted request completes. */
  datatype Call = Show(d: Senddat) | Pull(size: nat)

  function After(s: Screen, c: Call): Screen {
    match c
    case Show(d) => if |s.queue| < SENDDATQMAX then Accept(s, d) else s
    case Pull(size) => if s.queue == [] then s else Take(s, size)
  }

  function Play(calls: seq<Call>): Screen {
    if calls == [] then Screen([], [], [], []) else After(Play(calls[..|calls| - 1]), calls[|calls| - 1])
  }

  /** Over any run, with buffers and requests of any size in any order: what was given out is a prefix of
      the accepted buffers end to end; buffers are reported displayed in order, each only once all of it
      is out; and never more than SENDDATQMAX wait. */
  lemma {:induction false} AnyRun(calls: seq<Call>)
    ensures Inv(Play(calls))
    ensures var s := Play(calls);
            && s.handed <= Flat(s.accepted)
            && s.displayed <= Params(s.accepted)
            && Flat(s.accepted[..|s.displayed|]) <= s.handed
            && |s.queue| <= SENDDATQMAX
  {
    if calls == [] {
      EmptyInv();
    } else {
      var before, c := calls[..|calls| - 1], calls[|calls| - 1];
      AnyRun(before);
      if c.Show? && |Play(before).queue| < SENDDATQMAX { AcceptKeepsInv(Play(before), c.d); }
      if c.Pull? && Play(before).queue != [] { TakeKeepsInv(Play(before), c.size); }
    }
    HandedIsPrefix(Play(calls));
  }
}
