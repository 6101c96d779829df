/** The pseudo-console driver's queues, run by calls that each hold the database lock. */
module Conpseudo {
  import opened TailQueue
  import S = Screen
  import E = Events
  import M = Modes

  datatype Status = SUCCESS | STARTED | DEVOFFLINE | QUEUEFULL | QUEUEMPTY | NOSUCHREQ | EXQUOTAPGP

  const GETSETMODE := 6

  datatype ScrReq = ScrReq(ioop: nat, size: nat)

  function ByIoop(abortok: nat -> bool): ScrReq -> bool {
    (r: ScrReq) => abortok(r.ioop)
  }

  function Any(ioop: nat): bool { true }

  /** The part of the device that holds its get and set mode requests. */
  class ModeReqs {
    const gsreqq: Queue<M.Gsreq>
    ghost var modes: M.Modes

    ghost function Repr(): set<object>
      reads this, gsreqq
    {
      {this} + gsreqq.Repr()
    }

    ghost predicate Valid(online: bool)
      reads this, gsreqq, gsreqq.nodes
    {
      && this !in gsreqq.Repr()
      && M.Inv(modes)
      && if online then
           gsreqq.Usable() && modes.queue == gsreqq.items && (modes.broken <==> !gsreqq.Valid())
         else gsreqq.Linked() && gsreqq.items == []
    }

    constructor ()
      ensures Valid(false) && fresh(Repr())
    {
      hide Queue.Follows, M.Inv;
      M.EmptyInv();
      modes := M.EMPTY;
      gsreqq := new Queue();
    }

    /** Puts a request at the end, or, if the queue is broken, in place of all others. */
    method Ask(param: nat)
      requires Valid(true)
      modifies this`modes, gsreqq, gsreqq.nodes
      ensures Valid(true) && modes == M.Asked(old(modes), param) && fresh(Repr() - old(Repr()))
    {
      hide Queue.Follows, Queue.Linked, M.Inv;
      M.AskKeepsInv(modes, param);
      gsreqq.Enqueue(M.Gsreq(param, false));
      modes := M.Asked(modes, param);
    }

    /** The server takes up the oldest request it has not yet. */
    method FetchMode(online: bool) returns (sts: Status, req: Node?<M.Gsreq>)
      requires Valid(online)
      modifies this`modes, gsreqq`items, gsreqq.nodes
      ensures Valid(online) && modes == if online then M.Fetched(old(modes)) else old(modes)
      ensures sts == if !online then DEVOFFLINE else if req == null then QUEUEMPTY else SUCCESS
      ensures if req == null then modes == old(modes) else req in gsreqq.nodes && req.item.fetched
    {
      hide Queue.Follows, Queue.Linked, M.Inv;
      if !online { return DEVOFFLINE, null; }
      M.AfterKeepsInv(modes, M.Fetch);
      ghost var k, was := 0, gsreqq.items;
      gsreqq.HeadTellsEmpty();
      req, k := gsreqq.MarkFirst((r: M.Gsreq) => r.fetched, M.Mark);
      M.FirstNewIs(was, k);
      modes := M.Fetched(modes);
      sts := if req == null then QUEUEMPTY else SUCCESS;
    }

    /** The server is done with a request that it has taken up. */
    method PostMode(online: bool, reqid: Node<M.Gsreq>) returns (sts: Status, ghost k: nat)
      requires Valid(online)
      modifies this`modes, gsreqq, gsreqq.nodes
      ensures Valid(online) && Repr() <= old(Repr())
      ensures sts == if reqid in old(gsreqq.nodes) && old(reqid.item.fetched) then SUCCESS else NOSUCHREQ
      ensures if sts == SUCCESS then k < |old(gsreqq.nodes)| && old(gsreqq.nodes)[k] == reqid
                                     && modes == M.Posted(old(modes), k)
              else modes == old(modes)
    {
      hide Queue.Follows, Queue.Linked, M.Inv;
      gsreqq.HeadTellsEmpty();
      var ok;
      ok, k := gsreqq.Post(reqid, (r: M.Gsreq) => r.fetched);
      if !ok { return NOSUCHREQ, k; }
      M.AfterKeepsInv(modes, M.Post(k));
      modes := M.Posted(modes, k);
      sts := SUCCESS;
    }

    /** Drops everything that waits; nothing can be queued until the next setup. */
    method Drain()
      requires Valid(true)
      modifies gsreqq
      ensures Valid(false) && modes == old(modes) && gsreqq.items == []
    {
      hide Queue.Follows, M.Inv;
      var _ := gsreqq.Drain();
    }

    method PointTail()
      requires Valid(false)
      modifies this`modes, gsreqq`tail
      ensures Valid(true) && modes == M.EMPTY
    {
      hide Queue.Follows, M.Inv;
      M.EmptyInv();
      gsreqq.PointTailAtHead();
      modes := M.EMPTY;
    }
  }

  class Devex {
    var online: bool
    var terminated: bool
    var senddatqs: int
    const sendreqq: Queue<ScrReq>
    const senddatq: Queue<S.Senddat>
    const eventreqq: Queue<nat>
    const eventdatq: Queue<int>
    ghost var screen: S.Screen
    ghost var events: E.Events

    ghost predicate Separate()
      reads this, sendreqq, senddatq, eventreqq, eventdatq
    {
      && this !in sendreqq.Repr() + senddatq.Repr() + eventreqq.Repr() + eventdatq.Repr()
      && sendreqq.Repr() !! senddatq.Repr() !! eventreqq.Repr() !! eventdatq.Repr()
    }

    /** The mode requests are the device's own, apart from its other queues. */
    ghost predicate Has(reqs: ModeReqs)
      reads this, sendreqq, senddatq, eventreqq, eventdatq, reqs, reqs.gsreqq
    {
      && this !in reqs.Repr()
      && reqs.Repr() !! sendreqq.Repr() + senddatq.Repr() + eventreqq.Repr() + eventdatq.Repr()
    }

    ghost predicate Valid()
      reads this, sendreqq, sendreqq.nodes, senddatq, senddatq.nodes
      reads eventreqq, eventreqq.nodes, eventdatq, eventdatq.nodes
    {
      && Separate()
      && senddatqs == |senddatq.items|
      && S.Inv(screen) && E.Inv(events)
      && if online then
           && sendreqq.Valid() && senddatq.Valid() && eventreqq.Valid() && eventdatq.Valid()
           && screen.queue == senddatq.items
           && events.queue == eventdatq.items && events.waiting == eventreqq.items
         else
           && sendreqq.Linked() && senddatq.Linked() && eventreqq.Linked() && eventdatq.Linked()
           && sendreqq.items == [] && senddatq.items == [] && eventreqq.items == [] && eventdatq.items == []
    }

    constructor ()
      ensures Valid() && !online && !terminated
    {
      hide Queue.Follows, Queue.Linked, Queue.Valid, Queue.Repr, S.Inv, E.Inv;
      S.EmptyInv();
      E.EmptyInv();
      online, terminated, senddatqs := false, false, 0;
      sendreqq := new Queue();
      senddatq := new Queue();
      eventreqq := new Queue();
      eventdatq := new Queue();
      screen, events := S.EMPTY, E.EMPTY;
    }

    method DispStart(param: int, buff: seq<char>) returns (sts: Status, posted: seq<ScrReq>)
      requires Valid() && !terminated
      modifies this, sendreqq, senddatq, senddatq.nodes
      ensures Valid() && online == old(online) && events == old(events)
      ensures !online ==> sts == DEVOFFLINE
      ensures online ==> (sts == QUEUEFULL <==> |old(senddatq.items)| >= S.SENDDATQMAX)
      ensures if sts == STARTED then
                && screen == S.Accept(old(screen), S.Senddat(param, buff))
                && old(sendreqq.items) == posted + sendreqq.items
                && |posted| == (if old(sendreqq.items) == [] then 0 else 1)
              else screen == old(screen) && sendreqq.items == old(sendreqq.items) && posted == []
      ensures sts in {STARTED, DEVOFFLINE, QUEUEFULL, EXQUOTAPGP}
    {
      hide Queue.Follows, Queue.Linked, Queue.Valid, S.Inv, E.Inv;
      posted := [];
      if !online { return DEVOFFLINE, []; }
      if senddatqs >= S.SENDDATQMAX { return QUEUEFULL, []; }
      var noMemory: bool := *;
      if noMemory { return EXQUOTAPGP, []; }
      QueueData(param, buff);
      posted := PostRequest();
      return STARTED, posted;
    }

    /** disp_start: puts the buffer on the end of senddatq. */
    method QueueData(param: int, buff: seq<char>)
      requires Valid() && online && senddatqs < S.SENDDATQMAX
      modifies this`senddatqs, this`screen, senddatq, senddatq.nodes
      ensures Valid() && screen == S.Accept(old(screen), S.Senddat(param, buff))
    {
      hide Queue.Follows, Queue.Linked, Queue.Valid, S.Inv, E.Inv;
      S.AcceptKeepsInv(screen, S.Senddat(param, buff));
      senddatq.Enqueue(S.Senddat(param, buff));
      senddatqs := senddatqs + 1;
      screen := S.Accept(screen, S.Senddat(param, buff));
    }

    /** disp_start: if a request is waiting, the oldest is taken off to be completed. */
    method PostRequest() returns (posted: seq<ScrReq>)
      requires Valid() && online
      modifies sendreqq
      ensures Valid() && old(sendreqq.items) == posted + sendreqq.items
      ensures |posted| == if old(sendreqq.items) == [] then 0 else 1
    {
      hide Queue.Follows, Queue.Linked, Queue.Valid, S.Inv, E.Inv;
      sendreqq.HeadTellsEmpty();
      if sendreqq.head == null { return []; }
      var r := sendreqq.Dequeue();
      return [r];
    }

    /** Copies out of the first buffer what the request has room for; a buffer used up leaves the queue
        and is reported displayed. */
    method TakeHead(size: nat) returns (data: seq<char>, reported: seq<int>)
      requires Valid() && online && senddatq.items != []
      modifies this`senddatqs, this`screen, senddatq, senddatq.nodes
      ensures Valid() && screen == S.Take(old(screen), size) && screen.accepted == old(screen.accepted)
      ensures screen.handed == old(screen.handed) + data && screen.displayed == old(screen.displayed) + reported
      ensures var d := old(senddatq.items[0]);
              if size < |d.data| then
                && |data| == size && reported == []
                && senddatq.items == old(senddatq.items)[0 := d.(data := d.data[size..])]
                && forall k :: 0 <= k < size ==> data[k] == d.data[k]
              else data == d.data && reported == [d.param] && senddatq.items == old(senddatq.items)[1..]
    {
      hide Queue.Follows, Queue.Linked, Queue.Valid, S.Inv, E.Inv;
      S.TakeKeepsInv(screen, size);
      var d := senddatq.First();
      if |d.data| > size {
        data, reported := d.data[..size], [];
        senddatq.UpdateHead(d.(data := d.data[size..]));
      } else {
        var _ := senddatq.Dequeue();
        senddatqs := senddatqs - 1;
        data, reported := d.data, [d.param];
      }
      screen := S.Take(screen, size);
    }

    method GetScrData(ioop: nat, size: nat) returns (sts: Status, data: seq<char>, reported: seq<int>)
      requires Valid()
      modifies this`senddatqs, this`screen, sendreqq, sendreqq.nodes, senddatq, senddatq.nodes
      ensures Valid()
      ensures sts == (if !online then DEVOFFLINE else if old(senddatq.items) == [] then STARTED else SUCCESS)
      ensures screen == if sts == SUCCESS then S.Take(old(screen), size) else old(screen)
      ensures screen.handed == old(screen.handed) + data && screen.displayed == old(screen.displayed) + reported
      ensures |data| == if sts == SUCCESS && size < |old(senddatq.items[0]).data| then size
                        else if sts == SUCCESS then |old(senddatq.items[0]).data| else 0
      ensures sendreqq.items == old(sendreqq.items) + if sts == STARTED then [ScrReq(ioop, size)] else []
    {
      hide Queue.Follows, Queue.Linked, Queue.Valid, S.Inv, E.Inv, S.Take;
      if !online { return DEVOFFLINE, [], []; }
      senddatq.HeadTellsEmpty();
      if senddatq.head == null {
        sendreqq.Enqueue(ScrReq(ioop, size));
        return STARTED, [], [];
      }
      data, reported := TakeHead(size);
      sts := SUCCESS;
    }

    /** Completion of a posted request, in its own address space and at any later time: the data may be
        gone, and the device may be. */
    method SendreqIodone(req: ScrReq) returns (data: seq<char>, reported: seq<int>)
      requires Valid()
      modifies this`senddatqs, this`screen, senddatq, senddatq.nodes
      ensures Valid() && sendreqq.items == old(sendreqq.items)
      ensures screen == if online && old(senddatq.items) != [] then S.Take(old(screen), req.size) else old(screen)
      ensures screen.handed == old(screen.handed) + data && screen.displayed == old(screen.displayed) + reported
      ensures |data| == if !online || old(senddatq.items) == [] then 0
                        else if req.size < |old(senddatq.items[0]).data| then req.size
                        else |old(senddatq.items[0]).data|
    {
      hide Queue.Follows, Queue.Linked, Queue.Valid, S.Inv, E.Inv, S.Take;
      data, reported := [], [];
      if online {
        senddatq.HeadTellsEmpty();
        if senddatq.head != null {
          data, reported := TakeHead(req.size);
        }
      }
    }

    method GotEvent(event: int) returns (posted: seq<(nat, int)>)
      requires Valid()
      modifies this`events, eventreqq, eventdatq, eventdatq.nodes
      ensures Valid()
      ensures events == if online then E.Got(old(events), event) else old(events)
      ensures events.matched == old(events.matched) + posted || (!online && posted == [])
    {
      hide Queue.Follows, Queue.Linked, Queue.Valid, S.Inv, E.Inv;
      if !online { return []; }
      E.GotKeepsInv(events, event);
      events := E.Got(events, event);
      eventreqq.HeadTellsEmpty();
      if eventreqq.head == null {
        eventdatq.Enqueue(event);
        return [];
      }
      var r := eventreqq.Dequeue();
      return [(r, event)];
    }

    method GetEvent(ioop: nat) returns (sts: Status, event: int)
      requires Valid()
      modifies this`events, eventdatq, eventreqq, eventreqq.nodes
      ensures Valid()
      ensures sts == (if !online then DEVOFFLINE else if old(eventdatq.items) == [] then STARTED else SUCCESS)
      ensures events == if online then E.Ask(old(events), ioop) else old(events)
      ensures sts == SUCCESS ==> events.matched == old(events.matched) + [(ioop, event)]
    {
      hide Queue.Follows, Queue.Linked, Queue.Valid, S.Inv, E.Inv;
      event := 0;
      if !online { return DEVOFFLINE, event; }
      E.AskKeepsInv(events, ioop);
      events := E.Ask(events, ioop);
      eventdatq.HeadTellsEmpty();
      if eventdatq.head == null {
        eventreqq.Enqueue(ioop);
        return STARTED, event;
      }
      event := eventdatq.Dequeue();
      return SUCCESS, event;
    }

    /** The class driver asks for the modes; an event tells the server. */
    method GetSetMode(reqs: ModeReqs, param: nat) returns (sts: Status, posted: seq<(nat, int)>)
      requires Valid() && online && reqs.Valid(true) && Has(reqs)
      modifies this`events, eventreqq, eventdatq, eventdatq.nodes, reqs`modes, reqs.gsreqq, reqs.gsreqq.nodes
      ensures Valid() && reqs.Valid(true) && sts in {STARTED, EXQUOTAPGP}
      ensures sts == STARTED ==> reqs.modes == M.Asked(old(reqs.modes), param)
      ensures sts == STARTED ==> events == E.Got(old(events), GETSETMODE)
      ensures sts != STARTED ==> reqs.modes == old(reqs.modes) && events == old(events) && posted == []
      ensures events.matched == old(events.matched) + posted
    {
      hide Queue.Follows, Queue.Linked, Queue.Valid, Queue.Usable, S.Inv, E.Inv, M.Inv, ModeReqs.Valid;
      if * { return EXQUOTAPGP, []; }
      reqs.Ask(param);
      posted := GotEvent(GETSETMODE);
      sts := STARTED;
    }

    /** Aborts exactly the waiting requests that may be aborted; the others keep their order. */
    method Abort(master: bool, abortok: nat -> bool) returns (aborted: seq<ScrReq>, abortedEvents: seq<nat>)
      requires Valid() && (master ==> online)
      modifies this`events, sendreqq, sendreqq.nodes, eventreqq, eventreqq.nodes
      ensures Valid()
      ensures aborted == (if master then Select(old(sendreqq.items), ByIoop(abortok), true) else [])
      ensures abortedEvents == (if master then Select(old(events.waiting), abortok, true) else [])
      ensures sendreqq.items ==
              if master then Select(old(sendreqq.items), ByIoop(abortok), false) else old(sendreqq.items)
      ensures events == if master then E.Abort(old(events), abortok) else old(events)
    {
      hide Queue.Follows, Queue.Linked, Queue.Valid, S.Inv, E.Inv, E.AbortThose, Select;
      aborted, abortedEvents := [], [];
      if master {
        E.AbortKeepsInv(events, abortok);
        aborted := sendreqq.RemoveAll(ByIoop(abortok));
        abortedEvents := eventreqq.RemoveAll(abortok);
        events := E.Abort(events, abortok);
      }
    }

    /** The server's channel goes away: every waiting request is aborted, oldest first, left-over data
        and events are dropped unreported, and nothing can be queued until the next setup. */
    method Deassign(reqs: ModeReqs) returns (aborted: seq<ScrReq>, abortedEvents: seq<nat>)
      requires Valid() && online && reqs.Valid(true) && Has(reqs)
      modifies this, sendreqq, senddatq, eventreqq, eventdatq, reqs.gsreqq
      ensures Valid() && !online && terminated == old(terminated)
      ensures reqs.Valid(false) && reqs.modes == old(reqs.modes)
      ensures aborted == old(sendreqq.items) && abortedEvents == old(eventreqq.items)
      ensures screen == old(screen) && events == E.Abort(old(events), Any)
      ensures senddatq.items == [] && eventdatq.items == [] && reqs.gsreqq.items == []
    {
      hide Queue.Follows, Queue.Linked, Queue.Valid, Queue.Usable, S.Inv, E.Inv, M.Inv, ModeReqs.Valid;
      aborted, abortedEvents := GoOffline();
      reqs.Drain();
    }

    method GoOffline() returns (aborted: seq<ScrReq>, abortedEvents: seq<nat>)
      requires Valid() && online
      modifies this, sendreqq, senddatq, eventreqq, eventdatq
      ensures Valid() && !online && terminated == old(terminated)
      ensures sendreqq.nodes == [] && eventreqq.nodes == [] && senddatq.nodes == [] && eventdatq.nodes == []
      ensures aborted == old(sendreqq.items) && abortedEvents == old(eventreqq.items)
      ensures screen == old(screen) && events == E.Abort(old(events), Any)
      ensures senddatq.items == [] && eventdatq.items == []
    {
      hide Queue.Follows, Queue.Linked, Queue.Valid, S.Inv, E.Inv;
      E.AbortKeepsInv(events, Any);
      aborted, abortedEvents := DrainRequests();
      DrainData();
      events := E.Abort(events, Any);
      online := false;
    }

    method DrainRequests() returns (aborted: seq<ScrReq>, abortedEvents: seq<nat>)
      requires Separate() && sendreqq.Valid() && eventreqq.Valid()
      modifies sendreqq, eventreqq
      ensures Separate() && sendreqq.Linked() && sendreqq.items == [] && eventreqq.Linked() && eventreqq.items == []
      ensures sendreqq.nodes == [] && eventreqq.nodes == []
      ensures aborted == old(sendreqq.items) && abortedEvents == old(eventreqq.items)
    {
      hide Queue.Follows, Queue.Linked, Queue.Valid;
      aborted := sendreqq.Drain();
      abortedEvents := eventreqq.Drain();
    }

    method DrainData()
      requires Separate() && senddatq.Valid() && eventdatq.Valid() && senddatqs == |senddatq.items|
      modifies senddatq, eventdatq, this`senddatqs
      ensures Separate() && senddatq.Linked() && senddatq.items == [] && eventdatq.Linked() && eventdatq.items == []
      ensures senddatqs == 0 && senddatq.nodes == [] && eventdatq.nodes == []
    {
      hide Queue.Follows, Queue.Linked, Queue.Valid;
      var data := senddatq.Drain();
      senddatqs := senddatqs - |data|;
      var _ := eventdatq.Drain();
    }

    method Setup(reqs: ModeReqs) returns (ok: bool)
      requires Valid() && reqs.Valid(online) && Has(reqs)
      modifies this, sendreqq, senddatq, eventreqq, eventdatq, reqs`modes, reqs.gsreqq
      ensures Valid() && reqs.Valid(online) && terminated == old(terminated)
      ensures ok ==> !old(online) && !terminated && online
      ensures ok ==> screen == S.EMPTY && events == E.EMPTY && reqs.modes == M.EMPTY
      ensures !ok ==> online == old(online) && screen == old(screen) && events == old(events)
      ensures !ok ==> reqs.modes == old(reqs.modes)
    {
      hide Queue.Follows, Queue.Linked, Queue.Valid, Queue.Usable, S.Inv, E.Inv, M.Inv, ModeReqs.Valid;
      S.EmptyInv();
      E.EmptyInv();
      var classOpens: bool := *;
      if online || terminated || !classOpens { return false; }
      PointTails();
      reqs.PointTail();
      online := true;
      screen, events := S.EMPTY, E.EMPTY;
      return true;
    }

    method PointTails()
      requires Separate()
      requires sendreqq.Linked() && senddatq.Linked() && eventreqq.Linked() && eventdatq.Linked()
      requires sendreqq.items == [] && senddatq.items == [] && eventreqq.items == [] && eventdatq.items == []
      modifies sendreqq`tail, senddatq`tail, eventreqq`tail, eventdatq`tail
      ensures sendreqq.Valid() && senddatq.Valid() && eventreqq.Valid() && eventdatq.Valid()
    {
      hide Queue.Follows, Queue.Linked, Queue.Valid;
      senddatq.PointTailAtHead();
      sendreqq.PointTailAtHead();
      eventdatq.PointTailAtHead();
      eventreqq.PointTailAtHead();
    }
  }
}
