/** The singly linked queue idiom of the pseudo-console driver: a head pointer, and a tail that
    points at the `next` slot the following element goes into (at first, the head itself). */
module TailQueue {

  class Node<T> {
    var next: Node?<T>
    var item: T

    constructor (item: T)
      ensures next == null && this.item == item
    {
      next, this.item := null, item;
    }
  }

  /** Which pointer the tail points at. */
  datatype Slot<T> = NoSlot | HeadSlot | NextOf(node: Node<T>)

  /** The elements that pass a test, or (`pass == false`) those that fail it, in order. */
  function Select<T>(s: seq<T>, test: T -> bool, pass: bool): seq<T> {
    if s == [] then []
    else Select(s[..|s| - 1], test, pass) + if test(s[|s| - 1]) == pass then [s[|s| - 1]] else []
  }

  /** One element passes or does not, and each is looked at by itself, in order. */
  lemma {:induction false} SelectJoins<T>(a: seq<T>, b: seq<T>, test: T -> bool, pass: bool)
    ensures Select(a + b, test, pass) == Select(a, test, pass) + Select(b, test, pass)
  {
    if b == [] {
      assert a + b == a;
    } else {
      assert (a + b)[..|a + b| - 1] == a + b[..|b| - 1];
      SelectJoins(a, b[..|b| - 1], test, pass);
    }
  }

  lemma SelectOne<T>(x: T, test: T -> bool, pass: bool)
    ensures Select([x], test, pass) == if test(x) == pass then [x] else []
  {
    assert [x][..0] == [];
  }

  function RemoveAt<T>(s: seq<T>, k: nat): (r: seq<T>)
    requires k < |s|
    ensures |r| == |s| - 1
    ensures forall i :: 0 <= i < |r| ==> r[i] == s[if i < k then i else i + 1]
    ensures forall x <- r :: x in s
    ensures r[..k] == s[..k] && r[k..] == s[k + 1..]
  {
    s[..k] + s[k + 1..]
  }

  /** Of `all`, the last `left` elements are still to be visited and end `items`. */
  ghost predicate Midway<T>(all: seq<T>, items: seq<T>, left: nat, removed: seq<T>, out: T -> bool) {
    && left <= |all| && left <= |items|
    && items[|items| - left..] == all[|all| - left..]
    && items[..|items| - left] == Select(all[..|all| - left], out, false)
    && removed == Select(all[..|all| - left], out, true)
  }

  lemma MidwayStart<T>(all: seq<T>, out: T -> bool)
    ensures Midway(all, all, |all|, [], out)
  {}

  lemma MidwayStep<T>(all: seq<T>, items: seq<T>, left: nat, removed: seq<T>, out: T -> bool)
    requires Midway(all, items, left + 1, removed, out)
    ensures left < |items|
    ensures var k := |items| - left - 1;
            if !out(items[k]) then Midway(all, items, left, removed, out)
            else Midway(all, RemoveAt(items, k), left, removed + [items[k]], out)
  {
    var k, d := |items| - left - 1, |all| - left - 1;
    assert items[k..][0] == items[k] && all[d..][0] == all[d];
    assert items[k + 1..] == items[k..][1..] && all[d + 1..] == all[d..][1..];
    assert all[..d + 1][..d] == all[..d] && items[..k + 1] == items[..k] + [items[k]];
  }

  lemma MidwayEnd<T>(all: seq<T>, items: seq<T>, removed: seq<T>, out: T -> bool)
    requires Midway(all, items, 0, removed, out)
    ensures items == Select(all, out, false) && removed == Select(all, out, true)
  {
    assert all[..|all|] == all && items[..|items|] == items;
  }

  class Queue<T> {
    var head: Node?<T>
    var tail: Slot<T>
    ghost var nodes: seq<Node<T>>
    ghost var items: seq<T>

    ghost function Repr(): set<object>
      reads this
    {
      {this as object} + set n | n in nodes :: n as object
    }

    ghost predicate Follows(i: nat)
      requires i < |nodes|
      reads this, nodes
    {
      nodes[i].next == if i + 1 < |nodes| then nodes[i + 1] else null
    }

    /** The elements hang together from the head, in order and without sharing. */
    ghost predicate Linked()
      reads this, nodes
    {
      && head == (if |nodes| == 0 then null else nodes[0])
      && |items| == |nodes|
      && (forall i :: 0 <= i < |nodes| ==> Follows(i) && nodes[i].item == items[i])
      && (forall i, j :: 0 <= i < j < |nodes| ==> nodes[i] != nodes[j])
    }

    /** ... and the tail is the last null pointer of the chain. */
    ghost predicate Valid()
      reads this, nodes
      ensures Valid() ==> Linked()
    {
      Linked() && tail == if |nodes| == 0 then HeadSlot else NextOf(nodes[|nodes| - 1])
    }

    /** The tail may also have been pointed back at the head. */
    ghost predicate Usable()
      reads this, nodes
      ensures Valid() ==> Usable()
      ensures Usable() ==> Linked()
    {
      Valid() || (Linked() && tail == HeadSlot)
    }

    lemma HeadTellsEmpty()
      requires Linked()
      ensures head == null <==> items == []
      ensures |items| == |nodes|
    {}

    constructor ()
      ensures Valid() && items == [] && Repr() == {this}
    {
      head, tail, nodes, items := null, HeadSlot, [], [];
    }

    /** Puts an element where the tail points: at the end, or, if the tail was wrong, in place of all others. */
    method Enqueue(item: T)
      requires Usable()
      modifies this, nodes
      ensures Valid() && items == (if old(Valid()) then old(items) else []) + [item]
      ensures fresh(Repr() - old(Repr()))
    {
      var n := new Node(item);
      ghost var was := nodes;
      assert |was| > 0 ==> Follows(|was| - 1) && was[|was| - 1] in was;
      match tail {
        case HeadSlot => head, nodes, items := n, [], [];
        case NextOf(last) => last.next := n;
      }
      tail := NextOf(n);
      nodes, items := nodes + [n], items + [item];
    }

    /** `head = head -> next`; the tail is not looked after. */
    method Advance() returns (item: T)
      requires Linked() && items != []
      modifies this`head, this`nodes, this`items
      ensures Linked() && old(items) == [item] + items && Repr() <= old(Repr())
      ensures nodes == old(nodes)[1..]
    {
      item := head.item;
      assert Follows(0);
      head := head.next;
      ghost var was := nodes;
      nodes, items := nodes[1..], items[1..];
      assert forall i :: 0 <= i < |nodes| ==> nodes[i] == was[i + 1];
      assert forall n <- nodes :: n in was;
    }

    method Dequeue() returns (item: T)
      requires Valid() && items != []
      modifies this
      ensures Valid() && old(items) == [item] + items && Repr() <= old(Repr())
    {
      item := Advance();
      if head == null { tail := HeadSlot; }
    }

    method First() returns (item: T)
      requires Linked() && items != []
      ensures item == items[0]
    {
      item := head.item;
    }

    /** Changes the first element in place. */
    method UpdateHead(item: T)
      requires Valid() && items != []
      modifies this`items, nodes
      ensures Valid() && items == old(items)[0 := item]
    {
      head.item := item;
      items := items[0 := item];
    }

    method PointTailAtHead()
      requires Linked() && items == []
      modifies this`tail
      ensures Valid()
    {
      tail := HeadSlot;
    }

    method ResetTail()
      requires Linked()
      modifies this`tail
      ensures Linked() && tail == HeadSlot
    {
      tail := HeadSlot;
    }

    method DropTail()
      requires Linked()
      modifies this`tail
      ensures Linked() && tail == NoSlot
    {
      tail := NoSlot;
    }

    /** Takes every element off and leaves nothing to queue on. */
    method Drain() returns (gone: seq<T>)
      requires Linked()
      modifies this
      ensures Linked() && nodes == [] && items == [] && tail == NoSlot && gone == old(items)
    {
      hide Follows, Linked, Valid, Usable, Repr;
      DropTail();
      gone := [];
      ghost var all := items;
      HeadTellsEmpty();
      while head != null
        invariant Linked() && (head == null <==> items == []) && |items| == |nodes|
        invariant tail == NoSlot && all == gone + items
        decreases |items|
      {
        ghost var rest := items;
        var item := Advance();
        Passed(gone, item, items, rest);
        gone := gone + [item];
        HeadTellsEmpty();
      }
    }

    static lemma Passed(gone: seq<T>, item: T, items: seq<T>, rest: seq<T>)
      requires rest == [item] + items
      ensures gone + rest == (gone + [item]) + items && |rest| > |items|
    {}

    /** `slot` is the pointer that leads to element `k`. */
    ghost predicate LeadsTo(slot: Slot<T>, k: nat)
      requires k <= |nodes|
      reads this
    {
      slot == if k == 0 then HeadSlot else NextOf(nodes[k - 1])
    }

    /** `*slot = iopex -> next` for the element `slot` leads to; the tail is not looked after. */
    method Unlink(slot: Slot<T>, iopex: Node<T>, ghost k: nat)
      requires Linked() && k < |nodes| && nodes[k] == iopex && LeadsTo(slot, k)
      modifies this`head, this`nodes, this`items, if slot.NextOf? then {slot.node} else {}
      ensures Linked() && nodes == RemoveAt(old(nodes), k) && items == RemoveAt(old(items), k)
      ensures iopex.next == if k < |nodes| then nodes[k] else null
    {
      hide RemoveAt;
      assert Follows(k);
      ghost var was := nodes;
      nodes, items := RemoveAt(nodes, k), RemoveAt(items, k);
      match slot {
        case HeadSlot => head := iopex.next;
        case NextOf(n) => n.next := iopex.next;
      }
      forall i | 0 <= i < |nodes| ensures Follows(i) {
        assert old(Follows(if i < k then i else i + 1));
      }
    }

    /** Walks the slots up to the given node. */
    method FindSlot(reqid: Node<T>) returns (slot: Slot<T>, gsreq: Node?<T>, ghost k: nat)
      requires Linked()
      ensures gsreq == if reqid in nodes then reqid else null
      ensures reqid in nodes ==> k < |nodes| && nodes[k] == reqid && LeadsTo(slot, k)
      ensures reqid in nodes ==> (reqid.next == null <==> k == |nodes| - 1)
    {
      slot, gsreq, k := HeadSlot, head, 0;
      while gsreq != null && gsreq != reqid
        invariant k <= |nodes| && LeadsTo(slot, k)
        invariant gsreq == (if k < |nodes| then nodes[k] else null) && (gsreq == null ==> k == |nodes|)
        invariant reqid !in nodes[..k]
        decreases |nodes| - k
      {
        assert Follows(k);
        slot, gsreq, k := NextOf(gsreq), gsreq.next, k + 1;
      }
      assert gsreq != null ==> Follows(k);
    }

    /** Changes, in place, the first element that does not pass the test. */
    method MarkFirst(done: T -> bool, mark: T -> T) returns (req: Node?<T>, ghost k: nat)
      requires Usable()
      modifies this`items, nodes
      ensures Usable() && (Valid() <==> old(Valid())) && k <= |old(items)| == |nodes|
      ensures forall i :: 0 <= i < k ==> done(old(items)[i])
      ensures if k == |nodes| then req == null && items == old(items)
              else
                && req == nodes[k] && !done(old(items)[k])
                && items == old(items)[k := mark(old(items)[k])] && req.item == items[k]
    {
      req, k := head, 0;
      while req != null && done(req.item)
        invariant k <= |nodes| && req == (if k < |nodes| then nodes[k] else null)
        invariant forall i :: 0 <= i < k ==> done(items[i])
        decreases |nodes| - k
      {
        assert Follows(k);
        req, k := req.next, k + 1;
      }
      if req != null {
        items := items[k := mark(req.item)];
        req.item := mark(req.item);
      }
    }

    /** Unlinks one finished request the way io_pt_postgsmodereq does: when it was the last in the queue,
        the tail is pointed back at the head. That is right exactly when it was the only one. */
    method Post(reqid: Node<T>, fetched: T -> bool) returns (ok: bool, ghost k: nat)
      requires Linked()
      modifies this, nodes
      ensures Linked() && Repr() <= old(Repr()) && (old(Usable()) ==> Usable())
      ensures ok <==> reqid in old(nodes) && fetched(old(reqid.item))
      ensures !ok ==> items == old(items) && (Valid() <==> old(Valid()))
      ensures ok ==> k < old(|items|) == old(|nodes|) && old(nodes)[k] == reqid && old(items)[k] == old(reqid.item)
      ensures ok ==> items == RemoveAt(old(items), k)
      ensures ok ==> (Valid() <==> items == [] || (old(Valid()) && k < |items|))
    {
      hide RemoveAt, Follows;
      var slot, gsreq;
      slot, gsreq, k := FindSlot(reqid);
      if gsreq == null || !fetched(gsreq.item) { return false, k; }
      var last := gsreq.next == null;
      Unlink(slot, gsreq, k);
      if last { ResetTail(); }
      return true, k;
    }

    /** One turn of the walk: the element with `left` after it stays or goes, and the slot moves on if it stays. */
    method Visit(slot: Slot<T>, iopex: Node<T>, stays: bool, ghost left: nat)
      returns (slot': Slot<T>, iopex': Node?<T>)
      requires Linked() && left < |nodes| && nodes[|nodes| - left - 1] == iopex && LeadsTo(slot, |nodes| - left - 1)
      modifies this`head, this`nodes, this`items, if slot.NextOf? then {slot.node} else {}
      ensures Linked() && left <= |nodes| && LeadsTo(slot', |nodes| - left) && Repr() <= old(Repr())
      ensures items == if stays then old(items) else RemoveAt(old(items), old(|items|) - left - 1)
      ensures iopex' == if left == 0 then null else nodes[|nodes| - left]
    {
      hide RemoveAt, Follows;
      ghost var k := |nodes| - left - 1;
      if stays {
        NextOfElement(k);
        slot', iopex' := NextOf(iopex), iopex.next;
      } else {
        slot' := slot;
        Unlink(slot, iopex, k);
        iopex' := iopex.next;
      }
    }

    lemma NextOfElement(k: nat)
      requires Linked() && k < |nodes|
      ensures nodes[k].next == if k + 1 < |nodes| then nodes[k + 1] else null
    {
      assert Follows(k);
    }

    lemma Begins()
      requires Valid()
      ensures LeadsTo(HeadSlot, 0) && |items| == |nodes| && head == if |nodes| == 0 then null else nodes[0]
    {}

    lemma SlotIsOurs(slot: Slot<T>, k: nat)
      requires Linked() && k < |nodes| && LeadsTo(slot, k)
      ensures |items| == |nodes| && (slot.NextOf? ==> slot.node in Repr()) && items[k] == nodes[k].item
    {
      assert Follows(k);
      assert k > 0 ==> nodes[k - 1] in nodes;
    }

    /** Unlinks what `out` selects, walking the slots; the tail becomes the slot where the walk ended. */
    method RemoveAll(out: T -> bool) returns (removed: seq<T>)
      requires Valid()
      modifies this, nodes
      ensures Valid() && items == Select(old(items), out, false) && removed == Select(old(items), out, true)
      ensures Repr() <= old(Repr())
    {
      hide Select, Follows, Midway, RemoveAt, Queue.Linked, Queue.LeadsTo, Queue.Valid;
      var slot, iopex := HeadSlot, head;
      removed := [];
      ghost var left: nat := |items|;
      Begins();
      MidwayStart(items, out);
      while iopex != null
        invariant Linked() && left <= |nodes| && LeadsTo(slot, |nodes| - left)
        invariant iopex == (if left == 0 then null else nodes[|nodes| - left]) && (left > 0 ==> iopex != null)
        invariant Repr() <= old(Repr())
        invariant Midway(old(items), items, left, removed, out)
        decreases left
      {
        left := left - 1;
        var x := iopex.item;
        MidwayStep(old(items), items, left, removed, out);
        SlotIsOurs(slot, |nodes| - left - 1);
        assert slot.NextOf? ==> slot.node in old(Repr());
        slot, iopex := Visit(slot, iopex, !out(x), left);
        if out(x) { removed := removed + [x]; }
      }
      MidwayEnd(old(items), items, removed, out);
      SetTail(slot);
    }

    method SetTail(slot: Slot<T>)
      requires Linked() && LeadsTo(slot, |nodes|)
      modifies this`tail
      ensures Valid()
    {
      tail := slot;
    }
  }
}
