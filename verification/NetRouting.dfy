/** Dispatch of packets to handlers: those that match, by priority, until one consumes. */
module NetRouting {
  import opened Bytes

  const PRIORITY_LOW := -100
  const PRIORITY_NORMAL := 0
  const PRIORITY_HIGH := 100

  datatype Item<H> = Item(handler: H, priority: int)

  datatype MaskItem<H> = MaskItem(item: Item<H>, mask: u16)

  /** Whether two words of `n` bits have a bit in common. */
  predicate CommonBit(n: nat, a: nat, b: nat) {
    n > 0 && ((a % 2 == 1 && b % 2 == 1) || CommonBit(n - 1, a / 2, b / 2))
  }

  lemma {:induction false} FullMask(n: nat, t: nat)
    requires t < Power2(n)
    ensures CommonBit(n, Power2(n) - 1, t) <==> t != 0
  {
    if n > 0 {
      FullMask(n - 1, t / 2);
      assert (Power2(n) - 1) / 2 == Power2(n - 1) - 1 && (Power2(n) - 1) % 2 == 1;
    }
  }

  /** The mask 0xffff matches every type but zero. */
  lemma MatchesAllButZero(t: u16)
    ensures CommonBit(16, 0xffff, t) <==> t != 0
  {
    assert Power2(16) == 0x1_0000 by {
      assert Power2(4) == 16;
      assert Power2(8) == 256;
      assert Power2(12) == 4096;
    }
    FullMask(16, t);
  }

  function MaskHits<H>(masks: seq<MaskItem<H>>, t: u16): seq<Item<H>> {
    if masks == [] then []
    else
      var rest := MaskHits(masks[..|masks| - 1], t);
      var last := masks[|masks| - 1];
      if CommonBit(16, last.mask, t) then rest + [last.item] else rest
  }

  /** Handlers stand in non-increasing priority. */
  predicate Sorted<H>(items: seq<Item<H>>) {
    forall i, j :: 0 <= i < j < |items| ==> items[i].priority >= items[j].priority
  }

  /** An order in which the matching handlers may be called; ties may fall either way. */
  ghost predicate Order<H>(order: seq<Item<H>>, matching: seq<Item<H>>) {
    Sorted(order) && multiset(order) == multiset(matching)
  }

  datatype Outcome = Outcome(consumed: bool, failed: bool)

  predicate Passes(o: Outcome) {
    !o.consumed && !o.failed
  }

  const IGNORED := Outcome(false, false)

  /** What a handler does may depend on everything that was called before it: it is given the
      calls so far, its own the last. */
  type Behaviour<!H> = seq<Item<H>> -> Outcome

  /** `calls` goes through `order` up to the first handler that consumes or fails. */
  ghost predicate StopsRight<H>(calls: seq<Item<H>>, order: seq<Item<H>>, behave: Behaviour<H>, o: Outcome) {
    && calls <= order
    && (forall k :: 0 < k < |calls| ==> Passes(behave(calls[..k])))
    && o == (if calls == [] then IGNORED else behave(calls))
    && (|calls| < |order| ==> !Passes(o))
  }

  class PacketRoute<H(==)> {
    var items: map<u16, seq<Item<H>>>
    var masks: seq<MaskItem<H>>

    constructor ()
      ensures items == map[] && masks == []
    {
      items, masks := map[], [];
    }

    /** The handlers for packets of type `t`, in the order of their registration. */
    function Matching(t: u16): seq<Item<H>>
      reads this
    {
      MaskHits(masks, t) + (if t in items then items[t] else [])
    }

    method Route(t: u16, priority: int, handler: H)
      modifies this`items
      ensures Matching(t) == old(Matching(t)) + [Item(handler, priority)]
      ensures forall u: u16 :: u != t ==> Matching(u) == old(Matching(u))
      ensures t in items && items[t] == (if t in old(items) then old(items)[t] else []) + [Item(handler, priority)]
      ensures items.Keys == old(items.Keys) + {t} && forall u :: u in old(items) && u != t ==> items[u] == old(items)[u]
    {
      var before := if t in items then items[t] else [];
      items := items[t := before + [Item(handler, priority)]];
    }

    method RouteMask(mask: u16, priority: int, handler: H)
      modifies this`masks
      ensures masks == old(masks) + [MaskItem(Item(handler, priority), mask)]
      ensures forall u: u16 ::
        MaskHits(masks, u) ==
        old(MaskHits(masks, u)) + if CommonBit(16, mask, u) then [Item(handler, priority)] else []
    {
      masks := masks + [MaskItem(Item(handler, priority), mask)];
      assert masks[..|masks| - 1] == old(masks);
    }

    /** Sorts by priority, highest first.  Which of several equals comes first is open. */
    static method Sort(list: seq<Item<H>>) returns (sorted: seq<Item<H>>)
      ensures Order(sorted, list)
    {
      sorted := [];
      var rest := list;
      while rest != []
        invariant multiset(sorted) + multiset(rest) == multiset(list)
        invariant Sorted(sorted) && Above(sorted, rest)
        decreases |rest|
      {
        HighestExists(rest);
        var k: nat :| k < |rest| && Highest(rest, k);
        HighestIsNext(sorted, rest, k);
        TakenOut(sorted, rest, k);
        sorted := sorted + [rest[k]];
        rest := rest[..k] + rest[k + 1..];
      }
    }

    static predicate Highest(list: seq<Item<H>>, k: nat)
      requires k < |list|
    {
      forall j :: 0 <= j < |list| ==> list[j].priority <= list[k].priority
    }

    static predicate Above(sorted: seq<Item<H>>, rest: seq<Item<H>>) {
      forall i, j :: 0 <= i < |sorted| && 0 <= j < |rest| ==> sorted[i].priority >= rest[j].priority
    }

    static lemma HighestIsNext(sorted: seq<Item<H>>, rest: seq<Item<H>>, k: nat)
      requires Sorted(sorted) && Above(sorted, rest) && k < |rest| && Highest(rest, k)
      ensures Sorted(sorted + [rest[k]]) && Above(sorted + [rest[k]], rest[..k] + rest[k + 1..])
    {
      var left := rest[..k] + rest[k + 1..];
      forall j | 0 <= j < |left|
        ensures exists i :: 0 <= i < |rest| && left[j] == rest[i]
      {
        assert left[j] == rest[if j < k then j else j + 1];
      }
    }

    static lemma TakenOut(sorted: seq<Item<H>>, rest: seq<Item<H>>, k: nat)
      requires k < |rest|
      ensures multiset(sorted + [rest[k]]) + multiset(rest[..k] + rest[k + 1..]) == multiset(sorted) + multiset(rest)
    {
      assert rest == rest[..k] + [rest[k]] + rest[k + 1..];
    }

    static lemma {:induction false} HighestExists(list: seq<Item<H>>)
      requires list != []
      ensures exists k: nat :: k < |list| && Highest(list, k)
    {
      var n := |list| - 1;
      if n == 0 {
        assert Highest(list, 0);
      } else {
        HighestExists(list[..n]);
        var k: nat :| k < n && Highest(list[..n], k);
        assert forall j :: 0 <= j < n ==> list[j] == list[..n][j];
        assert Highest(list, if list[n].priority > list[k].priority then n else k);
      }
    }

    /** The matching handlers by priority. */
    method Ordered(t: u16) returns (order: seq<Item<H>>)
      ensures Order(order, Matching(t))
    {
      var list := [];
      for i := 0 to |masks|
        invariant list == MaskHits(masks[..i], t)
      {
        assert masks[..i + 1][..i] == masks[..i];
        if CommonBit(16, masks[i].mask, t) {
          list := list + [masks[i].item];
        }
      }
      assert masks[..|masks|] == masks;
      if t in items {
        list := list + items[t];
      }
      order := Sort(list);
    }

    /** Calls the matching handlers in an order by priority until one consumes or fails. */
    method RoutePacket(t: u16, behave: Behaviour<H>)
        returns (order: seq<Item<H>>, calls: seq<Item<H>>, o: Outcome)
      ensures Order(order, Matching(t)) && StopsRight(calls, order, behave, o)
    {
      order := Ordered(t);
      calls, o := [], IGNORED;
      for i := 0 to |order|
        invariant calls == order[..i] && Passes(o)
        invariant forall k :: 0 < k < i ==> Passes(behave(calls[..k]))
        invariant o == if calls == [] then IGNORED else behave(calls)
      {
        ghost var before := calls;
        calls := calls + [order[i]];
        assert calls[..i] == before;
        assert forall k :: 0 < k < i ==> calls[..k] == before[..k];
        o := behave(calls);
        if o.consumed || o.failed {
          return;
        }
      }
    }
  }

  /** However ties fall: when the last call has priority `p`, every matching handler of a higher
      priority has been called, as often as it is registered, and none of a lower one. */
  lemma HigherBeforeLower<H>(matching: seq<Item<H>>, order: seq<Item<H>>, calls: seq<Item<H>>, x: Item<H>)
    requires Order(order, matching) && calls <= order && calls != []
    ensures var p := calls[|calls| - 1].priority;
      && (x.priority > p ==> multiset(calls)[x] == multiset(matching)[x])
      && (x.priority < p ==> multiset(calls)[x] == 0)
  {
    var n := |calls|;
    var rest := order[n..];
    assert order == calls + rest;
    assert multiset(order)[x] == multiset(calls)[x] + multiset(rest)[x];
    forall k | 0 <= k < |rest|
      ensures rest[k].priority <= calls[n - 1].priority
    {
      assert rest[k] == order[n + k] && calls[n - 1] == order[n - 1];
    }
    forall k | 0 <= k < n
      ensures calls[k].priority >= calls[n - 1].priority
    {
      assert calls[k] == order[k] && calls[n - 1] == order[n - 1];
    }
    assert x in multiset(rest) ==> x in rest;
    assert x in multiset(calls) ==> x in calls;
  }
}
