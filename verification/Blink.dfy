/** The blink list itself: list nodes inside a fixed array, where a zero location marks a free slot
    (fish/blink.S with mp1_malloc and mp1_free of fish/fish.c). */
module Blink {
  import opened Common
  import opened BlinkPhase

  const NULL := -1

  /** One slot of blink_array; next is a slot number or NULL. */
  datatype Node = Node(item: Item, next: int)

  const FREE_NODE := Node(Item(0, 0, 0, 0, 0), NULL)

  // ----- What a well-formed list is -----

  /** The slots in list order, and for each slot its place in that order, or NULL. */
  datatype Order = Order(list: seq<int>, place: seq<int>)

  /** list has no repeats and no slot outside the array; place is its inverse. */
  ghost predicate Ordered(o: Order) {
    && |o.place| == CAPACITY
    && (forall k {:trigger o.list[k]} :: 0 <= k < |o.list| ==> 0 <= o.list[k] < CAPACITY && o.place[o.list[k]] == k)
    && (forall i {:trigger o.place[i]} :: 0 <= i < CAPACITY ==>
          o.place[i] == NULL || (0 <= o.place[i] < |o.list| && o.list[o.place[i]] == i))
  }

  /** From head, the next links run through the slots of the list, in order, and end there. */
  ghost predicate Linked(nodes: seq<Node>, head: int, list: seq<int>)
    requires forall k :: 0 <= k < |list| ==> 0 <= list[k] < |nodes|
  {
    && head == (if list == [] then NULL else list[0])
    && (forall j, k {:trigger list[j], list[k]} :: 0 <= j && k == j + 1 && k < |list| ==>
          nodes[list[j]].next == list[k])
    && (list != [] ==> nodes[list[|list| - 1]].next == NULL)
  }

  /** The list is finite and acyclic, and its slots are exactly those with a non-zero location. */
  ghost predicate WellFormed(nodes: seq<Node>, head: int, o: Order) {
    && |nodes| == CAPACITY && Ordered(o) && Linked(nodes, head, o.list)
    && (forall i {:trigger nodes[i]} :: 0 <= i < CAPACITY ==> (nodes[i].item.location != 0 <==> o.place[i] != NULL))
  }

  ghost function Items(nodes: seq<Node>, list: seq<int>): (r: seq<Item>)
    requires forall k :: 0 <= k < |list| ==> 0 <= list[k] < |nodes|
    ensures |r| == |list| && forall k {:trigger r[k]} :: 0 <= k < |list| ==> r[k] == nodes[list[k]].item
  {
    seq(|list|, k requires 0 <= k < |list| => nodes[list[k]].item)
  }

  /** The first n slots of the list, as a set. */
  ghost function Used(o: Order, n: nat): (r: set<int>)
    requires Ordered(o) && n <= |o.list|
    ensures |r| == n
    ensures forall i :: i in r <==> 0 <= i < CAPACITY && 0 <= o.place[i] < n
  {
    if n == 0 then {} else Used(o, n - 1) + {o.list[n - 1]}
  }

  /** Some slot is off the list exactly while fewer than 2000 are on it. */
  lemma SpareSlot(o: Order)
    requires Ordered(o)
    ensures |o.list| <= CAPACITY
    ensures |o.list| < CAPACITY <==> exists i :: 0 <= i < CAPACITY && o.place[i] == NULL
  {
    Pigeonhole(Used(o, |o.list|), 0, CAPACITY);
  }

  // ----- Linking and unlinking, on values -----

  /** mp1_malloc: the first slot with location 0, or NULL. */
  function FirstFree(nodes: seq<Node>): (slot: int)
    ensures slot == NULL ==> forall i :: 0 <= i < |nodes| ==> nodes[i].item.location != 0
    ensures slot != NULL ==> 0 <= slot < |nodes| && nodes[slot].item.location == 0
                               && forall i :: 0 <= i < slot ==> nodes[i].item.location != 0
  {
    FirstFreeFrom(nodes, 0)
  }

  function FirstFreeFrom(nodes: seq<Node>, k: nat): (slot: int)
    requires k <= |nodes|
    ensures slot == NULL ==> forall i :: k <= i < |nodes| ==> nodes[i].item.location != 0
    ensures slot != NULL ==> k <= slot < |nodes| && nodes[slot].item.location == 0
                               && forall i :: k <= i < slot ==> nodes[i].item.location != 0
    decreases |nodes| - k
  {
    if k == |nodes| then NULL else if nodes[k].item.location == 0 then k else FirstFreeFrom(nodes, k + 1)
  }

  /** What mp1_ioctl_add stores once a slot has been found. */
  function Pushed(nodes: seq<Node>, head: int, slot: int, i: Item): seq<Node>
    requires 0 <= slot < |nodes|
  {
    nodes[slot := Node(Fresh(i), head)]
  }

  ghost function OrderPush(o: Order, slot: int): Order {
    Order([slot] + o.list,
          seq(|o.place|, i requires 0 <= i < |o.place| =>
                if i == slot then 0 else if o.place[i] == NULL then NULL else o.place[i] + 1))
  }

  lemma PushOrdered(o: Order, slot: int)
    requires Ordered(o) && 0 <= slot < CAPACITY && o.place[slot] == NULL
    ensures Ordered(OrderPush(o, slot))
  {
    var o' := OrderPush(o, slot);
    forall k | 0 <= k < |o'.list| ensures 0 <= o'.list[k] < CAPACITY && o'.place[o'.list[k]] == k {
      if k > 0 {
        assert o'.list[k] == o.list[k - 1];
      }
    }
  }

  lemma PushWellFormed(nodes: seq<Node>, head: int, o: Order, slot: int, i: Item)
    requires WellFormed(nodes, head, o) && 0 <= slot < CAPACITY && nodes[slot].item.location == 0 && i.location != 0
    ensures WellFormed(Pushed(nodes, head, slot, i), slot, OrderPush(o, slot))
    ensures Items(Pushed(nodes, head, slot, i), OrderPush(o, slot).list) == [Fresh(i)] + Items(nodes, o.list)
  {
    PushOrdered(o, slot);
    var nodes', o' := Pushed(nodes, head, slot, i), OrderPush(o, slot);
    forall k | 0 < k < |o'.list| ensures o'.list[k] == o.list[k - 1] && o'.list[k] != slot {
      assert o.place[o.list[k - 1]] == k - 1;
    }
    forall j, k | 0 <= j && k == j + 1 && k < |o'.list| ensures nodes'[o'.list[j]].next == o'.list[k] {
      if j > 0 {
        assert nodes[o.list[j - 1]].next == o.list[k - 1];
      }
    }
  }

  /** On a well-formed list an add does to the sequence of items what it should, unless the location is 0. */
  lemma AddedSpec(nodes: seq<Node>, head: int, o: Order, i: Item)
    requires WellFormed(nodes, head, o) && i.location < CAPACITY
    ensures var slot := FirstFree(nodes);
            && (slot == NULL <==> |Items(nodes, o.list)| == CAPACITY) && |Items(nodes, o.list)| <= CAPACITY
            && (slot == NULL ==> Items(nodes, o.list) == Added(Items(nodes, o.list), i))
            && (slot != NULL && i.location != 0 ==>
                  && WellFormed(Pushed(nodes, head, slot, i), slot, OrderPush(o, slot))
                  && Items(Pushed(nodes, head, slot, i), OrderPush(o, slot).list) == Added(Items(nodes, o.list), i))
  {
    hide Linked, Ordered;
    var slot := FirstFree(nodes);
    SpareSlot(o);
    if slot == NULL {
      FullList(nodes, head, o);
    } else {
      NotFull(nodes, head, o, slot);
      if i.location != 0 {
        PushWellFormed(nodes, head, o, slot, i);
      }
    }
  }

  /** A structure at location 0 is linked in and yet counts as a free slot: no list fits. */
  lemma PushAtZero(nodes: seq<Node>, head: int, slot: int, i: Item, o': Order)
    requires |nodes| == CAPACITY && 0 <= slot < CAPACITY && i.location == 0
    ensures !WellFormed(Pushed(nodes, head, slot, i), slot, o')
  {
    var nodes' := Pushed(nodes, head, slot, i);
    assert nodes'[slot].item.location == 0;
    assert o'.list != [] && o'.list[0] == slot && Ordered(o') ==> o'.place[slot] == 0;
  }

  /** The slot that n links lead to. */
  function Walk(nodes: seq<Node>, slot: int, n: nat): int
    decreases n
  {
    if n == 0 || !(0 <= slot < |nodes|) then slot else Walk(nodes, nodes[slot].next, n - 1)
  }

  /** The slot of a structure added at location 0 is the one that the next add gets, whatever its location; it links the
      slot to itself, and no number of links leads out of the list again. */
  lemma ZeroTwiceLoops(nodes: seq<Node>, head: int, i: Item, j: Item, n: nat)
    requires FirstFree(nodes) != NULL && i.location == 0
    ensures var slot := FirstFree(nodes);
            var once := Pushed(nodes, head, slot, i);
            FirstFree(once) == slot && Walk(Pushed(once, slot, slot, j), slot, n) == slot
  {
    var slot := FirstFree(nodes);
    var once := Pushed(nodes, head, slot, i);
    hide FirstFree;
    var again := FirstFree(once);
    assert once[slot].item.location == 0;
    assert forall k :: 0 <= k < slot ==> once[k] == nodes[k];
    SelfLink(Pushed(once, slot, slot, j), slot, n);
  }

  lemma {:induction false} SelfLink(nodes: seq<Node>, slot: int, n: nat)
    requires 0 <= slot < |nodes| && nodes[slot].next == slot
    ensures Walk(nodes, slot, n) == slot
  {
    if n > 0 {
      SelfLink(nodes, slot, n - 1);
    }
  }

  /** The link to place k redirected to where that place's own link leads; head is redirected for place 0. */
  function Bypassed(nodes: seq<Node>, list: seq<int>, k: int): seq<Node>
    requires 0 <= k < |list| && forall j :: 0 <= j < |list| ==> 0 <= list[j] < |nodes|
  {
    if k == 0 then nodes else nodes[list[k - 1] := nodes[list[k - 1]].(next := nodes[list[k]].next)]
  }

  /** Unlinking place k and zeroing its slot. */
  function Unlinked(nodes: seq<Node>, list: seq<int>, k: int): (r: seq<Node>)
    requires 0 <= k < |list| && forall j :: 0 <= j < |list| ==> 0 <= list[j] < |nodes|
    ensures |r| == |nodes|
  {
    Bypassed(nodes, list, k)[list[k] := FREE_NODE]
  }

  ghost function OrderCut(o: Order, k: int): Order
    requires 0 <= k < |o.list|
  {
    Order(o.list[..k] + o.list[k + 1..],
          seq(|o.place|, i requires 0 <= i < |o.place| =>
                if o.place[i] == k then NULL else if o.place[i] > k then o.place[i] - 1 else o.place[i]))
  }

  lemma CutOrdered(o: Order, k: int)
    requires Ordered(o) && 0 <= k < |o.list|
    ensures Ordered(OrderCut(o, k))
    ensures forall i {:trigger OrderCut(o, k).list[i]} :: 0 <= i < |o.list| - 1 ==>
              OrderCut(o, k).list[i] == o.list[if i < k then i else i + 1] != o.list[k]
  {
    var o' := OrderCut(o, k);
    forall i | 0 <= i < |o'.list|
      ensures 0 <= o'.list[i] < CAPACITY && o'.place[o'.list[i]] == i
              && o'.list[i] == o.list[if i < k then i else i + 1] != o.list[k]
    {
      var j := if i < k then i else i + 1;
      assert o'.list[i] == o.list[j] && o.place[o.list[j]] == j && o.place[o.list[k]] == k;
    }
    forall i | 0 <= i < CAPACITY && o'.place[i] != NULL
      ensures 0 <= o'.place[i] < |o'.list| && o'.list[o'.place[i]] == i
    {
      assert o.list[o.place[i]] == i;
    }
  }

  lemma CutWellFormed(nodes: seq<Node>, head: int, o: Order, k: int)
    requires WellFormed(nodes, head, o) && 0 <= k < |o.list|
    ensures WellFormed(Unlinked(nodes, o.list, k), if k == 0 then nodes[head].next else head, OrderCut(o, k))
  {
    CutOrdered(o, k);
    CutLinked(nodes, head, o, k);
    var nodes', o' := Unlinked(nodes, o.list, k), OrderCut(o, k);
    assert o.place[o.list[k]] == k;
    forall i | 0 <= i < CAPACITY ensures nodes'[i].item.location != 0 <==> o'.place[i] != NULL {
      assert nodes[i].item.location != 0 <==> o.place[i] != NULL;
    }
  }

  lemma CutItems(nodes: seq<Node>, head: int, o: Order, k: int)
    requires WellFormed(nodes, head, o) && 0 <= k < |o.list| && Ordered(OrderCut(o, k))
    ensures Items(Unlinked(nodes, o.list, k), OrderCut(o, k).list)
            == Items(nodes, o.list)[..k] + Items(nodes, o.list)[k + 1..]
  {
    hide Linked;
    CutOrdered(o, k);
    var nodes', o' := Unlinked(nodes, o.list, k), OrderCut(o, k);
    var was, now := Items(nodes, o.list), Items(nodes', o'.list);
    forall i | 0 <= i < |o'.list| ensures now[i] == (was[..k] + was[k + 1..])[i] {
      assert o'.list[i] == o.list[if i < k then i else i + 1];
    }
  }

  /** Unlinking the first match of a location is deleting it from the sequence of items. */
  lemma CutSpec(nodes: seq<Node>, head: int, o: Order, k: int, location: int)
    requires WellFormed(nodes, head, o) && 0 <= k < |o.list| && k == Find(Items(nodes, o.list), location)
    ensures WellFormed(Unlinked(nodes, o.list, k), if k == 0 then nodes[head].next else head, OrderCut(o, k))
    ensures Items(Unlinked(nodes, o.list, k), OrderCut(o, k).list) == Removed(Items(nodes, o.list), location)
    ensures 0 <= head < |nodes|
  {
    CutWellFormed(nodes, head, o, k);
    CutItems(nodes, head, o, k);
  }

  /** Copying into the slot of the first match of `target` changes just that item of the sequence. */
  lemma SyncSpec(nodes: seq<Node>, head: int, o: Order, s: int, t: int, source: int, target: int)
    requires WellFormed(nodes, head, o) && 0 <= s < |o.list| && 0 <= t < |o.list|
    requires s == Find(Items(nodes, o.list), source) && t == Find(Items(nodes, o.list), target)
    ensures var edi := o.list[t];
            var nodes' := nodes[edi := nodes[edi].(item := Synced(nodes[edi].item, nodes[o.list[s]].item))];
            WellFormed(nodes', head, o) && Items(nodes', o.list) == SyncedList(Items(nodes, o.list), source, target)
  {
    hide Find, Linked;
    var edi := o.list[t];
    var nodes' := nodes[edi := nodes[edi].(item := Synced(nodes[edi].item, nodes[o.list[s]].item))];
    SameLinks(nodes, nodes', head, o);
    SyncItems(nodes, o, s, t);
  }

  lemma SyncItems(nodes: seq<Node>, o: Order, s: int, t: int)
    requires |nodes| == CAPACITY && Ordered(o) && 0 <= s < |o.list| && 0 <= t < |o.list|
    ensures var edi, items := o.list[t], Items(nodes, o.list);
            var nodes' := nodes[edi := nodes[edi].(item := Synced(nodes[edi].item, nodes[o.list[s]].item))];
            Items(nodes', o.list) == items[t := Synced(items[t], items[s])]
  {
    forall k | 0 <= k < |o.list| && k != t ensures o.list[k] != o.list[t] {
      assert o.place[o.list[k]] == k && o.place[o.list[t]] == t;
    }
  }

  /** Of the remaining slots only the one before the gap has its link changed. */
  lemma CutNext(nodes: seq<Node>, o: Order, k: int, i: int)
    requires |nodes| == CAPACITY && Ordered(o) && 0 <= k < |o.list| && 0 <= i < |o.list| - 1
    ensures var slot := o.list[if i < k then i else i + 1];
            Unlinked(nodes, o.list, k)[slot].next == if i + 1 == k then nodes[o.list[k]].next else nodes[slot].next
  {
    assert o.place[o.list[if i < k then i else i + 1]] == if i < k then i else i + 1;
    assert o.place[o.list[k]] == k;
    assert k > 0 ==> o.place[o.list[k - 1]] == k - 1;
  }

  lemma CutLinked(nodes: seq<Node>, head: int, o: Order, k: int)
    requires WellFormed(nodes, head, o) && 0 <= k < |o.list| && Ordered(OrderCut(o, k))
    ensures Linked(Unlinked(nodes, o.list, k), if k == 0 then nodes[head].next else head, OrderCut(o, k).list)
  {
    hide Unlinked;
    CutOrdered(o, k);
    var nodes', list' := Unlinked(nodes, o.list, k), OrderCut(o, k).list;
    forall i, j | 0 <= i && j == i + 1 && j < |list'| ensures nodes'[list'[i]].next == list'[j] {
      CutMiddle(nodes, head, o, k, i);
    }
    CutEnds(nodes, head, o, k);
  }

  lemma CutEnds(nodes: seq<Node>, head: int, o: Order, k: int)
    requires WellFormed(nodes, head, o) && 0 <= k < |o.list| && Ordered(OrderCut(o, k))
    ensures var list', head' := OrderCut(o, k).list, if k == 0 then nodes[head].next else head;
            && head' == (if list' == [] then NULL else list'[0])
            && (list' != [] ==> Unlinked(nodes, o.list, k)[list'[|list'| - 1]].next == NULL)
  {
    if |o.list| > 1 {
      CutNext(nodes, o, k, |o.list| - 2);
      assert nodes[o.list[0]].next == o.list[1];
    }
  }

  lemma CutMiddle(nodes: seq<Node>, head: int, o: Order, k: int, i: int)
    requires WellFormed(nodes, head, o) && 0 <= k < |o.list| && 0 <= i < |o.list| - 2
    requires Ordered(OrderCut(o, k))
    ensures var list' := OrderCut(o, k).list; Unlinked(nodes, o.list, k)[list'[i]].next == list'[i + 1]
  {
    CutNext(nodes, o, k, i);
    var list, list' := o.list, OrderCut(o, k).list;
    var a := if i < k then i else i + 1;
    assert list'[i] == list[a] && list'[i + 1] == list[if i + 1 < k then i + 1 else i + 2];
    assert nodes[list[a]].next == list[a + 1];
    assert i + 1 == k ==> nodes[list[k]].next == list[k + 1];
  }

  /** Changing items of linked slots, but neither locations nor links, keeps the list. */
  lemma SameLinks(nodes: seq<Node>, nodes': seq<Node>, head: int, o: Order)
    requires WellFormed(nodes, head, o) && |nodes'| == CAPACITY
    requires forall i :: 0 <= i < CAPACITY ==>
             nodes'[i].next == nodes[i].next && nodes'[i].item.location == nodes[i].item.location
    ensures WellFormed(nodes', head, o)
  {
  }

  // ----- The array and the head pointer, updated in place -----

  class BlinkList {
    const nodes: array<Node>
    var head: int
    ghost var order: Order

    ghost predicate Valid()
      reads this, nodes
    {
      nodes.Length == CAPACITY && WellFormed(nodes[..], head, order)
    }

    ghost function Contents(): (r: seq<Item>)
      requires Valid()
      reads this, nodes
    {
      Items(nodes[..], order.list)
    }

    /** The zeroed blink_array. */
    constructor ()
      ensures Valid() && Contents() == [] && fresh(nodes)
    {
      nodes := new Node[CAPACITY](_ => FREE_NODE);
      head := NULL;
      order := Order([], seq(CAPACITY, _ => NULL));
    }

    /** mp1_malloc. */
    method Malloc() returns (slot: int)
      requires nodes.Length == CAPACITY
      ensures slot == FirstFree(nodes[..])
      ensures Valid() ==> (slot == NULL <==> |Contents()| == CAPACITY)
    {
      slot := 0;
      while slot < CAPACITY
        invariant 0 <= slot <= CAPACITY
        invariant forall i :: 0 <= i < slot ==> nodes[i].item.location != 0
      {
        if nodes[slot].item.location == 0 {
          if Valid() {
            NotFull(nodes[..], head, order, slot);
          }
          return;
        }
        slot := slot + 1;
      }
      if Valid() {
        FullList(nodes[..], head, order);
      }
      slot := NULL;
    }

    /** mp1_find_helper: walk the links to the first match. */
    method FindHelper(location: int) returns (slot: int, ghost k: int)
      requires Valid()
      ensures k == Find(Contents(), location) && (slot == NULL <==> k == -1)
      ensures slot == if Find(Contents(), location) == -1 then NULL else order.list[Find(Contents(), location)]
    {
      slot := head;
      k := 0;
      while slot != NULL
        invariant 0 <= k <= |order.list|
        invariant slot == if k < |order.list| then order.list[k] else NULL
        invariant forall j :: 0 <= j < k ==> Contents()[j].location != Low(location)
        decreases |order.list| - k
      {
        assert Contents()[k] == nodes[slot].item;
        if nodes[slot].item.location == Low(location) {
          return;
        }
        NextLink(nodes[..], head, order, k);
        slot := nodes[slot].next;
        k := k + 1;
      }
      k := -1;
    }

    /** mp1_ioctl_add, first on any array at all. */
    method AddBlink(i: Item) returns (r: int)
      requires nodes.Length == CAPACITY && Words(i)
      modifies this, nodes
      ensures var slot := FirstFree(old(nodes[..]));
              && (r == if i.location < CAPACITY && slot != NULL then 0 else -1)
              && (r == 0 ==> head == slot && nodes[..] == Pushed(old(nodes[..]), old(head), slot, i))
              && (r == -1 ==> head == old(head) && nodes[..] == old(nodes[..]))
      ensures old(Valid()) ==>
              (r == 0 <==> i.location < CAPACITY && |old(if Valid() then Contents() else [])| < CAPACITY)
      ensures old(Valid()) && (r == -1 || i.location != 0) ==>
                Valid() && Contents() == Added(old(if Valid() then Contents() else []), i)
      ensures r == 0 && i.location == 0 ==> forall o :: !WellFormed(nodes[..], head, o)
    {
      if i.location >= CAPACITY {
        return -1;
      }
      hide WellFormed, Items, FirstFree, Added, OrderPush;
      ghost var was := nodes[..];
      var slot := Malloc();
      if Valid() {
        AddedSpec(was, head, order, i);
      }
      if slot == NULL {
        return -1;
      }
      nodes[slot] := Node(Fresh(i), head);
      assert nodes[..] == Pushed(was, head, slot, i);
      if i.location == 0 {
        forall o ensures !WellFormed(Pushed(was, head, slot, i), slot, o) {
          PushAtZero(was, head, slot, i, o);
        }
      }
      head := slot;
      order := OrderPush(order, slot);
      return 0;
    }

    /** An add at location 0 and any other add after it: the tick, which walks the list to its end, never gets there. */
    method AddAfterZero(i: Item, j: Item)
      requires Valid() && |Contents()| < CAPACITY
      requires Words(i) && i.location == 0 && Words(j) && j.location < CAPACITY
      modifies this, nodes
      ensures 0 <= head < CAPACITY && forall n: nat :: Walk(nodes[..], head, n) == head
    {
      ghost var was, top := nodes[..], head;
      var r := AddBlink(i);
      ZeroTwiceLoops(was, top, i, j, 0);
      r := AddBlink(j);
      forall n: nat ensures Walk(nodes[..], head, n) == head {
        ZeroTwiceLoops(was, top, i, j, n);
      }
    }

    method RemoveBlink(location: int) returns (r: int)
      requires Valid()
      modifies this, nodes
      ensures Valid() && Contents() == Removed(old(Contents()), location)
      ensures r == if Find(old(Contents()), location) == -1 then -1 else 0
    {
      var slot, k := FindHelper(location);
      if slot == NULL {
        return -1;
      }
      RemoveAt(slot, k, location);
      return 0;
    }

    method RemoveAt(slot: int, ghost k: int, ghost location: int)
      requires Valid() && k == Find(Contents(), location) >= 0 && slot == order.list[k]
      modifies this, nodes
      ensures Valid() && Contents() == Removed(old(Contents()), location)
    {
      hide Ordered, Linked;
      ghost var was, o := nodes[..], order;
      CutSpec(was, head, o, k, location);
      assert was[head] == nodes[head];
      UnlinkAndFree(slot, k);
      order := OrderCut(o, k);
    }

    method UnlinkAndFree(slot: int, ghost k: int)
      requires Valid() && 0 <= k < |order.list| && slot == order.list[k]
      modifies this`head, nodes
      ensures head == if k == 0 then old(nodes[head].next) else old(head)
      ensures nodes[..] == Unlinked(old(nodes[..]), order.list, k)
    {
      Unlink(slot, k);
      Free(slot);
    }

    /** mp1_free. */
    method Free(slot: int)
      requires 0 <= slot < nodes.Length
      modifies nodes
      ensures nodes[..] == old(nodes[..])[slot := FREE_NODE]
    {
      nodes[slot] := FREE_NODE;
    }

    /** remove_find_prev and the removal itself: redirect the link that points at the slot. */
    method Unlink(slot: int, ghost k: int)
      requires Valid() && 0 <= k < |order.list| && slot == order.list[k]
      modifies this`head, nodes
      ensures head == if k == 0 then old(nodes[head].next) else old(head)
      ensures nodes[..] == Bypassed(old(nodes[..]), order.list, k)
    {
      if head == slot {
        assert order.place[order.list[0]] == 0;
        head := nodes[slot].next;
        return;
      }
      var prev := head;
      ghost var p := 0;
      while nodes[prev].next != slot
        invariant 0 <= p < k && prev == order.list[p]
        invariant nodes[..] == old(nodes[..]) && head == old(head)
        decreases k - p
      {
        NextLink(nodes[..], head, order, p);
        assert p + 1 < k;
        prev := nodes[prev].next;
        p := p + 1;
      }
      NextLink(nodes[..], head, order, p);
      assert p + 1 == k;
      nodes[prev] := nodes[prev].(next := nodes[slot].next);
    }

    /** A removal undoes the addition of an item at the same place, whatever else is there. */
    method AddThenRemove(i: Item) returns (added: int, removed: int)
      requires Valid() && Words(i) && i.location != 0
      modifies this, nodes
      ensures added == 0 <==> i.location < 2000 && |old(Contents())| < 2000
      ensures added == 0 ==> removed == 0 && Valid() && Contents() == old(Contents())
    {
      ghost var items := Contents();
      added := AddBlink(i);
      if added == 0 {
        AddedIsFound(items, i);
      }
      removed := RemoveBlink(i.location);
    }

    method SyncBlink(source: int, target: int) returns (r: int)
      requires Valid()
      modifies nodes
      ensures Valid() && Contents() == SyncedList(old(Contents()), source, target)
      ensures r == 0 <==> Find(old(Contents()), source) != -1 && Find(old(Contents()), target) != -1
    {
      var esi, s := FindHelper(source);
      if esi == NULL {
        return -1;
      }
      var edi, t := FindHelper(target);
      if edi == NULL {
        return -1;
      }
      SyncSpec(nodes[..], head, order, s, t, source, target);
      nodes[edi] := nodes[edi].(item := Synced(nodes[edi].item, nodes[esi].item));
      return 0;
    }

    /** mp1_rtc_tasklet: one pass over the list. */
    method RtcTasklet()
      requires Valid()
      modifies nodes
      ensures Valid() && Contents() == TickedList(old(Contents()))
    {
      ghost var was := nodes[..];
      var slot := head;
      ghost var k := 0;
      while slot != NULL
        invariant 0 <= k <= |order.list|
        invariant slot == if k < |order.list| then order.list[k] else NULL
        invariant forall i {:trigger nodes[i]} :: 0 <= i < CAPACITY ==>
                    nodes[i] == if 0 <= order.place[i] < k then was[i].(item := Ticked(was[i].item)) else was[i]
        decreases |order.list| - k
      {
        assert order.place[order.list[k]] == k;
        nodes[slot] := nodes[slot].(item := Ticked(nodes[slot].item));
        NextLink(was, head, order, k);
        slot := nodes[slot].next;
        k := k + 1;
      }
      SameLinks(was, nodes[..], head, order);
      forall j | 0 <= j < |order.list| ensures Contents()[j] == Ticked(Items(was, order.list)[j]) {
        assert order.place[order.list[j]] == j;
      }
    }
  }

  /** Any run of adds at locations 1..1999 and beyond, removes, syncs and ticks keeps the list well-formed and does to
      it what it does to the sequence of items. */
  method RunEvents(b: BlinkList, evs: seq<Event>)
    requires b.Valid() && forall i :: 0 <= i < |evs| && evs[i].Add? ==> Words(evs[i].item) && evs[i].item.location != 0
    modifies b, b.nodes
    ensures b.Valid() && b.Contents() == NextAll(old(b.Contents()), evs)
  {
    hide Added, Removed, SyncedList, TickedList, WellFormed, Items;
    for i := 0 to |evs|
      invariant b.Valid() && NextAll(b.Contents(), evs[i..]) == NextAll(old(b.Contents()), evs)
    {
      assert evs[i..][0] == evs[i] && evs[i..][1..] == evs[i + 1..];
      var r;
      match evs[i] {
        case Add(item) => r := b.AddBlink(item);
        case Remove(location) => r := b.RemoveBlink(location);
        case Sync(source, target) => r := b.SyncBlink(source, target);
        case Tick => b.RtcTasklet();
      }
    }
    assert evs[|evs|..] == [];
  }

  /** The link of place k leads to place k + 1. */
  lemma NextLink(nodes: seq<Node>, head: int, o: Order, k: int)
    requires WellFormed(nodes, head, o) && 0 <= k < |o.list|
    ensures nodes[o.list[k]].next == if k + 1 < |o.list| then o.list[k + 1] else NULL
    ensures forall j :: 0 <= j < |o.list| && o.list[j] == nodes[o.list[k]].next ==> j == k + 1
  {
    if k + 1 < |o.list| {
      assert nodes[o.list[k]].next == o.list[k + 1];
      assert o.place[o.list[k + 1]] == k + 1;
    }
  }

  lemma NotFull(nodes: seq<Node>, head: int, o: Order, slot: int)
    requires WellFormed(nodes, head, o) && 0 <= slot < CAPACITY && nodes[slot].item.location == 0
    ensures |o.list| < CAPACITY
  {
    assert o.place[slot] == NULL;
    SpareSlot(o);
  }

  lemma FullList(nodes: seq<Node>, head: int, o: Order)
    requires WellFormed(nodes, head, o) && forall i :: 0 <= i < CAPACITY ==> nodes[i].item.location != 0
    ensures |o.list| == CAPACITY
  {
    assert forall i :: 0 <= i < CAPACITY ==> nodes[i].item.location != 0 && o.place[i] != NULL;
    SpareSlot(o);
  }
}
