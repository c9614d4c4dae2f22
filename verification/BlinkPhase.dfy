/** The blinking of one character, tick by tick, and of a whole list of them: fish/blink.S without its pointers. */
module BlinkPhase {
  import opened Common

  /** A blink structure, minus the list link. Lengths, countdown and status are 16-bit words. */
  datatype Item = Item(location: int, onLength: int, offLength: int, countdown: int, status: int)

  predicate IsWord(x: int) {
    0 <= x < 0x1_0000
  }

  predicate Words(i: Item) {
    && IsWord(i.location) && IsWord(i.onLength) && IsWord(i.offLength) && IsWord(i.countdown)
    && (i.status == 0 || i.status == 1)
  }

  /** mp1_rtc_tasklet on one structure: count down in 16 bits, and toggle once the result is not positive as a signed
      word. */
  function Ticked(i: Item): Item {
    var c := (i.countdown - 1) % 0x1_0000;
    if 0 < c < 0x8000 then i.(countdown := c)
    else if i.status == 1 then i.(countdown := i.offLength, status := 0)
    else i.(countdown := i.onLength, status := 1)
  }

  /** What mp1_ioctl_add makes of the user's structure. */
  function Fresh(i: Item): Item {
    i.(status := 1, countdown := i.onLength)
  }

  function TickedTimes(i: Item, n: nat): Item {
    if n == 0 then i else Ticked(TickedTimes(i, n - 1))
  }

  /** How many ticks a length really lasts: 0 and lengths above 0x8000 wrap to a non-positive word at once. */
  function Lasts(length: int): (n: int)
    ensures n >= 1
  {
    if 1 <= length <= 0x8000 then length else 1
  }

  function Period(i: Item): (p: int)
    ensures p >= 2
  {
    Lasts(i.onLength) + Lasts(i.offLength)
  }

  /** The item is r ticks into its period, which begins with the on stretch. */
  ghost predicate InPhase(i: Item, r: int) {
    && Words(i) && 0 <= r < Period(i)
    && (i.status == 1 <==> r < Lasts(i.onLength))
    && Lasts(i.countdown) == if r < Lasts(i.onLength) then Lasts(i.onLength) - r else Period(i) - r
  }

  lemma TickMovesPhase(i: Item, r: int)
    requires InPhase(i, r)
    ensures InPhase(Ticked(i), if r + 1 < Period(i) then r + 1 else 0)
    ensures Period(Ticked(i)) == Period(i)
    ensures Ticked(i).location == i.location && Ticked(i).onLength == i.onLength && Ticked(i).offLength == i.offLength
  {
  }

  /** n ticks after it was added, an unsynced character is on exactly when n mod (on + off) < on. */
  lemma {:induction false} PhaseLaw(i: Item, n: nat)
    requires Words(i)
    ensures Period(TickedTimes(Fresh(i), n)) == Period(i) && TickedTimes(Fresh(i), n).onLength == i.onLength
    ensures InPhase(TickedTimes(Fresh(i), n), n % Period(i))
    ensures TickedTimes(Fresh(i), n).status == 1 <==> n % Period(i) < Lasts(i.onLength)
  {
    if n > 0 {
      PhaseLaw(i, n - 1);
      TickMovesPhase(TickedTimes(Fresh(i), n - 1), (n - 1) % Period(i));
      NextRemainder(n - 1, Period(i));
    } else {
      NextRemainder(0, Period(i));
    }
  }

  /** The obvious law, with the lengths as they are given. */
  ghost predicate PlainAt(i: Item, n: nat)
    requires i.onLength + i.offLength > 0
  {
    TickedTimes(Fresh(i), n).status == 1 <==> n % (i.onLength + i.offLength) < i.onLength
  }

  /** It holds at every moment exactly when both lengths are in 1..0x8000. */
  lemma PlainLengths(i: Item)
    requires Words(i) && i.onLength + i.offLength > 0
    ensures (forall n: nat :: PlainAt(i, n)) <==> 1 <= i.onLength <= 0x8000 && 1 <= i.offLength <= 0x8000
  {
    hide TickedTimes;
    if 1 <= i.onLength <= 0x8000 && 1 <= i.offLength <= 0x8000 {
      forall n: nat ensures PlainAt(i, n) {
        PhaseLaw(i, n);
      }
    } else {
      var n := NotPlain(i);
    }
  }

  /** When other lengths go wrong: the on-length 0 at once, a long one after one tick, the off-length 0 at the end of
      the on stretch, and a long one right after that. */
  function WrongAt(i: Item): int {
    if i.onLength == 0 then 0
    else if i.onLength > 0x8000 then 1
    else if i.offLength == 0 then i.onLength
    else i.onLength + 1
  }

  lemma NotPlain(i: Item) returns (n: nat)
    requires Words(i) && i.onLength + i.offLength > 0 && !(1 <= i.onLength <= 0x8000 && 1 <= i.offLength <= 0x8000)
    ensures n == WrongAt(i)
    ensures !PlainAt(i, n)
  {
    hide TickedTimes;
    n := WrongAt(i);
    PhaseLaw(i, n);
    var p, plain := Period(i), i.onLength + i.offLength;
    Remainder(p, if n == p then 1 else 0, if n == p then 0 else n);
    Remainder(plain, if n == plain then 1 else 0, if n == plain then 0 else n);
  }

  // ----- The list as a sequence of items -----

  datatype Event = Add(item: Item) | Remove(location: int) | Sync(source: int, target: int) | Tick

  function Low(x: int): int {
    x % 0x1_0000
  }

  /** mp1_find_helper: the first item at the location in the argument's low word, or -1. */
  function Find(items: seq<Item>, location: int): (k: int)
    ensures -1 <= k < |items|
    ensures k >= 0 ==>
              items[k].location == Low(location) && forall j :: 0 <= j < k ==> items[j].location != Low(location)
    ensures k == -1 ==> forall j :: 0 <= j < |items| ==> items[j].location != Low(location)
  {
    if items == [] then -1
    else if items[0].location == Low(location) then 0
    else
      var k := Find(items[1..], location);
      if k == -1 then -1 else k + 1
  }

  /** mp1_ioctl_sync copies lengths, countdown and status. */
  function Synced(target: Item, source: Item): Item {
    target.(onLength := source.onLength, offLength := source.offLength,
            countdown := source.countdown, status := source.status)
  }

  const CAPACITY := 80 * 25

  /** Push-front, unless the location is off the screen or all slots are taken. */
  function Added(items: seq<Item>, i: Item): seq<Item> {
    if i.location < CAPACITY && |items| < CAPACITY then [Fresh(i)] + items else items
  }

  /** Delete the first match. */
  function Removed(items: seq<Item>, location: int): seq<Item> {
    var k := Find(items, location);
    if k == -1 then items else items[..k] + items[k + 1..]
  }

  /** Copy from the first match of one location to the first match of another. */
  function SyncedList(items: seq<Item>, source: int, target: int): seq<Item> {
    var s, t := Find(items, source), Find(items, target);
    if s == -1 || t == -1 then items else items[t := Synced(items[t], items[s])]
  }

  function TickedList(items: seq<Item>): (r: seq<Item>)
    ensures |r| == |items| && forall k :: 0 <= k < |items| ==> r[k] == Ticked(items[k])
  {
    seq(|items|, k requires 0 <= k < |items| => Ticked(items[k]))
  }

  /** The whole ioctl interface on the sequence. */
  function Next(items: seq<Item>, e: Event): seq<Item> {
    match e
    case Add(i) => Added(items, i)
    case Remove(l) => Removed(items, l)
    case Sync(l, m) => SyncedList(items, l, m)
    case Tick => TickedList(items)
  }

  function NextAll(items: seq<Item>, evs: seq<Event>): seq<Item>
    decreases |evs|
  {
    if evs == [] then items else NextAll(Next(items, evs[0]), evs[1..])
  }

  /** Equal status and countdown, and equal lengths, so that they stay equal. */
  predicate InStep(a: Item, b: Item) {
    a.status == b.status && a.countdown == b.countdown && a.onLength == b.onLength && a.offLength == b.offLength
  }

  /** Where item k stands after an event that neither removes it nor synchronises it to another one. */
  function Shifted(items: seq<Item>, e: Event, k: int): int {
    match e
    case Add(_) => k + |Next(items, e)| - |items|
    case Remove(l) => if 0 <= Find(items, l) < k then k - 1 else k
    case _ => k
  }

  predicate Spares(items: seq<Item>, e: Event, k: int) {
    (e.Remove? ==> Find(items, e.location) != k) && (e.Sync? ==> Find(items, e.target) != k)
  }

  ghost predicate SparesAll(items: seq<Item>, evs: seq<Event>, k: int)
    decreases |evs|
  {
    evs == [] || (Spares(items, evs[0], k) && SparesAll(Next(items, evs[0]), evs[1..], Shifted(items, evs[0], k)))
  }

  ghost function ShiftedAll(items: seq<Item>, evs: seq<Event>, k: int): int
    decreases |evs|
  {
    if evs == [] then k else ShiftedAll(Next(items, evs[0]), evs[1..], Shifted(items, evs[0], k))
  }

  lemma SpareStep(items: seq<Item>, e: Event, k: int)
    requires 0 <= k < |items| && Spares(items, e, k)
    ensures var k' := Shifted(items, e, k);
            0 <= k' < |Next(items, e)| && Next(items, e)[k'] == if e.Tick? then Ticked(items[k]) else items[k]
  {
  }

  /** A sync puts the two items in step, and every later run of ticks, adds, removes and syncs keeps them so,
      until one of them is removed or made the target of another sync. */
  lemma {:induction false} StaysInStep(items: seq<Item>, evs: seq<Event>, a: int, b: int)
    requires 0 <= a < |items| && 0 <= b < |items| && InStep(items[a], items[b])
    requires SparesAll(items, evs, a) && SparesAll(items, evs, b)
    ensures var a', b', items' := ShiftedAll(items, evs, a), ShiftedAll(items, evs, b), NextAll(items, evs);
            0 <= a' < |items'| && 0 <= b' < |items'| && InStep(items'[a'], items'[b'])
    decreases |evs|
  {
    if evs != [] {
      SpareStep(items, evs[0], a);
      SpareStep(items, evs[0], b);
      StaysInStep(Next(items, evs[0]), evs[1..], Shifted(items, evs[0], a), Shifted(items, evs[0], b));
    }
  }

  lemma SyncPutsInStep(items: seq<Item>, l: int, m: int)
    requires Find(items, l) != -1 && Find(items, m) != -1
    ensures var items' := Next(items, Sync(l, m));
            && |items'| == |items| && InStep(items'[Find(items, l)], items'[Find(items, m)])
            && (forall k :: 0 <= k < |items| ==> items'[k].location == items[k].location)
            && (forall k :: 0 <= k < |items| && k != Find(items, m) ==> items'[k] == items[k])
  {
  }

  /** An added item is found at its own location, before any other there, with the lengths it came with; removing it
      again leaves the list as it was. The fields are written out, and so is the size of the screen. */
  lemma AddedIsFound(items: seq<Item>, i: Item)
    requires Words(i) && i.location < 2000 && |items| < 2000
    ensures var items' := Added(items, i);
            && |items'| == |items| + 1 && items'[1..] == items
            && items'[0] == Item(i.location, i.onLength, i.offLength, i.onLength, 1)
            && Find(items', i.location) == 0
            && Removed(items', i.location) == items
  {
  }

  /** Off the screen, or with 2000 on the list, nothing is added. */
  lemma NotAdded(items: seq<Item>, i: Item)
    requires i.location >= 2000 || |items| >= 2000
    ensures Added(items, i) == items
  {
  }

  /** A 32-bit argument stands for the location in its low word. */
  lemma FindsLowWord(items: seq<Item>, high: int, location: int)
    requires IsWord(location)
    ensures Find(items, 0x1_0000 * high + location) == Find(items, location)
    ensures Find(items, location) >= 0 ==> items[Find(items, location)].location == location
    ensures Find(items, location) == -1 <==> forall k :: 0 <= k < |items| ==> items[k].location != location
  {
    LowWord(high, location);
    SameFind(items, 0x1_0000 * high + location, location);
  }

  lemma LowWord(high: int, location: int)
    requires IsWord(location)
    ensures Low(0x1_0000 * high + location) == Low(location) == location
  {
  }

  lemma {:induction false} SameFind(items: seq<Item>, a: int, b: int)
    requires Low(a) == Low(b)
    ensures Find(items, a) == Find(items, b)
  {
    if items != [] {
      SameFind(items[1..], a, b);
    }
  }

  /** From a sync on, the two items are in step through any run that spares both. */
  lemma SyncedStayInStep(items: seq<Item>, l: int, m: int, evs: seq<Event>)
    requires Find(items, l) != -1 && Find(items, m) != -1
    requires var synced := Next(items, Sync(l, m));
             SparesAll(synced, evs, Find(items, l)) && SparesAll(synced, evs, Find(items, m))
    ensures var synced, items' := Next(items, Sync(l, m)), NextAll(items, [Sync(l, m)] + evs);
            var a, b := ShiftedAll(synced, evs, Find(items, l)), ShiftedAll(synced, evs, Find(items, m));
            0 <= a < |items'| && 0 <= b < |items'| && InStep(items'[a], items'[b])
  {
    SyncPutsInStep(items, l, m);
    StaysInStep(Next(items, Sync(l, m)), evs, Find(items, l), Find(items, m));
    assert ([Sync(l, m)] + evs)[1..] == evs;
  }

  ghost function Ticks(evs: seq<Event>): nat {
    if evs == [] then 0 else (if evs[0].Tick? then 1 else 0) + Ticks(evs[1..])
  }

  lemma {:induction false} TickFirst(i: Item, n: nat)
    ensures TickedTimes(Ticked(i), n) == TickedTimes(i, n + 1)
  {
    if n > 0 {
      TickFirst(i, n - 1);
    }
  }

  /** Through any run that spares it, an item only ticks. */
  lemma {:induction false} SparedItem(items: seq<Item>, evs: seq<Event>, k: int)
    requires 0 <= k < |items| && SparesAll(items, evs, k)
    ensures var k', items' := ShiftedAll(items, evs, k), NextAll(items, evs);
            0 <= k' < |items'| && items'[k'] == TickedTimes(items[k], Ticks(evs))
    decreases |evs|
  {
    if evs != [] {
      SpareStep(items, evs[0], k);
      SparedItem(Next(items, evs[0]), evs[1..], Shifted(items, evs[0], k));
      if evs[0].Tick? {
        TickFirst(items[k], Ticks(evs[1..]));
      }
    }
  }

  /** From the moment a character is added, through any run that neither removes nor synchronises it, it is on
      exactly when the number of ticks modulo its period is below its on-length. */
  lemma BlinkLaw(items: seq<Item>, i: Item, evs: seq<Event>)
    requires Words(i) && i.location < CAPACITY && |items| < CAPACITY && SparesAll(Added(items, i), evs, 0)
    ensures var k', items' := ShiftedAll(Added(items, i), evs, 0), NextAll(Added(items, i), evs);
            0 <= k' < |items'| && (items'[k'].status == 1 <==> Ticks(evs) % Period(i) < Lasts(i.onLength))
  {
    SparedItem(Added(items, i), evs, 0);
    PhaseLaw(i, Ticks(evs));
  }
}
