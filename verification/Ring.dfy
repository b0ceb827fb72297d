/** The byte-budgeted event ring and its cursor paging: `wokcore-diagnostics/src/ring.rs`. */
module Ring {
  import opened Prelude

  const MAX_RING_BYTES: nat := 16_777_216
  const MAX_PAGE_EVENTS: nat := 1_000
  const MAX_PAGE_BYTES: nat := 1_048_576

  datatype Event = Event(sequence: nat, id: nat, length: nat)

  datatype InsertOutcome = Inserted | Oversized | OutOfOrder

  datatype Direction = Ascending | Descending

  datatype Cursor = Cursor(sequence: nat, id: nat)

  datatype PageRequest = PageRequest(direction: Direction, cursor: Option<Cursor>, maxEvents: nat, maxBytes: nat)

  datatype Page = Page(events: seq<Event>, bytes: nat, next: Option<Cursor>)

  function Total(events: seq<Event>): nat {
    if events == [] then 0 else Total(events[..|events| - 1]) + events[|events| - 1].length
  }

  ghost predicate Increasing(events: seq<Event>) {
    forall i, j :: 0 <= i < j < |events| ==> events[i].sequence < events[j].sequence
  }

  /** The longest suffix of `all` whose encoded lengths fit the budget. */
  ghost predicate LongestSuffix(all: seq<Event>, events: seq<Event>, budget: nat) {
    && |events| <= |all| && events == all[|all| - |events|..] && Total(events) <= budget
    && (|events| < |all| ==> Total(all[|all| - |events| - 1..]) > budget)
  }

  lemma {:induction false} TotalSplit(a: seq<Event>, b: seq<Event>)
    ensures Total(a + b) == Total(a) + Total(b)
  {
    if b == [] {
      assert a + b == a;
    } else {
      var n := |b| - 1;
      TotalSplit(a, b[..n]);
      assert (a + b)[..|a| + n] == a + b[..n];
    }
  }

  lemma TotalFirst(events: seq<Event>)
    requires Total(events) > 0
    ensures events != [] && Total(events) == events[0].length + Total(events[1..])
  {
    assert events == [events[0]] + events[1..];
    TotalSplit([events[0]], events[1..]);
    TotalOne(events[0]);
  }

  lemma TotalOne(event: Event)
    ensures Total([event]) == event.length
  {
    assert [event][..0] == [];
  }

  class DiagnosticRing {
    const budget: nat
    var retained: nat
    var last: Option<nat>
    var events: seq<Event>
    ghost var all: seq<Event>

    /** The ring holds the longest suffix of everything ever inserted that fits. */
    ghost predicate Valid()
      reads this
    {
      && Increasing(all) && LongestSuffix(all, events, budget) && retained == Total(events)
      && last == (if all == [] then None else Some(all[|all| - 1].sequence))
    }

    constructor (budget: nat)
      ensures Valid() && this.budget == budget && all == [] && last == None
    {
      this.budget := budget;
      retained, last, events, all := 0, None, [], [];
    }

    method Insert(event: Event) returns (outcome: InsertOutcome)
      requires Valid()
      modifies this
      ensures Valid()
      ensures outcome == OutOfOrder <==> old(last).Some? && event.sequence <= old(last).value
      ensures outcome == Oversized <==> (old(last).None? || event.sequence > old(last).value) && event.length > budget
      ensures all == if outcome == Inserted then old(all) + [event] else old(all)
      ensures outcome != Inserted ==> events == old(events)
      ensures last == if outcome == Inserted then Some(event.sequence) else old(last)
      ensures outcome == Inserted ==>
        && 1 <= |events| <= |old(events)| + 1
        && events == old(events)[|old(events)| + 1 - |events|..] + [event]
    {
      hide Total, LongestSuffix, Increasing;
      if last.Some? && event.sequence <= last.value {
        return OutOfOrder;
      }
      if event.length > budget {
        return Oversized;
      }
      ghost var n := 0;
      ghost var held := events;
      SuffixFits(all, held, budget);
      TakeDrop(held, 0);
      while retained + event.length > budget
        invariant n <= |held| && events == held[n..] && retained == Total(events)
        invariant n > 0 ==> Total(held[n - 1..]) + event.length > budget
        invariant all == old(all) && last == old(last)
        decreases |events|
      {
        TotalFirst(events);
        DropDrop(held, n, 1);
        retained := retained - events[0].length;
        events := events[1..];
        n := n + 1;
      }
      Evicted(all, held, event, budget, n);
      Appended(all, event);
      retained := retained + event.length;
      last := Some(event.sequence);
      assert |events| == |held| - n;
      events, all := events + [event], all + [event];
      assert |held| + 1 - |events| == n && events == held[n..] + [event];
      outcome := Inserted;
    }

    /** The longest run of events right after the cursor, in the requested direction, within both limits. */
    method PageOf(request: PageRequest) returns (page: Page)
      requires Valid() && InLimits(request)
      ensures exists from: nat :: IsPage(Order(request.direction, events), request, from, page)
    {
      hide Total, LongestSuffix, IsPage, Order;
      var order := Order(request.direction, events);
      OrderSorts(all, events, budget, request.direction);
      var selected: seq<Event>, bytes: nat, next: nat := [], 0, 0;
      ghost var from: nat := 0;
      NoTotal();
      while next < |order|
        invariant from <= next <= |order| && selected == order[from..next]
        invariant bytes == Total(selected) <= request.maxBytes
        invariant (forall k :: 0 <= k < from ==> !After(request, order[k]))
        invariant (from < next ==> After(request, order[from]))
        invariant |selected| <= request.maxEvents
      {
        var event := order[next];
        if !After(request, event) || |selected| >= request.maxEvents {
          if |selected| >= request.maxEvents {
            break;
          }
          SortedAfter(request, order, from, next);
          assert from == next && selected == [];
          from := next + 1;
        } else {
          if bytes + event.length > request.maxBytes {
            break;
          }
          TotalSplit(selected, [event]);
          TotalOne(event);
          SliceJoin(order, from, next, next + 1);
          assert order[next..next + 1] == [event];
          selected, bytes := selected + [event], bytes + event.length;
        }
        next := next + 1;
      }
      page := Page(selected, bytes, if selected == [] then None else Some(CursorAt(selected[|selected| - 1])));
      PageFound(request, order, from, next, page);
    }
  }

  /** A ring exists only for a budget between the largest event and the largest ring. */
  method WithByteBudget(budget: nat) returns (ring: DiagnosticRing?)
    ensures ring != null <==> MAX_PREPARED_EVENT_BYTES <= budget <= MAX_RING_BYTES
    ensures ring != null ==> fresh(ring) && ring.Valid() && ring.budget == budget && ring.all == []
  {
    if budget < MAX_PREPARED_EVENT_BYTES || budget > MAX_RING_BYTES {
      return null;
    }
    ring := new DiagnosticRing(budget);
  }

  function CursorAt(event: Event): Cursor {
    Cursor(event.sequence, event.id)
  }

  /** Requests exist only within these limits. */
  predicate InLimits(request: PageRequest) {
    1 <= request.maxEvents <= MAX_PAGE_EVENTS && MAX_PREPARED_EVENT_BYTES <= request.maxBytes <= MAX_PAGE_BYTES
  }

  predicate KeyLess(a: Cursor, b: Cursor) {
    a.sequence < b.sequence || (a.sequence == b.sequence && a.id < b.id)
  }

  /** Whether an event lies beyond the cursor in the direction of the page. */
  predicate After(request: PageRequest, event: Event) {
    match request.cursor
    case None => true
    case Some(cursor) =>
      if request.direction == Ascending then KeyLess(cursor, CursorAt(event)) else KeyLess(CursorAt(event), cursor)
  }

  /** The order in which a page looks at the events. */
  function Order(direction: Direction, events: seq<Event>): (order: seq<Event>)
    ensures |order| == |events|
    ensures forall i :: 0 <= i < |events| ==> order[i] == events[if direction == Ascending then i else |events| - 1 - i]
  {
    if direction == Ascending then events else seq(|events|, i requires 0 <= i < |events| => events[|events| - 1 - i])
  }

  ghost predicate Sorted(direction: Direction, order: seq<Event>) {
    forall i, j :: 0 <= i < j < |order| ==>
      if direction == Ascending then order[i].sequence < order[j].sequence else order[j].sequence < order[i].sequence
  }

  lemma OrderSorts(all: seq<Event>, events: seq<Event>, budget: nat, direction: Direction)
    requires Increasing(all) && LongestSuffix(all, events, budget)
    ensures Sorted(direction, Order(direction, events)) && Increasing(events)
  {
    hide Total, Order, Increasing, Sorted;
    SuffixIncreases(all, |all| - |events|);
    OrderOfIncreasing(direction, events);
  }

  lemma SuffixIncreases(all: seq<Event>, from: nat)
    requires Increasing(all) && from <= |all|
    ensures Increasing(all[from..])
  {
  }

  lemma OrderOfIncreasing(direction: Direction, events: seq<Event>)
    requires Increasing(events)
    ensures Sorted(direction, Order(direction, events))
  {
  }

  /** Once an event lies beyond the cursor, all later ones do. */
  lemma SortedAfter(request: PageRequest, order: seq<Event>, i: nat, j: nat)
    requires Sorted(request.direction, order) && i <= j < |order| && (i < j ==> After(request, order[i]))
    ensures i < j ==> After(request, order[j])
  {
  }

  lemma NoTotal()
    ensures Total([]) == 0
  {
  }

  /** A page starts at the first event beyond the cursor and stops only at a limit or at the end. */
  ghost predicate IsPage(order: seq<Event>, request: PageRequest, from: nat, page: Page) {
    var n := |page.events|;
    && from + n <= |order| && page.events == order[from..from + n]
    && (forall k :: 0 <= k < |order| ==> (After(request, order[k]) <==> from <= k))
    && n <= request.maxEvents && page.bytes == Total(page.events) <= request.maxBytes
    && (from + n == |order| || n == request.maxEvents || page.bytes + order[from + n].length > request.maxBytes)
    && page.next == (if n == 0 then None else Some(CursorAt(page.events[n - 1])))
  }

  lemma PageFound(request: PageRequest, order: seq<Event>, from: nat, next: nat, page: Page)
    requires Sorted(request.direction, order) && from <= next <= |order|
    requires page.events == order[from..next] && page.bytes == Total(page.events) <= request.maxBytes
    requires |page.events| <= request.maxEvents
    requires page.next == if page.events == [] then None else Some(CursorAt(page.events[|page.events| - 1]))
    requires forall k :: 0 <= k < from ==> !After(request, order[k])
    requires from < next ==> After(request, order[from])
    requires next == |order| || next - from == request.maxEvents
             || (After(request, order[next]) && page.bytes + order[next].length > request.maxBytes)
    requires from == next < |order| ==> After(request, order[from])
    ensures IsPage(order, request, from, page)
  {
    hide Total;
    forall k | from <= k < |order|
      ensures After(request, order[k])
    {
      SortedAfter(request, order, from, k);
    }
  }

  lemma SuffixFits(all: seq<Event>, events: seq<Event>, budget: nat)
    requires LongestSuffix(all, events, budget)
    ensures Total(events) <= budget && |events| <= |all|
  {
  }

  lemma Appended(all: seq<Event>, event: Event)
    requires Increasing(all) && (all == [] || all[|all| - 1].sequence < event.sequence)
    ensures Increasing(all + [event])
  {
  }

  /** Evicting just enough for the new event leaves the longest suffix that fits. */
  lemma Evicted(all: seq<Event>, events: seq<Event>, event: Event, budget: nat, n: nat)
    requires LongestSuffix(all, events, budget) && n <= |events| && Total(events[n..]) + event.length <= budget
    requires n > 0 ==> Total(events[n - 1..]) + event.length > budget
    ensures LongestSuffix(all + [event], events[n..] + [event], budget)
    ensures Total(events[n..] + [event]) == Total(events[n..]) + event.length
  {
    hide Total;
    var kept, whole, base := events[n..] + [event], all + [event], |all| - |events|;
    TotalSplit(events[n..], [event]);
    TotalOne(event);
    SuffixSnoc(all, event, base + n);
    DropDrop(all, base, n);
    if n > 0 {
      SuffixSnoc(all, event, base + n - 1);
      DropDrop(all, base, n - 1);
      TotalSplit(events[n - 1..], [event]);
    } else if base > 0 {
      SuffixSnoc(all, event, base - 1);
      TotalSplit(all[base - 1..], [event]);
    }
  }

  lemma SuffixSnoc(all: seq<Event>, event: Event, from: nat)
    requires from <= |all|
    ensures (all + [event])[from..] == all[from..] + [event]
  {
  }

  lemma DropDrop(all: seq<Event>, a: nat, b: nat)
    requires a + b <= |all|
    ensures all[a..][b..] == all[a + b..]
  {
  }

  /** Continuing at the cursor of the last event of a page starts at the event after it. */
  lemma ContinuesAfter(order: seq<Event>, request: PageRequest, m: nat)
    requires Sorted(request.direction, order) && 0 < m <= |order| && request.cursor == Some(CursorAt(order[m - 1]))
    ensures forall k :: 0 <= k < |order| ==> (After(request, order[k]) <==> m <= k)
  {
    forall k | 0 <= k < |order|
      ensures After(request, order[k]) <==> m <= k
    {
      if k < m - 1 {
        assert order[k] != order[m - 1];
      }
    }
  }

  /** Following the cursors from the start visits every retained event exactly once, in either direction. */
  method Walk(ring: DiagnosticRing, direction: Direction) returns (visited: seq<Event>)
    requires ring.Valid() && forall e :: e in ring.events ==> e.length <= MAX_PREPARED_EVENT_BYTES
    ensures visited == Order(direction, ring.events)
  {
    hide Order, Total, LongestSuffix, Increasing, After, Sorted, IsPage, CursorAt;
    visited := [];
    ghost var order := Order(direction, ring.events);
    OrderSorts(ring.all, ring.events, ring.budget, direction);
    var cursor: Option<Cursor> := None;
    while true
      invariant |visited| <= |order| && visited == order[..|visited|]
      invariant cursor == if visited == [] then None else Some(CursorAt(order[|visited| - 1]))
      decreases |order| - |visited|
    {
      var maxEvents: nat :| 1 <= maxEvents <= MAX_PAGE_EVENTS;
      var maxBytes: nat :| MAX_PREPARED_EVENT_BYTES <= maxBytes <= MAX_PAGE_BYTES;
      var request := PageRequest(direction, cursor, maxEvents, maxBytes);
      var page := ring.PageOf(request);
      ghost var from: nat :| IsPage(order, request, from, page);
      StartsThere(order, request, |visited|, from, page);
      if page.next.None? {
        AllVisited(ring.events, direction, order, request, from, page);
        assert order[..|order|] == order;
        return;
      }
      visited := visited + page.events;
      cursor := page.next;
    }
  }

  lemma StartsThere(order: seq<Event>, request: PageRequest, m: nat, from: nat, page: Page)
    requires Sorted(request.direction, order) && m <= |order| && IsPage(order, request, from, page)
    requires request.cursor == if m == 0 then None else Some(CursorAt(order[m - 1]))
    ensures from == m && m + |page.events| <= |order| && order[..m] + page.events == order[..m + |page.events|]
    ensures page.next == if page.events == [] then None else Some(CursorAt(order[m + |page.events| - 1]))
  {
    hide Total, After, Sorted, CursorAt;
    if m > 0 {
      ContinuesAfter(order, request, m);
    } else {
      NoCursorNoLimit(order, request);
    }
    assert from < |order| ==> (After(request, order[from]) <==> m <= from);
    assert m < |order| ==> (After(request, order[m]) <==> from <= m);
    PrefixGrows(order, m, |page.events|);
  }

  lemma NoCursorNoLimit(order: seq<Event>, request: PageRequest)
    requires request.cursor == None
    ensures forall k :: 0 <= k < |order| ==> After(request, order[k])
  {
  }

  lemma PrefixGrows(order: seq<Event>, m: nat, n: nat)
    requires m + n <= |order|
    ensures order[..m] + order[m..m + n] == order[..m + n]
  {
  }

  /** A page is empty only when no event lies beyond its cursor. */
  lemma AllVisited(events: seq<Event>, direction: Direction, order: seq<Event>, request: PageRequest, from: nat,
                   page: Page)
    requires order == Order(direction, events) && IsPage(order, request, from, page) && InLimits(request)
    requires forall e :: e in events ==> e.length <= MAX_PREPARED_EVENT_BYTES
    requires page.next == None
    ensures from == |order|
  {
    NoTotal();
    assert forall k :: 0 <= k < |order| ==> order[k] in events;
  }

  // Walks while events arrive.

  /** Whether `y` comes after `x` in the direction of a walk. */
  predicate Beyond(direction: Direction, x: Event, y: Event) {
    if direction == Ascending then x.sequence < y.sequence else y.sequence < x.sequence
  }

  /** The walk has come past the event. A descending walk starts below what arrives after its start. */
  ghost predicate Passed(direction: Direction, visited: seq<Event>, e: Event) {
    && visited != [] && !Beyond(direction, visited[|visited| - 1], e)
    && (direction == Descending ==> e.sequence <= visited[0].sequence)
  }

  ghost predicate Covered(direction: Direction, events: seq<Event>, visited: seq<Event>) {
    forall e :: e in events && Passed(direction, visited, e) ==> e in visited
  }

  /** A walk so far: strictly sorted, made of inserted events, missing nothing retained that it has passed. */
  ghost predicate Walking(direction: Direction, all: seq<Event>, events: seq<Event>, visited: seq<Event>) {
    Sorted(direction, visited) && (forall e :: e in visited ==> e in all) && Covered(direction, events, visited)
  }

  /** New events come after everything, so inserting one leaves the walk as it was. */
  lemma WalkingInsert(direction: Direction, all: seq<Event>, events: seq<Event>, visited: seq<Event>, event: Event,
                      events': seq<Event>)
    requires Walking(direction, all, events, visited) && Increasing(all + [event])
    requires forall e :: e in events' ==> e in events || e == event
    ensures Walking(direction, all + [event], events', visited)
  {
    if visited != [] {
      assert visited[|visited| - 1] in visited && visited[0] in visited;
      NewestOfAll(all, event, visited[|visited| - 1]);
      NewestOfAll(all, event, visited[0]);
    }
  }

  lemma NewestOfAll(all: seq<Event>, event: Event, x: Event)
    requires Increasing(all + [event]) && x in all
    ensures x.sequence < event.sequence
  {
    var i :| 0 <= i < |all| && all[i] == x;
    assert (all + [event])[i] == x && (all + [event])[|all|] == event;
  }

  /** Around the cursor of an inserted event, a page splits the retained events. */
  lemma PageSplits(all: seq<Event>, order: seq<Event>, request: PageRequest, from: nat, page: Page, x: Event)
    requires Increasing(all) && (forall e :: e in order ==> e in all) && x in all
    requires IsPage(order, request, from, page) && request.cursor == Some(CursorAt(x))
    ensures forall k :: 0 <= k < |order| ==> (from <= k <==> Beyond(request.direction, x, order[k]))
  {
    hide Total, Increasing;
    forall k | 0 <= k < |order|
      ensures from <= k <==> Beyond(request.direction, x, order[k])
    {
      assert After(request, order[k]) <==> from <= k;
      assert order[k] in order;
      OneOfEach(all, x, order[k]);
    }
  }

  lemma OneOfEach(all: seq<Event>, x: Event, y: Event)
    requires Increasing(all) && x in all && y in all
    ensures x.sequence == y.sequence ==> x == y
  {
    var i :| 0 <= i < |all| && all[i] == x;
    var j :| 0 <= j < |all| && all[j] == y;
    assert i < j ==> all[i].sequence < all[j].sequence;
    assert j < i ==> all[j].sequence < all[i].sequence;
  }

  lemma SortedAppend(direction: Direction, a: seq<Event>, b: seq<Event>)
    requires Sorted(direction, a) && Sorted(direction, b)
    requires a != [] && b != [] ==> Beyond(direction, a[|a| - 1], b[0])
    ensures Sorted(direction, a + b)
  {
    var c := a + b;
    forall i, j | 0 <= i < j < |c|
      ensures Beyond(direction, c[i], c[j])
    {
      if i < |a| <= j {
        assert i < |a| - 1 ==> Beyond(direction, a[i], a[|a| - 1]);
        assert 0 < j - |a| ==> Beyond(direction, b[0], b[j - |a|]);
      }
    }
  }

  /** A page taken at the cursor of the walk extends it. */
  lemma WalkingPage(all: seq<Event>, order: seq<Event>, visited: seq<Event>, request: PageRequest, from: nat,
                    page: Page)
    requires Walking(request.direction, all, order, visited) && Increasing(all) && Sorted(request.direction, order)
    requires (forall e :: e in order ==> e in all) && IsPage(order, request, from, page) && page.events != []
    requires request.cursor == CursorOf(visited)
    ensures Walking(request.direction, all, order, visited + page.events)
  {
    hide Total, After, Increasing, CursorAt;
    SliceSorted(request.direction, order, from, |page.events|);
    if visited != [] {
      assert visited[|visited| - 1] in visited;
      PageSplits(all, order, request, from, page, visited[|visited| - 1]);
      assert page.events[0] == order[from];
    } else {
      NoCursor(order, request, from, page);
    }
    SortedAppend(request.direction, visited, page.events);
    PageCovers(request.direction, order, visited, from, page);
  }

  lemma SliceSorted(direction: Direction, order: seq<Event>, from: nat, n: nat)
    requires Sorted(direction, order) && from + n <= |order|
    ensures Sorted(direction, order[from..from + n]) && forall e :: e in order[from..from + n] ==> e in order
  {
  }

  /** What is retained and passed by the end of the page was visited before the page or is on it. */
  lemma PageCovers(direction: Direction, order: seq<Event>, visited: seq<Event>, from: nat, page: Page)
    requires Sorted(direction, order) && Covered(direction, order, visited)
    requires from + |page.events| <= |order| && page.events != [] && page.events == order[from..from + |page.events|]
    requires if visited == [] then from == 0
             else forall k :: 0 <= k < |order| ==> (from <= k <==> Beyond(direction, visited[|visited| - 1], order[k]))
    ensures Covered(direction, order, visited + page.events)
  {
    var n, after := |page.events|, visited + page.events;
    assert after[|after| - 1] == order[from + n - 1];
    assert forall k :: from + n <= k < |order| ==> Beyond(direction, order[from + n - 1], order[k]);
    forall e | e in order && Passed(direction, after, e)
      ensures e in after
    {
      var k :| 0 <= k < |order| && order[k] == e;
      if k >= from {
        assert page.events[k - from] == e;
      } else {
        assert after[0] == visited[0];
        assert Passed(direction, visited, e);
      }
    }
  }

  /** An empty page: everything retained was visited, but for what arrived after the start of a descending walk. */
  lemma NothingBeyond(all: seq<Event>, order: seq<Event>, visited: seq<Event>, request: PageRequest, from: nat,
                      page: Page)
    requires Walking(request.direction, all, order, visited) && Increasing(all)
    requires forall e :: e in order ==> e in all && e.length <= MAX_PREPARED_EVENT_BYTES
    requires IsPage(order, request, from, page) && InLimits(request) && page.events == []
    requires request.cursor == CursorOf(visited)
    ensures Exhausted(request.direction, order, visited)
  {
    hide Total, After, Increasing;
    NoTotal();
    assert forall k :: 0 <= k < |order| ==> order[k].length <= MAX_PREPARED_EVENT_BYTES;
    if visited == [] {
      NoCursor(order, request, from, page);
    } else {
      var x := visited[|visited| - 1];
      assert x in visited;
      PageSplits(all, order, request, from, page, x);
      forall e | e in order && (request.direction == Descending ==> e.sequence <= visited[0].sequence)
        ensures e in visited
      {
        var k :| 0 <= k < |order| && order[k] == e;
        assert Passed(request.direction, visited, e);
      }
    }
  }

  lemma NoCursor(order: seq<Event>, request: PageRequest, from: nat, page: Page)
    requires IsPage(order, request, from, page) && request.cursor == None
    ensures from == 0
  {
    hide Total;
    assert forall k :: 0 <= k < |order| ==> After(request, order[k]);
    assert |order| > 0 ==> After(request, order[0]);
  }

  /** Everything retained was visited, but for what arrived after the start of a descending walk. */
  ghost predicate Exhausted(direction: Direction, events: seq<Event>, visited: seq<Event>) {
    if visited == [] then events == []
    else forall e :: e in events && (direction == Descending ==> e.sequence <= visited[0].sequence) ==> e in visited
  }

  datatype Action = Arrive(event: Event) | TakePage(maxEvents: nat, maxBytes: nat)

  function CursorOf(visited: seq<Event>): Option<Cursor> {
    if visited == [] then None else Some(CursorAt(visited[|visited| - 1]))
  }

  /** The arrivals that a ring takes: in increasing sequence, each within the budget. */
  function Taken(actions: seq<Action>, budget: nat): seq<Event> {
    if actions == [] then []
    else
      var n := |actions| - 1;
      var before := Taken(actions[..n], budget);
      match actions[n]
      case Arrive(event) =>
        if (before == [] || before[|before| - 1].sequence < event.sequence) && event.length <= budget then
          before + [event]
        else before
      case TakePage(_, _) => before
  }

  /** The events of the pages, in the order they were returned. */
  function Visited(pages: seq<Page>): seq<Event> {
    if pages == [] then [] else Visited(pages[..|pages| - 1]) + pages[|pages| - 1].events
  }

  /**
   What the walk gets at action `k`: the page of what is then retained, at the cursor the pages before it left. A page
   that comes back empty means that the walk is over.
   */
  ghost predicate Paged(direction: Direction, budget: nat, actions: seq<Action>, pages: seq<Page>, k: nat)
    requires k < |actions| && k < |pages|
  {
    match actions[k]
    case Arrive(_) => pages[k].events == []
    case TakePage(maxEvents, maxBytes) =>
      exists events :: LongestSuffix(Taken(actions[..k], budget), events, budget) &&
        PageThere(events, PageRequest(direction, CursorOf(Visited(pages[..k])), maxEvents, maxBytes),
                  Visited(pages[..k]), pages[k])
  }

  ghost predicate PageThere(events: seq<Event>, request: PageRequest, visited: seq<Event>, page: Page) {
    && (exists from :: IsPage(Order(request.direction, events), request, from, page))
    && (page.events == [] ==> Exhausted(request.direction, events, visited))
  }

  lemma NothingVisited(direction: Direction, budget: nat, events: seq<Event>, actions: seq<Action>)
    requires LongestSuffix([], events, budget)
    ensures Walking(direction, [], events, Visited([])) && Taken(actions[..0], budget) == []
  {
  }

  lemma TakenNext(actions: seq<Action>, k: nat, budget: nat)
    requires k < |actions|
    ensures var before := Taken(actions[..k], budget);
            Taken(actions[..k + 1], budget)
            == if actions[k].Arrive? && (before == [] || before[|before| - 1].sequence < actions[k].event.sequence)
                  && actions[k].event.length <= budget
               then before + [actions[k].event] else before
  {
    assert actions[..k + 1][..k] == actions[..k];
  }

  lemma OrderMembers(direction: Direction, events: seq<Event>)
    ensures forall e :: e in Order(direction, events) <==> e in events
  {
    var order := Order(direction, events);
    forall e | e in events
      ensures e in order
    {
      var i :| 0 <= i < |events| && events[i] == e;
      assert order[if direction == Ascending then i else |events| - 1 - i] == e;
    }
  }

  lemma SuffixMembers(all: seq<Event>, events: seq<Event>, budget: nat)
    requires LongestSuffix(all, events, budget)
    ensures forall e :: e in events ==> e in all
  {
    hide Total;
  }

  /** A page taken at the cursor extends the walk, or ends it. */
  lemma NextPage(budget: nat, all: seq<Event>, events: seq<Event>, visited: seq<Event>, request: PageRequest, from: nat,
                 page: Page)
    requires Walking(request.direction, all, events, visited) && Increasing(all) && LongestSuffix(all, events, budget)
    requires forall e :: e in all ==> e.length <= MAX_PREPARED_EVENT_BYTES
    requires IsPage(Order(request.direction, events), request, from, page) && InLimits(request)
    requires request.cursor == CursorOf(visited)
    ensures Walking(request.direction, all, events, visited + page.events)
    ensures PageThere(events, request, visited, page)
  {
    hide Total, LongestSuffix, Increasing, IsPage, After, Sorted, Order, CursorOf, Passed;
    var order := Order(request.direction, events);
    OrderSorts(all, events, budget, request.direction);
    OrderMembers(request.direction, events);
    SuffixMembers(all, events, budget);
    if page.events == [] {
      NothingBeyond(all, order, visited, request, from, page);
      assert visited + page.events == visited;
      assert order == [] ==> events == [];
    } else {
      WalkingPage(all, order, visited, request, from, page);
    }
  }

  lemma PagedNow(direction: Direction, budget: nat, actions: seq<Action>, pages: seq<Page>, page: Page,
                 events: seq<Event>)
    requires |pages| < |actions| && LongestSuffix(Taken(actions[..|pages|], budget), events, budget)
    requires match actions[|pages|]
             case Arrive(_) => page.events == []
             case TakePage(maxEvents, maxBytes) =>
               PageThere(events, PageRequest(direction, CursorOf(Visited(pages)), maxEvents, maxBytes), Visited(pages),
                         page)
    ensures Paged(direction, budget, actions, pages + [page], |pages|)
    ensures Visited(pages + [page]) == Visited(pages) + page.events
  {
    hide LongestSuffix, PageThere, Taken;
    assert (pages + [page])[..|pages|] == pages;
  }

  lemma PagedStill(direction: Direction, budget: nat, actions: seq<Action>, pages: seq<Page>, page: Page)
    requires |pages| < |actions|
    requires forall j :: 0 <= j < |pages| ==> Paged(direction, budget, actions, pages, j)
    ensures forall j :: 0 <= j < |pages| ==> Paged(direction, budget, actions, pages + [page], j)
  {
    hide LongestSuffix, PageThere, Taken, Visited;
    forall j | 0 <= j < |pages|
      ensures Paged(direction, budget, actions, pages + [page], j)
    {
      assert (pages + [page])[..j] == pages[..j] && (pages + [page])[j] == pages[j];
      assert Paged(direction, budget, actions, pages, j);
    }
  }

  lemma WalkingFacts(direction: Direction, all: seq<Event>, events: seq<Event>, visited: seq<Event>)
    requires Walking(direction, all, events, visited)
    ensures Sorted(direction, visited) && forall e :: e in visited ==> e in all
  {
  }

  method InsertDuringWalk(ring: DiagnosticRing, direction: Direction, event: Event, ghost visited: seq<Event>)
    requires ring.Valid() && Walking(direction, ring.all, ring.events, visited)
    modifies ring
    ensures ring.Valid() && Walking(direction, ring.all, ring.events, visited)
    ensures var before := old(ring.all);
            ring.all == if (before == [] || before[|before| - 1].sequence < event.sequence)
                           && event.length <= ring.budget
                        then before + [event] else before
  {
    hide Total, LongestSuffix, Increasing, Walking;
    ghost var before, held := ring.all, ring.events;
    var outcome := ring.Insert(event);
    if outcome == Inserted {
      assert forall e :: e in ring.events ==> e in held || e == event;
      WalkingInsert(direction, before, held, visited, event, ring.events);
    }
  }

  /**
   A walk in either direction with events arriving between its pages. The ring holds the longest fitting suffix of the
   arrivals it takes, and every page is taken from that. The walk stays strictly sorted and reports only events that
   were taken. When a page comes back empty, every event then retained has been visited; a descending walk does not
   turn back for what arrived after it started.
   */
  method WalkWhileInserting(budget: nat, direction: Direction, actions: seq<Action>)
    returns (pages: seq<Page>, retained: seq<Event>)
    requires forall a :: a in actions && a.Arrive? ==> a.event.length <= MAX_PREPARED_EVENT_BYTES
    requires forall a :: a in actions && a.TakePage? ==> InLimits(PageRequest(direction, None, a.maxEvents, a.maxBytes))
    ensures |pages| == |actions|
    ensures LongestSuffix(Taken(actions, budget), retained, budget) && Increasing(Taken(actions, budget))
    ensures Sorted(direction, Visited(pages)) && forall e :: e in Visited(pages) ==> e in Taken(actions, budget)
    ensures forall k :: 0 <= k < |actions| ==> Paged(direction, budget, actions, pages, k)
  {
    hide Total, LongestSuffix, Increasing, Walking, IsPage, After, Sorted, Order, Paged, PageThere, Taken, Visited;
    var ring := new DiagnosticRing(budget);
    pages := [];
    NothingVisited(direction, budget, ring.events, actions);
    for k := 0 to |actions|
      invariant fresh(ring) && ring.Valid() && ring.budget == budget && |pages| == k
      invariant ring.all == Taken(actions[..k], budget)
      invariant forall e :: e in ring.all ==> e.length <= MAX_PREPARED_EVENT_BYTES
      invariant Walking(direction, ring.all, ring.events, Visited(pages))
      invariant forall j :: 0 <= j < k ==> Paged(direction, budget, actions, pages, j)
    {
      assert actions[k] in actions;
      ghost var held := ring.events;
      TakenNext(actions, k, budget);
      var page := Page([], 0, None);
      match actions[k] {
        case Arrive(event) =>
          InsertDuringWalk(ring, direction, event, Visited(pages));
          assert Visited(pages) + page.events == Visited(pages);
        case TakePage(maxEvents, maxBytes) =>
          var request := PageRequest(direction, CursorOf(Visited(pages)), maxEvents, maxBytes);
          page := ring.PageOf(request);
          ghost var from: nat :| IsPage(Order(direction, ring.events), request, from, page);
          NextPage(budget, ring.all, ring.events, Visited(pages), request, from, page);
      }
      PagedNow(direction, budget, actions, pages, page, held);
      PagedStill(direction, budget, actions, pages, page);
      pages := pages + [page];
    }
    assert actions[..|actions|] == actions;
    retained := ring.events;
    WalkingFacts(direction, ring.all, ring.events, Visited(pages));
  }
}
