/**
 The failure snapshot owner's cooldown table and sliding write budget: `SnapshotOwner::process`, `account_published`
 and `record_cooldown` of `wokcore-diagnostics/src/snapshot.rs`. Writing the snapshot may fail when the environment
 is not calm; observed times need not be monotone.
 */
module SnapshotBudget {
  import opened Prelude

  const SNAPSHOT_COOLDOWN_SECONDS: nat := 60
  const MAX_FAILURE_SNAPSHOT_BYTES: nat := 2_097_152
  const SNAPSHOT_WRITE_BUDGET_HARD_MAX: nat := 8_388_608
  const MAX_COOLDOWN_KEYS: nat := 256
  const WINDOW: nat := 60

  /** The cause and correlation of a failure, as one value. */
  type Key = nat

  datatype Request = Request(key: Key, observed: nat, bytes: nat)

  datatype Outcome = Written | Cooling | OverBudget | TooLarge | WriteFailed

  datatype Cooldown = Cooldown(key: Key, last: nat)

  datatype Bucket = Bucket(second: nat, bytes: nat)

  /** A snapshot that reached its file: its key and observed time, and the budget clock it was charged to. */
  datatype Publication = Publication(key: Key, observed: nat, clock: nat, bytes: nat)

  function SaturatingSub(a: nat, b: nat): nat {
    if a < b then 0 else a - b
  }

  function Max(a: nat, b: nat): nat {
    if a < b then b else a
  }

  // Budget arithmetic.

  function TotalOf(buckets: seq<Bucket>): nat {
    if buckets == [] then 0 else TotalOf(buckets[..|buckets| - 1]) + buckets[|buckets| - 1].bytes
  }

  /** Bytes in buckets from a second on. */
  function BucketsFrom(buckets: seq<Bucket>, second: int): nat {
    if buckets == [] then 0
    else
      var last := buckets[|buckets| - 1];
      BucketsFrom(buckets[..|buckets| - 1], second) + if last.second >= second then last.bytes else 0
  }

  /** Bytes published from a second of the budget clock on. */
  function SpentFrom(history: seq<Publication>, second: int): nat {
    if history == [] then 0
    else
      var last := history[|history| - 1];
      SpentFrom(history[..|history| - 1], second) + if last.clock >= second then last.bytes else 0
  }

  /** Bytes published in the minute of the budget clock that starts at a second. */
  function SpentWithin(history: seq<Publication>, second: int): nat {
    if history == [] then 0
    else
      var last := history[|history| - 1];
      SpentWithin(history[..|history| - 1], second)
      + if second <= last.clock < second + WINDOW then last.bytes else 0
  }

  /** Buckets less than a minute behind the clock. */
  function Retained(buckets: seq<Bucket>, clock: nat): seq<Bucket> {
    if buckets == [] then []
    else
      var last := buckets[|buckets| - 1];
      Retained(buckets[..|buckets| - 1], clock) + if SaturatingSub(clock, last.second) < WINDOW then [last] else []
  }

  /** Add bytes to the bucket of a second, or open one. */
  function Charged(buckets: seq<Bucket>, second: nat, bytes: nat): seq<Bucket> {
    if buckets == [] then [Bucket(second, bytes)]
    else if buckets[0].second == second then [Bucket(second, buckets[0].bytes + bytes)] + buckets[1..]
    else [buckets[0]] + Charged(buckets[1..], second, bytes)
  }

  lemma {:induction false} RetainedFrom(buckets: seq<Bucket>, clock: nat, second: int)
    requires second > clock - WINDOW
    ensures BucketsFrom(Retained(buckets, clock), second) == BucketsFrom(buckets, second)
  {
    if buckets != [] {
      var n, last := |buckets| - 1, buckets[|buckets| - 1];
      RetainedFrom(buckets[..n], clock, second);
      if SaturatingSub(clock, last.second) < WINDOW {
        assert (Retained(buckets[..n], clock) + [last])[..|Retained(buckets[..n], clock)|]
            == Retained(buckets[..n], clock);
      } else {
        assert Retained(buckets[..n], clock) + [] == Retained(buckets[..n], clock);
      }
    }
  }

  /** All that is retained lies within the minute that ends at the clock. */
  lemma {:induction false} RetainedTotal(buckets: seq<Bucket>, clock: nat)
    ensures TotalOf(Retained(buckets, clock)) == BucketsFrom(buckets, clock - WINDOW + 1)
  {
    if buckets != [] {
      var n, last := |buckets| - 1, buckets[|buckets| - 1];
      RetainedTotal(buckets[..n], clock);
      if SaturatingSub(clock, last.second) < WINDOW {
        assert (Retained(buckets[..n], clock) + [last])[..|Retained(buckets[..n], clock)|]
            == Retained(buckets[..n], clock);
      } else {
        assert Retained(buckets[..n], clock) + [] == Retained(buckets[..n], clock);
      }
    }
  }

  lemma {:induction false} BucketsSplit(a: seq<Bucket>, b: seq<Bucket>, second: int)
    ensures BucketsFrom(a + b, second) == BucketsFrom(a, second) + BucketsFrom(b, second)
  {
    if b == [] {
      assert a + b == a;
    } else {
      var n := |b| - 1;
      BucketsSplit(a, b[..n], second);
      assert (a + b)[..|a| + n] == a + b[..n];
    }
  }

  lemma OneBucket(bucket: Bucket, second: int)
    ensures BucketsFrom([bucket], second) == if bucket.second >= second then bucket.bytes else 0
  {
    assert [bucket][..0] == [];
  }

  lemma {:induction false} ChargedFrom(buckets: seq<Bucket>, at: nat, bytes: nat, second: int)
    ensures BucketsFrom(Charged(buckets, at, bytes), second)
            == BucketsFrom(buckets, second) + if at >= second then bytes else 0
  {
    if buckets == [] {
      OneBucket(Bucket(at, bytes), second);
    } else {
      var first, rest := buckets[0], buckets[1..];
      assert buckets == [first] + rest;
      BucketsSplit([first], rest, second);
      OneBucket(first, second);
      if first.second == at {
        BucketsSplit([Bucket(at, first.bytes + bytes)], rest, second);
        OneBucket(Bucket(at, first.bytes + bytes), second);
      } else {
        ChargedFrom(rest, at, bytes, second);
        BucketsSplit([first], Charged(rest, at, bytes), second);
      }
    }
  }

  lemma {:induction false} SpentShrinks(history: seq<Publication>, early: int, late: int)
    requires early <= late
    ensures SpentFrom(history, late) <= SpentFrom(history, early)
    ensures SpentWithin(history, late) <= SpentFrom(history, late)
  {
    if history != [] {
      SpentShrinks(history[..|history| - 1], early, late);
    }
  }

  lemma SpentMore(history: seq<Publication>, p: Publication, second: int)
    ensures SpentFrom(history + [p], second) == SpentFrom(history, second) + if p.clock >= second then p.bytes else 0
    ensures SpentWithin(history + [p], second)
            == SpentWithin(history, second) + if second <= p.clock < second + WINDOW then p.bytes else 0
  {
    assert (history + [p])[..|history|] == history;
  }

  /** The buckets tell what was published since any second of the last minute. */
  ghost predicate Accounts(buckets: seq<Bucket>, history: seq<Publication>, clock: nat) {
    forall second: int :: second > clock - WINDOW ==> BucketsFrom(buckets, second) == SpentFrom(history, second)
  }

  /** No minute of the budget clock holds more than the budget. */
  ghost predicate WithinBudget(history: seq<Publication>, budget: nat) {
    forall second: int :: SpentWithin(history, second) <= budget
  }

  lemma ClockAdvances(buckets: seq<Bucket>, history: seq<Publication>, clock: nat, later: nat)
    requires Accounts(buckets, history, clock) && clock <= later
    ensures Accounts(Retained(buckets, later), history, later)
    ensures TotalOf(Retained(buckets, later)) == SpentFrom(history, later - WINDOW + 1)
  {
    hide BucketsFrom, SpentFrom, Retained;
    RetainedTotal(buckets, later);
    forall second: int | second > later - WINDOW
      ensures BucketsFrom(Retained(buckets, later), second) == SpentFrom(history, second)
    {
      RetainedFrom(buckets, later, second);
    }
  }

  lemma PublishingFits(buckets: seq<Bucket>, history: seq<Publication>, clock: nat, p: Publication, budget: nat)
    requires Accounts(buckets, history, clock) && WithinBudget(history, budget) && p.clock == clock
    requires SpentFrom(history, clock - WINDOW + 1) + p.bytes <= budget
    ensures Accounts(Charged(buckets, clock, p.bytes), history + [p], clock) && WithinBudget(history + [p], budget)
  {
    hide BucketsFrom, SpentFrom, SpentWithin, Charged;
    forall second: int | second > clock - WINDOW
      ensures BucketsFrom(Charged(buckets, clock, p.bytes), second) == SpentFrom(history + [p], second)
    {
      ChargedFrom(buckets, clock, p.bytes, second);
      SpentMore(history, p, second);
    }
    forall second: int
      ensures SpentWithin(history + [p], second) <= budget
    {
      SpentMore(history, p, second);
      if second <= clock < second + WINDOW {
        SpentShrinks(history, clock - WINDOW + 1, second);
      }
    }
  }

  // The cooldown table.

  function IndexOf(cooldowns: seq<Cooldown>, key: Key): (i: nat)
    ensures i <= |cooldowns| && (i < |cooldowns| ==> cooldowns[i].key == key)
    ensures forall j :: 0 <= j < i ==> cooldowns[j].key != key
  {
    if cooldowns == [] || cooldowns[0].key == key then 0
    else
      var rest := IndexOf(cooldowns[1..], key);
      assert forall j :: 1 <= j < |cooldowns| ==> cooldowns[j] == cooldowns[1..][j - 1];
      1 + rest
  }

  /** Whether the table holds the key and it was recorded less than the cooldown before. */
  predicate CoolingDown(cooldowns: seq<Cooldown>, key: Key, observed: nat) {
    var i := IndexOf(cooldowns, key);
    i < |cooldowns| && SaturatingSub(observed, cooldowns[i].last) < SNAPSHOT_COOLDOWN_SECONDS
  }

  function Recorded(cooldowns: seq<Cooldown>, key: Key, observed: nat): seq<Cooldown> {
    var i := IndexOf(cooldowns, key);
    if i < |cooldowns| then cooldowns[i := Cooldown(key, observed)]
    else if |cooldowns| == MAX_COOLDOWN_KEYS then cooldowns[1..] + [Cooldown(key, observed)]
    else cooldowns + [Cooldown(key, observed)]
  }

  ghost predicate Distinct(cooldowns: seq<Cooldown>) {
    forall i, j :: 0 <= i < j < |cooldowns| ==> cooldowns[i].key != cooldowns[j].key
  }

  /** The table holds exactly the last keys entered into it, at most 256 of them. */
  ghost predicate Table(entered: seq<Key>, cooldowns: seq<Cooldown>) {
    && |cooldowns| == (if |entered| < MAX_COOLDOWN_KEYS then |entered| else MAX_COOLDOWN_KEYS) && Distinct(cooldowns)
    && forall i :: 0 <= i < |cooldowns| ==> cooldowns[i].key == entered[|entered| - |cooldowns| + i]
  }

  lemma RecordedTable(entered: seq<Key>, cooldowns: seq<Cooldown>, key: Key, observed: nat)
    requires Table(entered, cooldowns)
    ensures Table(if IndexOf(cooldowns, key) < |cooldowns| then entered else entered + [key],
                  Recorded(cooldowns, key, observed))
  {
    hide IndexOf;
    var i, after := IndexOf(cooldowns, key), Recorded(cooldowns, key, observed);
    if i < |cooldowns| {
      assert forall j :: 0 <= j < |cooldowns| ==> after[j].key == cooldowns[j].key;
    } else if |cooldowns| == MAX_COOLDOWN_KEYS {
      assert forall j :: 0 <= j < |after| - 1 ==> after[j] == cooldowns[j + 1];
      assert after[|after| - 1].key == key;
    }
  }

  /** A key is forgotten exactly when 256 keys were entered after it. */
  lemma ForgottenExactly(entered: seq<Key>, cooldowns: seq<Cooldown>, key: Key)
    requires Table(entered, cooldowns)
    ensures IndexOf(cooldowns, key) < |cooldowns| <==>
            exists i :: 0 <= i < |entered| && |entered| - i <= MAX_COOLDOWN_KEYS && entered[i] == key
  {
    hide IndexOf;
    var base, k := |entered| - |cooldowns|, IndexOf(cooldowns, key);
    if k < |cooldowns| {
      assert entered[base + k] == key && |entered| - (base + k) <= MAX_COOLDOWN_KEYS;
    }
    if i :| 0 <= i < |entered| && |entered| - i <= MAX_COOLDOWN_KEYS && entered[i] == key {
      assert cooldowns[i - base].key == key;
    }
  }

  class SnapshotOwner {
    const budget: nat
    var cooldowns: seq<Cooldown>
    var clock: nat
    var buckets: seq<Bucket>
    ghost var history: seq<Publication>
    ghost var entered: seq<Key>

    ghost predicate Valid()
      reads this
    {
      && Accounts(buckets, history, clock) && WithinBudget(history, budget) && Table(entered, cooldowns)
    }

    constructor (budget: nat)
      ensures Valid() && this.budget == budget && cooldowns == [] && history == [] && clock == 0 && buckets == []
    {
      this.budget := budget;
      cooldowns, clock, buckets, history, entered := [], 0, [], [], [];
    }

    method Process(request: Request, calm: bool) returns (outcome: Outcome)
      requires Valid()
      modifies this
      ensures Valid()
      ensures outcome == Cooling <==> CoolingDown(old(cooldowns), request.key, request.observed)
      ensures outcome == TooLarge <==>
        !CoolingDown(old(cooldowns), request.key, request.observed) && request.bytes > MAX_FAILURE_SNAPSHOT_BYTES
      ensures outcome == Cooling || outcome == TooLarge ==> clock == old(clock)
      ensures outcome == OverBudget ==>
        && clock == Max(old(clock), request.observed)
        && SpentFrom(history, clock - WINDOW + 1) + request.bytes > budget
      ensures outcome == Written || outcome == WriteFailed ==>
        && clock == Max(old(clock), request.observed)
        && cooldowns == Recorded(old(cooldowns), request.key, request.observed)
        && request.bytes <= MAX_FAILURE_SNAPSHOT_BYTES
        && SpentFrom(old(history), clock - WINDOW + 1) + request.bytes <= budget
      ensures outcome != Written && outcome != WriteFailed ==> cooldowns == old(cooldowns)
      ensures history ==
        if outcome == Written then old(history) + [Publication(request.key, request.observed, clock, request.bytes)]
        else old(history)
      ensures calm ==> outcome != WriteFailed
    {
      hide Accounts, WithinBudget, Table, CoolingDown, Recorded, SpentFrom, Retained, Charged, TotalOf, IndexOf;
      if CoolingDown(cooldowns, request.key, request.observed) {
        return Cooling;
      }
      if request.bytes > MAX_FAILURE_SNAPSHOT_BYTES {
        return TooLarge;
      }
      ghost var before := clock;
      clock := Max(clock, request.observed);
      ClockAdvances(buckets, history, before, clock);
      buckets := Retained(buckets, clock);
      if TotalOf(buckets) + request.bytes > budget {
        return OverBudget;
      }
      RecordedTable(entered, cooldowns, request.key, request.observed);
      if IndexOf(cooldowns, request.key) == |cooldowns| {
        entered := entered + [request.key];
      }
      cooldowns := Recorded(cooldowns, request.key, request.observed);
      var failed := Disturbed(calm);
      if failed {
        return WriteFailed;
      }
      ghost var p := Publication(request.key, request.observed, clock, request.bytes);
      PublishingFits(buckets, history, clock, p, budget);
      buckets := Charged(buckets, clock, request.bytes);
      history := history + [p];
      outcome := Written;
    }
  }

  // Runs.

  ghost function KeysOf(requests: seq<Request>): set<Key> {
    set i | 0 <= i < |requests| :: requests[i].key
  }

  ghost function Held(cooldowns: seq<Cooldown>): set<Key> {
    set i | 0 <= i < |cooldowns| :: cooldowns[i].key
  }

  lemma {:induction false} HeldCount(cooldowns: seq<Cooldown>)
    requires Distinct(cooldowns)
    ensures |Held(cooldowns)| == |cooldowns|
  {
    if cooldowns != [] {
      var n := |cooldowns| - 1;
      HeldCount(cooldowns[..n]);
      forall k
        ensures k in Held(cooldowns) <==> k in Held(cooldowns[..n]) || k == cooldowns[n].key
      {
        if k in Held(cooldowns) {
          var i :| 0 <= i < |cooldowns| && cooldowns[i].key == k;
          assert i < n ==> cooldowns[..n][i].key == k;
        }
        if k in Held(cooldowns[..n]) {
          var i :| 0 <= i < n && cooldowns[..n][i].key == k;
          assert cooldowns[i].key == k;
        }
        if k == cooldowns[n].key {
          assert cooldowns[n].key == k;
        }
      }
      assert cooldowns[n].key !in Held(cooldowns[..n]);
      assert Held(cooldowns) == Held(cooldowns[..n]) + {cooldowns[n].key};
    }
  }

  /** The table still knows every snapshot written so far, and no later than it was observed. */
  ghost predicate Remembers(requests: seq<Request>, outcomes: seq<Outcome>, cooldowns: seq<Cooldown>) {
    && |outcomes| <= |requests|
    && forall i :: 0 <= i < |outcomes| && outcomes[i] == Written ==>
         Known(cooldowns, requests[i].key, requests[i].observed)
  }

  ghost predicate Known(cooldowns: seq<Cooldown>, key: Key, observed: nat) {
    var i := IndexOf(cooldowns, key);
    i < |cooldowns| && cooldowns[i].last >= observed
  }

  ghost predicate Apart(requests: seq<Request>, outcomes: seq<Outcome>) {
    && |outcomes| <= |requests|
    && forall i, j :: 0 <= i < j < |outcomes| && outcomes[i] == outcomes[j] == Written ==>
         requests[i].key != requests[j].key || requests[j].observed >= requests[i].observed + SNAPSHOT_COOLDOWN_SECONDS
  }

  /** A table with room for all the keys of the run never has to forget one. */
  lemma RoomForAll(requests: seq<Request>, cooldowns: seq<Cooldown>, key: Key)
    requires Distinct(cooldowns) && |KeysOf(requests)| <= MAX_COOLDOWN_KEYS && Held(cooldowns) <= KeysOf(requests)
    requires key in KeysOf(requests) && IndexOf(cooldowns, key) == |cooldowns|
    ensures |cooldowns| < MAX_COOLDOWN_KEYS
  {
    HeldCount(cooldowns);
    assert key !in Held(cooldowns);
    Subset(Held(cooldowns) + {key}, KeysOf(requests));
  }

  lemma {:induction false} Subset(a: set<Key>, b: set<Key>)
    requires a <= b
    ensures |a| <= |b|
  {
    assert b == a + (b - a);
  }

  lemma IndexIs(cooldowns: seq<Cooldown>, key: Key, i: nat)
    requires i < |cooldowns| && cooldowns[i].key == key && forall j :: 0 <= j < i ==> cooldowns[j].key != key
    ensures IndexOf(cooldowns, key) == i
  {
  }

  /** Recording a key that need not push another out keeps the others and sets its own time. */
  lemma RecordedKeeps(cooldowns: seq<Cooldown>, key: Key, observed: nat, other: Key)
    requires IndexOf(cooldowns, key) == |cooldowns| ==> |cooldowns| < MAX_COOLDOWN_KEYS
    ensures var after := Recorded(cooldowns, key, observed);
            var i := IndexOf(cooldowns, other);
            && |cooldowns| <= |after|
            && (other != key && i < |cooldowns| ==> IndexOf(after, other) == i && after[i] == cooldowns[i])
            && (other == key ==> IndexOf(after, other) < |after| && after[IndexOf(after, other)].last == observed)
  {
    hide IndexOf;
    var after, i, k := Recorded(cooldowns, key, observed), IndexOf(cooldowns, other), IndexOf(cooldowns, key);
    assert forall j :: 0 <= j < |cooldowns| ==> after[j].key == cooldowns[j].key;
    if other != key && i < |cooldowns| {
      IndexIs(after, other, i);
    }
    if other == key {
      IndexIs(after, key, k);
    }
  }

  lemma RunStep(requests: seq<Request>, outcomes: seq<Outcome>, before: seq<Cooldown>, after: seq<Cooldown>,
                outcome: Outcome)
    requires |outcomes| < |requests| && Remembers(requests, outcomes, before) && Apart(requests, outcomes)
    requires var r := requests[|outcomes|];
             if outcome == Written || outcome == WriteFailed then
               && !CoolingDown(before, r.key, r.observed) && after == Recorded(before, r.key, r.observed)
               && (IndexOf(before, r.key) == |before| ==> |before| < MAX_COOLDOWN_KEYS)
             else after == before
    ensures Remembers(requests, outcomes + [outcome], after) && Apart(requests, outcomes + [outcome])
  {
    hide IndexOf, Recorded, Known, CoolingDown;
    var r, n, all := requests[|outcomes|], |outcomes|, outcomes + [outcome];
    forall i | 0 <= i < |all| && all[i] == Written
      ensures Known(after, requests[i].key, requests[i].observed)
    {
      if outcome == Written || outcome == WriteFailed {
        StillKnown(before, r, requests[i]);
      }
    }
    forall i | 0 <= i < n && all[i] == all[n] == Written && requests[i].key == r.key
      ensures r.observed >= requests[i].observed + SNAPSHOT_COOLDOWN_SECONDS
    {
      CooledOff(before, r, requests[i].observed);
    }
  }

  /** Recording a request that is not cooling down: it is known, and what was known stays known. */
  lemma StillKnown(cooldowns: seq<Cooldown>, r: Request, earlier: Request)
    requires !CoolingDown(cooldowns, r.key, r.observed)
    requires IndexOf(cooldowns, r.key) == |cooldowns| ==> |cooldowns| < MAX_COOLDOWN_KEYS
    requires earlier == r || Known(cooldowns, earlier.key, earlier.observed)
    ensures Known(Recorded(cooldowns, r.key, r.observed), earlier.key, earlier.observed)
  {
    hide IndexOf, Recorded;
    RecordedKeeps(cooldowns, r.key, r.observed, earlier.key);
  }

  lemma CooledOff(cooldowns: seq<Cooldown>, r: Request, earlier: nat)
    requires !CoolingDown(cooldowns, r.key, r.observed) && Known(cooldowns, r.key, earlier)
    ensures r.observed >= earlier + SNAPSHOT_COOLDOWN_SECONDS
  {
    hide IndexOf;
  }

  lemma RecordedHolds(cooldowns: seq<Cooldown>, key: Key, observed: nat)
    ensures Held(Recorded(cooldowns, key, observed)) <= Held(cooldowns) + {key}
  {
    var after := Recorded(cooldowns, key, observed);
    forall k | k in Held(after)
      ensures k in Held(cooldowns) + {key}
    {
      var i :| 0 <= i < |after| && after[i].key == k;
      if k != key {
        assert after[i] in cooldowns;
        var j :| 0 <= j < |cooldowns| && cooldowns[j] == after[i];
        assert cooldowns[j].key == k;
      }
    }
  }

  // What a run publishes, from its requests and their outcomes alone.

  /** The budget clock: the latest observed time among the requests that got past the cooldown and the size limit. */
  function ClockAfter(requests: seq<Request>, outcomes: seq<Outcome>): nat
    requires |outcomes| <= |requests|
  {
    if outcomes == [] then 0
    else
      var n := |outcomes| - 1;
      var before := ClockAfter(requests, outcomes[..n]);
      if outcomes[n] == Cooling || outcomes[n] == TooLarge then before else Max(before, requests[n].observed)
  }

  function Publications(requests: seq<Request>, outcomes: seq<Outcome>): seq<Publication>
    requires |outcomes| <= |requests|
  {
    if outcomes == [] then []
    else
      var n := |outcomes| - 1;
      var r := requests[n];
      Publications(requests, outcomes[..n])
      + if outcomes[n] == Written then [Publication(r.key, r.observed, ClockAfter(requests, outcomes), r.bytes)] else []
  }

  /** The cooldown table: every request that was about to be written is entered, even if writing then failed. */
  function CooldownsAfter(requests: seq<Request>, outcomes: seq<Outcome>): seq<Cooldown>
    requires |outcomes| <= |requests|
  {
    if outcomes == [] then []
    else
      var n := |outcomes| - 1;
      var before := CooldownsAfter(requests, outcomes[..n]);
      if outcomes[n] == Written || outcomes[n] == WriteFailed then
        Recorded(before, requests[n].key, requests[n].observed)
      else before
  }

  /** The answer to request `n` follows from what was published and entered before it. */
  ghost predicate Answered(budget: nat, requests: seq<Request>, outcomes: seq<Outcome>, n: nat, calm: bool)
    requires n < |outcomes| <= |requests|
  {
    var before, r := outcomes[..n], requests[n];
    var spent := SpentFrom(Publications(requests, before), Max(ClockAfter(requests, before), r.observed) - WINDOW + 1);
    if CoolingDown(CooldownsAfter(requests, before), r.key, r.observed) then outcomes[n] == Cooling
    else if r.bytes > MAX_FAILURE_SNAPSHOT_BYTES then outcomes[n] == TooLarge
    else if spent + r.bytes > budget then outcomes[n] == OverBudget
    else outcomes[n] == Written || (!calm && outcomes[n] == WriteFailed)
  }

  /** Request `i` was the last of its key that was written or tried. */
  ghost predicate LastTried(requests: seq<Request>, outcomes: seq<Outcome>, n: nat, i: nat)
    requires n <= |outcomes| <= |requests|
  {
    && i < n && Tried(outcomes[i])
    && forall j :: i < j < n && Tried(outcomes[j]) ==> requests[j].key != requests[i].key
  }

  predicate Tried(outcome: Outcome) {
    outcome == Written || outcome == WriteFailed
  }

  /** The last snapshot of the same key was written or tried less than the cooldown before. */
  ghost predicate HasReason(requests: seq<Request>, outcomes: seq<Outcome>, n: nat)
    requires n < |outcomes| <= |requests|
  {
    exists i: nat :: LastTried(requests, outcomes, n, i) && requests[i].key == requests[n].key
                     && requests[n].observed < requests[i].observed + SNAPSHOT_COOLDOWN_SECONDS
  }

  /** Every entry of the table is the last snapshot of its key that was written or tried. */
  lemma {:induction false} EntriesAreTried(requests: seq<Request>, outcomes: seq<Outcome>, n: nat, k: nat)
    requires n <= |outcomes| <= |requests| && k < |CooldownsAfter(requests, outcomes[..n])|
    ensures var entry := CooldownsAfter(requests, outcomes[..n])[k];
            exists i: nat :: LastTried(requests, outcomes, n, i) && requests[i].key == entry.key
                             && requests[i].observed == entry.last
    decreases n
  {
    hide IndexOf;
    if n > 0 {
      var r, outcome := requests[n - 1], outcomes[n - 1];
      assert outcomes[..n][..n - 1] == outcomes[..n - 1];
      var before, entry := CooldownsAfter(requests, outcomes[..n - 1]), CooldownsAfter(requests, outcomes[..n])[k];
      if Tried(outcome) && entry.key == r.key {
        TriedEntry(requests, outcomes, n, before, k);
        assert LastTried(requests, outcomes, n, n - 1);
      } else {
        var j := EntryBefore(requests, outcomes, n, before, k);
        EntriesAreTried(requests, outcomes, n - 1, j);
        var i: nat :| LastTried(requests, outcomes, n - 1, i) && requests[i].key == entry.key
                      && requests[i].observed == entry.last;
        assert LastTried(requests, outcomes, n, i);
      }
    }
  }

  /** The entry of a key that was just tried is the new one. */
  lemma TriedEntry(requests: seq<Request>, outcomes: seq<Outcome>, n: nat, before: seq<Cooldown>, k: nat)
    requires 0 < n <= |outcomes| <= |requests| && Tried(outcomes[n - 1])
    requires before == CooldownsAfter(requests, outcomes[..n - 1]) && k < |CooldownsAfter(requests, outcomes[..n])|
    requires CooldownsAfter(requests, outcomes[..n])[k].key == requests[n - 1].key
    ensures CooldownsAfter(requests, outcomes[..n])[k].last == requests[n - 1].observed
  {
    assert outcomes[..n][..n - 1] == outcomes[..n - 1];
    KeysStayDistinct(requests, outcomes[..n - 1]);
    var r := requests[n - 1];
    assert CooldownsAfter(requests, outcomes[..n]) == Recorded(before, r.key, r.observed);
  }

  /** Any other entry was in the table before. */
  lemma EntryBefore(requests: seq<Request>, outcomes: seq<Outcome>, n: nat, before: seq<Cooldown>, k: nat)
    returns (j: nat)
    requires 0 < n <= |outcomes| <= |requests|
    requires before == CooldownsAfter(requests, outcomes[..n - 1]) && k < |CooldownsAfter(requests, outcomes[..n])|
    requires Tried(outcomes[n - 1]) ==> CooldownsAfter(requests, outcomes[..n])[k].key != requests[n - 1].key
    ensures j < |before| && before[j] == CooldownsAfter(requests, outcomes[..n])[k]
  {
    hide IndexOf;
    assert outcomes[..n][..n - 1] == outcomes[..n - 1];
    var r, after := requests[n - 1], CooldownsAfter(requests, outcomes[..n]);
    j := k;
    if Tried(outcomes[n - 1]) && IndexOf(before, r.key) == |before| && |before| == MAX_COOLDOWN_KEYS {
      assert after == before[1..] + [Cooldown(r.key, r.observed)];
      j := k + 1;
    }
  }

  lemma {:induction false} KeysStayDistinct(requests: seq<Request>, outcomes: seq<Outcome>)
    requires |outcomes| <= |requests|
    ensures Distinct(CooldownsAfter(requests, outcomes))
  {
    if outcomes != [] {
      var n := |outcomes| - 1;
      KeysStayDistinct(requests, outcomes[..n]);
      RecordedStaysDistinct(CooldownsAfter(requests, outcomes[..n]), requests[n].key, requests[n].observed);
    }
  }

  lemma RecordedStaysDistinct(cooldowns: seq<Cooldown>, key: Key, observed: nat)
    requires Distinct(cooldowns)
    ensures Distinct(Recorded(cooldowns, key, observed))
  {
    var i := IndexOf(cooldowns, key);
  }

  lemma CoolingHasReason(budget: nat, requests: seq<Request>, outcomes: seq<Outcome>, n: nat, calm: bool)
    requires n < |outcomes| <= |requests| && Answered(budget, requests, outcomes, n, calm) && outcomes[n] == Cooling
    ensures HasReason(requests, outcomes, n)
  {
    hide IndexOf, SpentFrom, ClockAfter, Publications, CooldownsAfter;
    var cooldowns, r := CooldownsAfter(requests, outcomes[..n]), requests[n];
    var k := IndexOf(cooldowns, r.key);
    assert CoolingDown(cooldowns, r.key, r.observed);
    assert cooldowns[k].key == r.key by { IndexFound(cooldowns, r.key); }
    EntriesAreTried(requests, outcomes, n, k);
  }

  lemma IndexFound(cooldowns: seq<Cooldown>, key: Key)
    ensures IndexOf(cooldowns, key) < |cooldowns| ==> cooldowns[IndexOf(cooldowns, key)].key == key
  {
  }

  /** The owner's state after the first requests of a run. */
  ghost predicate Replays(owner: SnapshotOwner, requests: seq<Request>, outcomes: seq<Outcome>)
    requires |outcomes| <= |requests|
    reads owner
  {
    && owner.clock == ClockAfter(requests, outcomes) && owner.history == Publications(requests, outcomes)
    && owner.cooldowns == CooldownsAfter(requests, outcomes)
  }

  lemma Unfold(requests: seq<Request>, outcomes: seq<Outcome>, outcome: Outcome)
    requires |outcomes| < |requests|
    ensures var r, all := requests[|outcomes|], outcomes + [outcome];
            && ClockAfter(requests, all)
               == (if outcome == Cooling || outcome == TooLarge then ClockAfter(requests, outcomes)
                   else Max(ClockAfter(requests, outcomes), r.observed))
            && Publications(requests, all)
               == Publications(requests, outcomes)
                  + (if outcome == Written then [Publication(r.key, r.observed, ClockAfter(requests, all), r.bytes)]
                     else [])
            && CooldownsAfter(requests, all) == (if outcome == Written || outcome == WriteFailed then
                                                   Recorded(CooldownsAfter(requests, outcomes), r.key, r.observed)
                                                 else CooldownsAfter(requests, outcomes))
  {
    assert (outcomes + [outcome])[..|outcomes|] == outcomes;
  }

  lemma AnsweredStill(budget: nat, requests: seq<Request>, outcomes: seq<Outcome>, outcome: Outcome, n: nat, calm: bool)
    requires n < |outcomes| < |requests| && Answered(budget, requests, outcomes, n, calm)
    ensures Answered(budget, requests, outcomes + [outcome], n, calm)
  {
    assert (outcomes + [outcome])[..n] == outcomes[..n];
  }

  lemma NowAnswered(budget: nat, requests: seq<Request>, outcomes: seq<Outcome>, outcome: Outcome, calm: bool)
    requires |outcomes| < |requests|
    requires var r := requests[|outcomes|];
             var cooling := CoolingDown(CooldownsAfter(requests, outcomes), r.key, r.observed);
             var spent := SpentFrom(Publications(requests, outcomes),
                                    Max(ClockAfter(requests, outcomes), r.observed) - WINDOW + 1);
             && (outcome == Cooling <==> cooling)
             && (outcome == TooLarge <==> !cooling && r.bytes > MAX_FAILURE_SNAPSHOT_BYTES)
             && (outcome == OverBudget ==> spent + r.bytes > budget)
             && (outcome == Written || outcome == WriteFailed ==> spent + r.bytes <= budget)
             && (calm ==> outcome != WriteFailed)
    ensures Answered(budget, requests, outcomes + [outcome], |outcomes|, calm)
  {
    hide CoolingDown, SpentFrom, CooldownsAfter, Publications, ClockAfter;
    assert (outcomes + [outcome])[..|outcomes|] == outcomes;
    match outcome
    case Written =>
    case Cooling =>
    case OverBudget =>
    case TooLarge =>
    case WriteFailed =>
  }

  lemma StepApart(requests: seq<Request>, outcomes: seq<Outcome>, before: seq<Cooldown>, after: seq<Cooldown>,
                  outcome: Outcome, entered: seq<Key>)
    requires |outcomes| < |requests| && |KeysOf(requests)| <= MAX_COOLDOWN_KEYS && Table(entered, before)
    requires Remembers(requests, outcomes, before) && Apart(requests, outcomes) && Held(before) <= KeysOf(requests)
    requires var r := requests[|outcomes|];
             if outcome == Written || outcome == WriteFailed then
               !CoolingDown(before, r.key, r.observed) && after == Recorded(before, r.key, r.observed)
             else after == before
    ensures Remembers(requests, outcomes + [outcome], after) && Apart(requests, outcomes + [outcome])
    ensures Held(after) <= KeysOf(requests)
  {
    hide Remembers, Apart, KeysOf, Held, IndexOf, CoolingDown, Recorded, Distinct;
    var r := requests[|outcomes|];
    KeyOfRun(requests, |outcomes|);
    if IndexOf(before, r.key) == |before| {
      RoomForAll(requests, before, r.key);
    }
    RunStep(requests, outcomes, before, after, outcome);
    RecordedHolds(before, r.key, r.observed);
  }

  /**
   Every run: each outcome is the one its history calls for, no minute of the budget clock holds more published
   bytes than the budget, and if the run has at most 256 distinct keys, two snapshots of one key are at least the
   cooldown apart in observed time.
   */
  method EveryRun(budget: nat, requests: seq<Request>, calm: seq<bool>) returns (outcomes: seq<Outcome>)
    requires |calm| == |requests|
    ensures |outcomes| == |requests|
    ensures forall n :: 0 <= n < |outcomes| ==> Answered(budget, requests, outcomes, n, calm[n])
    ensures forall n :: 0 <= n < |outcomes| && outcomes[n] == Cooling ==> HasReason(requests, outcomes, n)
    ensures WithinBudget(Publications(requests, outcomes), budget)
    ensures |KeysOf(requests)| <= MAX_COOLDOWN_KEYS ==> Apart(requests, outcomes)
  {
    hide Remembers, Apart, KeysOf, Held, IndexOf, CoolingDown, Recorded, WithinBudget, Accounts, Distinct, SpentFrom,
         ClockAfter, Publications, CooldownsAfter, Answered, Table, HasReason;
    var owner := new SnapshotOwner(budget);
    outcomes := [];
    NothingYet(requests, owner.cooldowns);
    for i := 0 to |requests|
      invariant fresh(owner) && owner.Valid() && owner.budget == budget && |outcomes| == i
      invariant Replays(owner, requests, outcomes)
      invariant forall n :: 0 <= n < i ==> Answered(budget, requests, outcomes, n, calm[n])
      invariant |KeysOf(requests)| <= MAX_COOLDOWN_KEYS ==>
        && Remembers(requests, outcomes, owner.cooldowns) && Apart(requests, outcomes)
        && Held(owner.cooldowns) <= KeysOf(requests)
    {
      ghost var before, entered := owner.cooldowns, owner.entered;
      ghost var fits := |KeysOf(requests)| <= MAX_COOLDOWN_KEYS;
      var outcome := owner.Process(requests[i], calm[i]);
      NowAnswered(budget, requests, outcomes, outcome, calm[i]);
      if fits {
        StepApart(requests, outcomes, before, owner.cooldowns, outcome, entered);
      }
      forall n | 0 <= n < i
        ensures Answered(budget, requests, outcomes + [outcome], n, calm[n])
      {
        AnsweredStill(budget, requests, outcomes, outcome, n, calm[n]);
      }
      Unfold(requests, outcomes, outcome);
      outcomes := outcomes + [outcome];
    }
    forall n | 0 <= n < |outcomes| && outcomes[n] == Cooling
      ensures HasReason(requests, outcomes, n)
    {
      CoolingHasReason(budget, requests, outcomes, n, calm[n]);
    }
  }

  lemma KeyOfRun(requests: seq<Request>, i: nat)
    requires i < |requests|
    ensures requests[i].key in KeysOf(requests)
  {
  }

  lemma NothingYet(requests: seq<Request>, cooldowns: seq<Cooldown>)
    requires cooldowns == []
    ensures Remembers(requests, [], cooldowns) && Apart(requests, []) && Held(cooldowns) <= KeysOf(requests)
    ensures ClockAfter(requests, []) == 0 && Publications(requests, []) == [] && CooldownsAfter(requests, []) == []
  {
  }

  /** With more keys than the table holds, a key can be written twice in one second: its entry was pushed out. */
  method CooldownForgets() returns (first: Outcome, again: Outcome)
    ensures first == Written && again == Written
  {
    hide Table, WithinBudget, Accounts, CoolingDown, Recorded, SpentFrom, Numbered, IndexOf;
    var owner := new SnapshotOwner(SNAPSHOT_WRITE_BUDGET_HARD_MAX);
    NothingCools(0);
    first := owner.Process(Request(0, 0, 1), true);
    FirstKey(owner.history, owner.cooldowns);
    for k := 1 to 257
      invariant fresh(owner) && owner.Valid() && owner.budget == SNAPSHOT_WRITE_BUDGET_HARD_MAX
      invariant SpentFrom(owner.history, -59) == k && owner.clock == 0
      invariant Numbered(owner.cooldowns, k)
    {
      NewKey(owner.cooldowns, k, k);
      ghost var before := owner.history;
      var outcome := owner.Process(Request(k, 0, 1), true);
      SpentMore(before, Publication(k, 0, 0, 1), -59);
    }
    NewKey(owner.cooldowns, 257, 0);
    again := owner.Process(Request(0, 0, 1), true);
  }

  /** The table after the keys 0, 1, ... up to `k` were entered in that order. */
  ghost predicate Numbered(cooldowns: seq<Cooldown>, k: nat) {
    && |cooldowns| == (if k < MAX_COOLDOWN_KEYS then k else MAX_COOLDOWN_KEYS)
    && forall i :: 0 <= i < |cooldowns| ==> cooldowns[i].key == k - |cooldowns| + i
  }

  lemma NothingCools(key: Key)
    ensures !CoolingDown([], key, 0) && SpentFrom([], -59) == 0
  {
  }

  lemma FirstKey(history: seq<Publication>, cooldowns: seq<Cooldown>)
    requires history == [] + [Publication(0, 0, 0, 1)] && cooldowns == Recorded([], 0, 0)
    ensures Numbered(cooldowns, 1) && SpentFrom(history, -59) == 1
  {
    SpentMore([], Publication(0, 0, 0, 1), -59);
  }

  lemma NewKey(cooldowns: seq<Cooldown>, k: nat, key: Key)
    requires 0 < k && Numbered(cooldowns, k) && (key == k || (key == 0 && k == 257))
    ensures !CoolingDown(cooldowns, key, 0) && (key == k ==> Numbered(Recorded(cooldowns, key, 0), k + 1))
  {
    var after := Recorded(cooldowns, key, 0);
    assert IndexOf(cooldowns, key) == |cooldowns|;
    if |cooldowns| == MAX_COOLDOWN_KEYS {
      assert forall i :: 0 <= i < |after| - 1 ==> after[i] == cooldowns[i + 1];
    }
  }
}
