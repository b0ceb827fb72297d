/**
 The sharded table that keeps a thread on the account it was last bound to: `wokcore-engine/src/affinity.rs`. Each
 operation holds the lock of one shard, so operations are atomic. The keyed SHA-256 of a thread key is a parameter.
 */
module Affinity {
  import opened Prelude

  const MAX_AFFINITIES: nat := 4_096
  const MAX_AFFINITY_TTL_MS: nat := 86_400_000
  const MAX_AFFINITY_SHARDS: nat := 16

  type Account = nat

  /** A digest: its first byte picks the shard. */
  datatype Digest = Digest(first: byte, rest: nat)

  datatype Entry = Entry(account: Account, expires: nat, touched: nat)

  datatype Shard = Shard(capacity: nat, entries: map<Digest, Entry>)

  /** The latest binding of a digest. */
  datatype Binding = Binding(account: Account, expires: nat)

  // Capacities.

  function ShardCount(maximum: nat): nat {
    if maximum < MAX_AFFINITY_SHARDS then maximum else MAX_AFFINITY_SHARDS
  }

  function Capacity(maximum: nat, i: nat): nat
    requires maximum > 0
  {
    maximum / ShardCount(maximum) + if i < maximum % ShardCount(maximum) then 1 else 0
  }

  function CapacitySum(maximum: nat, n: nat): nat
    requires maximum > 0
    decreases n
  {
    if n == 0 then 0 else CapacitySum(maximum, n - 1) + Capacity(maximum, n - 1)
  }

  function Shares(base: nat, extra: nat, n: nat): nat {
    if n == 0 then 0 else Shares(base, extra, n - 1) + base + if n - 1 < extra then 1 else 0
  }

  lemma {:induction false} SharesAre(base: nat, extra: nat, n: nat)
    ensures Shares(base, extra, n) == n * base + if n < extra then n else extra
  {
    if n > 0 {
      SharesAre(base, extra, n - 1);
      assert n * base == (n - 1) * base + base;
    }
  }

  lemma {:induction false} CapacitiesAreShares(maximum: nat, n: nat)
    requires maximum > 0
    ensures CapacitySum(maximum, n) == Shares(maximum / ShardCount(maximum), maximum % ShardCount(maximum), n)
    decreases n
  {
    if n > 0 {
      CapacitiesAreShares(maximum, n - 1);
    }
  }

  /** The capacities of the shards add up to the configured maximum. */
  lemma CapacitiesAddUp(maximum: nat)
    requires maximum > 0
    ensures CapacitySum(maximum, ShardCount(maximum)) == maximum
  {
    hide CapacitySum, Shares;
    var count := ShardCount(maximum);
    CapacitiesAreShares(maximum, count);
    SharesAre(maximum / count, maximum % count, count);
    Divides(maximum, count);
  }

  lemma Divides(m: nat, c: nat)
    requires c > 0
    ensures c * (m / c) + m % c == m && m % c < c
  {
  }

  // Entries.

  function Live(entries: map<Digest, Entry>, now: nat): map<Digest, Entry> {
    map d | d in entries && entries[d].expires > now :: entries[d]
  }

  /** The order in which a full shard gives entries up. */
  predicate Sooner(a: Entry, da: Digest, b: Entry, db: Digest) {
    || a.expires < b.expires
    || (a.expires == b.expires && a.touched < b.touched)
    || (a.expires == b.expires && a.touched == b.touched
        && (da.first < db.first || (da.first == db.first && da.rest < db.rest)))
  }

  ghost predicate IsSoonest(entries: map<Digest, Entry>, d: Digest) {
    d in entries && forall other :: other in entries ==> !Sooner(entries[other], other, entries[d], d)
  }

  lemma {:induction false} SoonestExists(entries: map<Digest, Entry>) returns (d: Digest)
    requires entries != map[]
    ensures IsSoonest(entries, d)
    decreases |entries|
  {
    var some :| some in entries;
    var rest := entries - {some};
    assert forall other :: other in entries ==> other == some || (other in rest && rest[other] == entries[other]);
    d := some;
    if rest != map[] {
      assert rest.Keys == entries.Keys - {some};
      var below := SoonestExists(rest);
      assert below in entries && rest[below] == entries[below];
      if !Sooner(entries[some], some, entries[below], below) {
        d := below;
      } else {
        forall other | other in entries
          ensures !Sooner(entries[other], other, entries[some], some)
        {
          assert other == some || !Sooner(rest[other], other, rest[below], below);
        }
      }
    }
  }

  function Total(shards: seq<Shard>): nat {
    if shards == [] then 0 else Total(shards[..|shards| - 1]) + |shards[|shards| - 1].entries|
  }

  lemma {:induction false} TotalFits(shards: seq<Shard>, maximum: nat)
    requires maximum > 0
    requires forall i :: 0 <= i < |shards| ==> |shards[i].entries| <= shards[i].capacity == Capacity(maximum, i)
    ensures Total(shards) <= CapacitySum(maximum, |shards|)
  {
    if shards != [] {
      TotalFits(shards[..|shards| - 1], maximum);
    }
  }

  lemma LiveCount(entries: map<Digest, Entry>, now: nat)
    ensures |Live(entries, now)| <= |entries|
  {
    var kept := Live(entries, now).Keys;
    assert kept <= entries.Keys;
    assert entries.Keys == kept + (entries.Keys - kept);
  }

  function ShardOf(d: Digest, count: nat): (i: nat)
    requires count > 0
    ensures i < count
  {
    d.first as int % count
  }

  /** Every entry lies in its shard, within the shard's capacity, and is the latest binding of its digest. */
  ghost predicate Kept(shards: seq<Shard>, maximum: nat, bound: map<Digest, Binding>, lost: set<Digest>) {
    && maximum > 0 && |shards| == ShardCount(maximum)
    && (forall i :: 0 <= i < |shards| ==> |shards[i].entries| <= shards[i].capacity == Capacity(maximum, i))
    && (forall i, d :: 0 <= i < |shards| && d in shards[i].entries ==>
          && ShardOf(d, |shards|) == i && d in bound && d !in lost
          && bound[d] == Binding(shards[i].entries[d].account, shards[i].entries[d].expires))
  }

  /** Every binding that has not expired by `latest` and was not pushed out is in its shard. */
  ghost predicate Found(shards: seq<Shard>, bound: map<Digest, Binding>, lost: set<Digest>, latest: nat)
    requires |shards| > 0
  {
    forall d :: d in bound && d !in lost && bound[d].expires > latest ==> d in shards[ShardOf(d, |shards|)].entries
  }

  /** What the new entries of shard `i` must satisfy for the table to stay in order. */
  ghost predicate Fits(shards: seq<Shard>, i: nat, entries: map<Digest, Entry>, bound: map<Digest, Binding>,
                       lost: set<Digest>, latest: nat)
    requires i < |shards|
  {
    && |entries| <= shards[i].capacity
    && (forall d :: d in entries ==>
          ShardOf(d, |shards|) == i && d in bound && d !in lost
          && bound[d] == Binding(entries[d].account, entries[d].expires))
    && (forall d :: d in bound && ShardOf(d, |shards|) == i && d !in lost && bound[d].expires > latest ==> d in entries)
  }

  /** Only what is kept about the digests of shard `i` may have changed. */
  ghost predicate SameElsewhere(count: nat, i: nat, bound: map<Digest, Binding>, lost: set<Digest>,
                                bound': map<Digest, Binding>, lost': set<Digest>)
    requires count > 0
  {
    forall d :: ShardOf(d, count) != i ==>
      (d in bound <==> d in bound') && (d in bound ==> bound[d] == bound'[d]) && (d in lost <==> d in lost')
  }

  lemma KeptReplaced(shards: seq<Shard>, maximum: nat, i: nat, entries: map<Digest, Entry>, bound: map<Digest, Binding>,
                     lost: set<Digest>, bound': map<Digest, Binding>, lost': set<Digest>, latest': nat)
    requires Kept(shards, maximum, bound, lost) && i < |shards| && Fits(shards, i, entries, bound', lost', latest')
    requires SameElsewhere(|shards|, i, bound, lost, bound', lost')
    ensures Kept(shards[i := shards[i].(entries := entries)], maximum, bound', lost')
  {
    hide ShardOf, Capacity, ShardCount;
    var after := shards[i := shards[i].(entries := entries)];
    forall j, d | 0 <= j < |after| && d in after[j].entries
      ensures ShardOf(d, |after|) == j && d in bound' && d !in lost'
              && bound'[d] == Binding(after[j].entries[d].account, after[j].entries[d].expires)
    {
      if j != i {
        assert d in shards[j].entries;
      }
    }
  }

  lemma FoundReplaced(shards: seq<Shard>, i: nat, entries: map<Digest, Entry>, bound: map<Digest, Binding>,
                      lost: set<Digest>, latest: nat, bound': map<Digest, Binding>, lost': set<Digest>, latest': nat)
    requires i < |shards| && Found(shards, bound, lost, latest) && latest <= latest'
    requires Fits(shards, i, entries, bound', lost', latest') && SameElsewhere(|shards|, i, bound, lost, bound', lost')
    ensures Found(shards[i := shards[i].(entries := entries)], bound', lost', latest')
  {
    hide ShardOf;
    var after := shards[i := shards[i].(entries := entries)];
    forall d | d in bound' && d !in lost' && bound'[d].expires > latest'
      ensures d in after[ShardOf(d, |after|)].entries
    {
      if ShardOf(d, |shards|) != i {
        assert d in bound && d !in lost && bound[d].expires > latest;
      }
    }
  }

  lemma ShardReplaced(shards: seq<Shard>, maximum: nat, i: nat, entries: map<Digest, Entry>,
                      bound: map<Digest, Binding>, lost: set<Digest>, latest: nat, bound': map<Digest, Binding>,
                      lost': set<Digest>, latest': nat)
    requires Kept(shards, maximum, bound, lost) && |shards| > 0 && Found(shards, bound, lost, latest) && i < |shards|
    requires Fits(shards, i, entries, bound', lost', latest') && latest <= latest'
    requires SameElsewhere(|shards|, i, bound, lost, bound', lost')
    ensures var after := shards[i := shards[i].(entries := entries)];
            Kept(after, maximum, bound', lost') && Found(after, bound', lost', latest')
  {
    hide Kept, Found, Fits, SameElsewhere;
    KeptReplaced(shards, maximum, i, entries, bound, lost, bound', lost', latest');
    FoundReplaced(shards, i, entries, bound, lost, latest, bound', lost', latest');
  }

  /** The entries of a shard that outlive `now` still hold every binding that does, except what they lost before. */
  lemma LiveFits(shards: seq<Shard>, maximum: nat, i: nat, bound: map<Digest, Binding>, lost: set<Digest>, latest: nat,
                 now: nat)
    requires Kept(shards, maximum, bound, lost) && |shards| > 0 && Found(shards, bound, lost, latest) && i < |shards|
    ensures Fits(shards, i, Live(shards[i].entries, now), bound, lost, if latest < now then now else latest)
  {
    hide ShardOf, Capacity;
    LiveCount(shards[i].entries, now);
  }

  lemma Rebound(shards: seq<Shard>, i: nat, entries: map<Digest, Entry>, bound: map<Digest, Binding>, lost: set<Digest>,
                latest: nat, d: Digest, entry: Entry)
    requires i < |shards| && Fits(shards, i, entries, bound, lost, latest) && ShardOf(d, |shards|) == i
    requires d in entries || |entries| < shards[i].capacity
    ensures Fits(shards, i, entries[d := entry], bound[d := Binding(entry.account, entry.expires)], lost - {d}, latest)
  {
    hide ShardOf;
    var after := entries[d := entry];
    assert after.Keys == entries.Keys + {d};
  }

  lemma PushedOut(shards: seq<Shard>, i: nat, entries: map<Digest, Entry>, bound: map<Digest, Binding>,
                  lost: set<Digest>, latest: nat, d: Digest)
    requires i < |shards| && Fits(shards, i, entries, bound, lost, latest) && d in entries
    ensures Fits(shards, i, entries - {d}, bound, lost + {d}, latest) && |entries - {d}| < |entries|
  {
    hide ShardOf;
    assert (entries - {d}).Keys == entries.Keys - {d};
  }

  class AffinityTable {
    const digest: Bytes -> Digest
    const ttl: nat
    const maximum: nat
    var shards: seq<Shard>
    var touch: nat
    ghost var bound: map<Digest, Binding>
    ghost var lost: set<Digest>
    ghost var latest: nat

    ghost predicate Valid()
      reads this
    {
      && 0 < maximum <= MAX_AFFINITIES && touch <= U64_MAX
      && Kept(shards, maximum, bound, lost) && Found(shards, bound, lost, latest)
    }

    constructor (digest: Bytes -> Digest, maximum: nat, ttl: nat)
      requires 0 < maximum <= MAX_AFFINITIES && 0 < ttl <= MAX_AFFINITY_TTL_MS
      ensures Valid() && this.maximum == maximum && this.ttl == ttl && this.digest == digest && bound == map[]
      ensures lost == {} && latest == 0
    {
      this.digest, this.maximum, this.ttl := digest, maximum, ttl;
      shards := seq(ShardCount(maximum), i requires 0 <= i => Shard(Capacity(maximum, i), map[]));
      touch, bound, lost, latest := 0, map[], {}, 0;
    }

    /** The atomic counter wraps; the touch it hands out saturates. */
    method Touch() returns (sequence: nat)
      requires touch <= U64_MAX
      modifies this`touch
      ensures touch == (old(touch) + 1) % (U64_MAX + 1) && sequence == SaturatingAdd(old(touch), 1)
    {
      sequence := SaturatingAdd(touch, 1);
      touch := if touch == U64_MAX then 0 else touch + 1;
    }

    /**
     Bind a thread key to an account. Expired entries of its shard go; if the shard is still full of live entries of
     other keys, the one that expires soonest is pushed out.
     */
    method Bind(key: Bytes, account: Account, now: nat) returns (evicted: Option<Digest>)
      requires Valid() && now <= U64_MAX
      modifies this
      ensures Valid() && bound == old(bound)[digest(key) := Binding(account, SaturatingAdd(now, ttl))]
      ensures latest == if old(latest) < now then now else old(latest)
      ensures lost == (old(lost) + if evicted.Some? then {evicted.value} else {}) - {digest(key)}
      ensures evicted.Some? ==>
        var d, shard := digest(key), old(shards)[ShardOf(digest(key), |old(shards)|)];
        var live := Live(shard.entries, now);
        d !in live && evicted.value != d && |live| == shard.capacity && IsSoonest(live, evicted.value)
      ensures evicted.None? ==>
        var shard := old(shards)[ShardOf(digest(key), |old(shards)|)];
        digest(key) in Live(shard.entries, now) || |Live(shard.entries, now)| < shard.capacity
    {
      hide Kept, Found, Fits, SameElsewhere, Live;
      CountFacts(shards, maximum, bound, lost);
      var d := digest(key);
      var sequence := Touch();
      var i := ShardOf(d, |shards|);
      ghost var before, time := shards, if latest < now then now else latest;
      var entries := Live(shards[i].entries, now);
      LiveFits(shards, maximum, i, bound, lost, latest, now);
      var entry := Entry(account, SaturatingAdd(now, ttl), sequence);
      ghost var lost' := lost;
      evicted := None;
      if d !in entries && |entries| >= shards[i].capacity {
        FitsCapacity(shards, maximum, i, entries, bound, lost, time);
        var some := SoonestExists(entries);
        var out :| out in entries
                   && forall other :: other in entries ==> !Sooner(entries[other], other, entries[out], out);
        PushedOut(shards, i, entries, bound, lost, time, out);
        evicted, lost' := Some(out), lost + {out};
        ShardHolds(shards, i, entries, bound, lost, time, out);
        entries := entries - {out};
      }
      assert lost' == lost + if evicted.Some? then {evicted.value} else {};
      Rebound(shards, i, entries, bound, lost', time, d, entry);
      OnlyHere(|shards|, i, bound, lost, d, Binding(account, entry.expires), evicted);
      ShardReplaced(shards, maximum, i, entries[d := entry], bound, lost, latest,
                    bound[d := Binding(account, entry.expires)], lost' - {d}, time);
      shards := shards[i := shards[i].(entries := entries[d := entry])];
      bound, lost, latest := bound[d := Binding(account, entry.expires)], lost' - {d}, time;
    }

    /**
     Look a thread key up. A hit is the account it was last bound to, and that binding is live. While the clock does
     not run backwards, a live binding is missed exactly when it was pushed out of a full shard.
     */
    method Lookup(key: Bytes, now: nat) returns (account: Option<Account>)
      requires Valid()
      modifies this
      ensures Valid() && bound == old(bound) && lost == old(lost)
      ensures latest == if old(latest) < now then now else old(latest)
      ensures account.Some? ==>
                var d := digest(key); d in bound && bound[d].account == account.value && bound[d].expires > now
      ensures now >= old(latest) ==>
        var d := digest(key); (account.Some? <==> d in bound && bound[d].expires > now && d !in lost)
    {
      hide Kept, Found, Fits, SameElsewhere;
      CountFacts(shards, maximum, bound, lost);
      var d := digest(key);
      var i := ShardOf(d, |shards|);
      var entries := shards[i].entries;
      ghost var time := if latest < now then now else latest;
      EntryFacts(shards, maximum, bound, lost, latest, d);
      Unchanged(|shards|, i, bound, lost);
      account := None;
      if d in entries {
        if entries[d].expires <= now {
          entries := entries - {d};
          DropExpired(shards, maximum, i, bound, lost, latest, time, d);
        } else {
          account := Some(entries[d].account);
          var sequence := Touch();
          TouchEntry(shards, maximum, i, bound, lost, latest, time, d, sequence);
          entries := entries[d := entries[d].(touched := sequence)];
        }
      } else {
        AsItWas(shards, maximum, i, bound, lost, latest, time);
      }
      ShardReplaced(shards, maximum, i, entries, bound, lost, latest, bound, lost, time);
      shards := shards[i := shards[i].(entries := entries)];
      latest := time;
    }

    /** Drop what expired everywhere and count the rest: never more than the maximum. */
    method Len(now: nat) returns (n: nat)
      requires Valid()
      modifies this
      ensures Valid() && bound == old(bound) && lost == old(lost) && n == Total(shards) && n <= maximum
      ensures latest == if old(latest) < now then now else old(latest)
      ensures forall i, d :: 0 <= i < |shards| && d in shards[i].entries ==> shards[i].entries[d].expires > now
    {
      hide Kept, Found, Fits, SameElsewhere, Total, Live;
      n := 0;
      CountFacts(shards, maximum, bound, lost);
      ghost var count := |shards|;
      NoShards();
      for i := 0 to |shards|
        invariant Valid() && bound == old(bound) && lost == old(lost) && |shards| == count && n == Total(shards[..i])
        invariant forall j :: 0 <= j < i ==> AllLive(shards[j].entries, now)
        invariant latest == if i > 0 && old(latest) < now then now else old(latest)
      {
        ghost var time := if latest < now then now else latest;
        var entries := Live(shards[i].entries, now);
        LiveFits(shards, maximum, i, bound, lost, latest, now);
        Unchanged(|shards|, i, bound, lost);
        ShardReplaced(shards, maximum, i, entries, bound, lost, latest, bound, lost, time);
        LiveIsLive(shards[i].entries, now);
        ghost var before := shards[..i];
        shards := shards[i := shards[i].(entries := entries)];
        latest := time;
        TotalNext(shards, i);
        assert shards[..i] == before;
        n := n + |entries|;
      }
      assert shards[..|shards|] == shards;
      TableFits(shards, maximum, bound, lost);
    }
  }

  datatype AffinityError = InvalidPolicy

  /** A table exists only for a maximum and a lifetime within their limits. */
  method NewTable(digest: Bytes -> Digest, maximum: nat, ttl: nat) returns (r: Result<AffinityTable, AffinityError>)
    ensures r.Err? <==> maximum == 0 || maximum > MAX_AFFINITIES || ttl == 0 || ttl > MAX_AFFINITY_TTL_MS
    ensures r.Ok? ==>
              fresh(r.value) && r.value.Valid() && r.value.maximum == maximum && r.value.ttl == ttl
              && r.value.bound == map[]
  {
    if maximum == 0 || maximum > MAX_AFFINITIES || ttl == 0 || ttl > MAX_AFFINITY_TTL_MS {
      return Err(InvalidPolicy);
    }
    var table := new AffinityTable(digest, maximum, ttl);
    return Ok(table);
  }

  lemma CountFacts(shards: seq<Shard>, maximum: nat, bound: map<Digest, Binding>, lost: set<Digest>)
    requires Kept(shards, maximum, bound, lost)
    ensures |shards| == ShardCount(maximum) > 0
  {
  }

  /** A shard that is full holds at least one entry. */
  lemma FitsCapacity(shards: seq<Shard>, maximum: nat, i: nat, entries: map<Digest, Entry>, bound: map<Digest, Binding>,
                     lost: set<Digest>, latest: nat)
    requires Kept(shards, maximum, bound, lost) && i < |shards| && Fits(shards, i, entries, bound, lost, latest)
    requires |entries| >= shards[i].capacity
    ensures |entries| == shards[i].capacity > 0 && entries != map[]
  {
    Divides(maximum, ShardCount(maximum));
    assert maximum / ShardCount(maximum) > 0;
  }

  lemma ShardHolds(shards: seq<Shard>, i: nat, entries: map<Digest, Entry>, bound: map<Digest, Binding>,
                   lost: set<Digest>, latest: nat, d: Digest)
    requires i < |shards| && Fits(shards, i, entries, bound, lost, latest) && d in entries
    ensures ShardOf(d, |shards|) == i
  {
  }

  lemma OnlyHere(count: nat, i: nat, bound: map<Digest, Binding>, lost: set<Digest>, d: Digest, binding: Binding,
                 evicted: Option<Digest>)
    requires count > 0 && ShardOf(d, count) == i && (evicted.Some? ==> ShardOf(evicted.value, count) == i)
    ensures SameElsewhere(count, i, bound, lost, bound[d := binding],
                          (lost + (if evicted.Some? then {evicted.value} else {})) - {d})
  {
    hide ShardOf;
  }

  ghost predicate AllLive(entries: map<Digest, Entry>, now: nat) {
    forall d :: d in entries ==> entries[d].expires > now
  }

  lemma LiveIsLive(entries: map<Digest, Entry>, now: nat)
    ensures AllLive(Live(entries, now), now)
  {
  }

  lemma NoShards()
    ensures Total([]) == 0
  {
  }

  lemma TotalNext(shards: seq<Shard>, i: nat)
    requires i < |shards|
    ensures Total(shards[..i + 1]) == Total(shards[..i]) + |shards[i].entries|
  {
    assert shards[..i + 1][..i] == shards[..i];
  }

  /** However the table is used, it never holds more than its maximum. */
  lemma TableFits(shards: seq<Shard>, maximum: nat, bound: map<Digest, Binding>, lost: set<Digest>)
    requires Kept(shards, maximum, bound, lost)
    ensures Total(shards) <= maximum
  {
    hide Total, CapacitySum, Capacity, ShardCount;
    TotalFits(shards, maximum);
    CapacitiesAddUp(maximum);
  }

  lemma EntryFacts(shards: seq<Shard>, maximum: nat, bound: map<Digest, Binding>, lost: set<Digest>, latest: nat,
                   d: Digest)
    requires Kept(shards, maximum, bound, lost) && |shards| > 0 && Found(shards, bound, lost, latest)
    ensures var entries := shards[ShardOf(d, |shards|)].entries;
            && (d in entries ==>
                  d in bound && d !in lost && bound[d] == Binding(entries[d].account, entries[d].expires))
            && (d in bound && d !in lost && bound[d].expires > latest ==> d in entries)
  {
  }

  lemma Unchanged(count: nat, i: nat, bound: map<Digest, Binding>, lost: set<Digest>)
    requires count > 0
    ensures SameElsewhere(count, i, bound, lost, bound, lost)
  {
  }

  lemma AsItWas(shards: seq<Shard>, maximum: nat, i: nat, bound: map<Digest, Binding>, lost: set<Digest>, latest: nat,
                time: nat)
    requires Kept(shards, maximum, bound, lost) && |shards| > 0 && Found(shards, bound, lost, latest) && i < |shards|
    requires latest <= time
    ensures Fits(shards, i, shards[i].entries, bound, lost, time)
  {
    hide ShardOf, Capacity, ShardCount;
  }

  lemma DropExpired(shards: seq<Shard>, maximum: nat, i: nat, bound: map<Digest, Binding>, lost: set<Digest>,
                    latest: nat, time: nat, d: Digest)
    requires Kept(shards, maximum, bound, lost) && |shards| > 0 && Found(shards, bound, lost, latest) && i < |shards|
    requires latest <= time
    requires d in shards[i].entries && shards[i].entries[d].expires <= time
    ensures Fits(shards, i, shards[i].entries - {d}, bound, lost, time)
  {
    hide Kept, Found, Fits;
    AsItWas(shards, maximum, i, bound, lost, latest, time);
    WithoutExpired(shards, i, shards[i].entries, bound, lost, time, d);
  }

  lemma WithoutExpired(shards: seq<Shard>, i: nat, entries: map<Digest, Entry>, bound: map<Digest, Binding>,
                       lost: set<Digest>, time: nat, d: Digest)
    requires i < |shards| && Fits(shards, i, entries, bound, lost, time) && d in entries && entries[d].expires <= time
    ensures Fits(shards, i, entries - {d}, bound, lost, time)
  {
    hide ShardOf;
    assert (entries - {d}).Keys == entries.Keys - {d};
  }

  lemma TouchEntry(shards: seq<Shard>, maximum: nat, i: nat, bound: map<Digest, Binding>, lost: set<Digest>,
                   latest: nat, time: nat, d: Digest, sequence: nat)
    requires Kept(shards, maximum, bound, lost) && |shards| > 0 && Found(shards, bound, lost, latest) && i < |shards|
    requires latest <= time
    requires d in shards[i].entries
    ensures Fits(shards, i, shards[i].entries[d := shards[i].entries[d].(touched := sequence)], bound, lost, time)
  {
    hide ShardOf, Capacity, ShardCount;
    assert shards[i].entries[d := shards[i].entries[d].(touched := sequence)].Keys == shards[i].entries.Keys;
  }

  // Runs.

  datatype Operation = Bind(key: Bytes, account: Account, now: nat) | Lookup(key: Bytes, now: nat) | Len(now: nat)

  datatype Answer = Done | Hit(account: Account) | Miss | Size(n: nat)

  /** What the last of the first `n` operations that bound a digest bound it to. */
  function LastBound(digest: Bytes -> Digest, ttl: nat, operations: seq<Operation>, n: nat, d: Digest): Option<Binding>
    requires n <= |operations|
  {
    if n == 0 then None
    else
      match operations[n - 1]
      case Bind(key, account, now) =>
        if digest(key) == d then Some(Binding(account, SaturatingAdd(now, ttl)))
        else LastBound(digest, ttl, operations, n - 1, d)
      case _ => LastBound(digest, ttl, operations, n - 1, d)
  }

  /** Whether a digest was pushed out after it was last bound, given what each operation so far pushed out. */
  predicate PushedOutSince(digest: Bytes -> Digest, operations: seq<Operation>, evictions: seq<Option<Digest>>,
                           d: Digest)
    requires |evictions| <= |operations|
  {
    if evictions == [] then false
    else
      var n := |evictions| - 1;
      if operations[n].Bind? && digest(operations[n].key) == d then false
      else evictions[n] == Some(d) || PushedOutSince(digest, operations, evictions[..n], d)
  }

  /** Bound, not expired at `now` and not pushed out since. */
  ghost predicate Alive(digest: Bytes -> Digest, ttl: nat, operations: seq<Operation>, evictions: seq<Option<Digest>>,
                        now: nat, d: Digest)
    requires |evictions| <= |operations|
  {
    var last := LastBound(digest, ttl, operations, |evictions|, d);
    last.Some? && last.value.expires > now && !PushedOutSince(digest, operations, evictions, d)
  }

  /** `alive` is the set of the digests of a shard that are alive. */
  ghost predicate AliveIn(digest: Bytes -> Digest, ttl: nat, maximum: nat, operations: seq<Operation>,
                          evictions: seq<Option<Digest>>, now: nat, i: nat, alive: set<Digest>)
    requires |evictions| <= |operations| && maximum > 0
  {
    forall d :: d in alive <==>
                ShardOf(d, ShardCount(maximum)) == i && Alive(digest, ttl, operations, evictions, now, d)
  }

  /** `n` is the number of digests that are alive. */
  ghost predicate CountsAlive(digest: Bytes -> Digest, ttl: nat, operations: seq<Operation>,
                              evictions: seq<Option<Digest>>, now: nat, n: nat)
    requires |evictions| <= |operations|
  {
    exists alive: set<Digest> ::
      |alive| == n && forall d :: d in alive <==> Alive(digest, ttl, operations, evictions, now, d)
  }

  /** The clock did not run backwards up to operation `k`. */
  ghost predicate Forward(operations: seq<Operation>, k: nat)
    requires k < |operations|
  {
    forall i, j :: 0 <= i <= j <= k ==> operations[i].now <= operations[j].now
  }

  /**
   A bind pushes out the binding of its shard that expires soonest, exactly when the shard holds as many live
   bindings as it can and none of them is its own; nothing else pushes anything out.
   */
  ghost predicate Evicts(digest: Bytes -> Digest, ttl: nat, maximum: nat, operations: seq<Operation>,
                         evictions: seq<Option<Digest>>, k: nat)
    requires k < |evictions| <= |operations| && maximum > 0
  {
    match operations[k]
    case Bind(key, _, now) =>
      var i, before := ShardOf(digest(key), ShardCount(maximum)), evictions[..k];
      exists alive :: AliveIn(digest, ttl, maximum, operations, before, now, i, alive) &&
        if digest(key) in alive || |alive| < Capacity(maximum, i) then evictions[k] == None
        else evictions[k].Some? && SoonestIn(digest, ttl, operations, k, alive, evictions[k].value)
    case _ => evictions[k] == None
  }

  ghost predicate SoonestIn(digest: Bytes -> Digest, ttl: nat, operations: seq<Operation>, k: nat, alive: set<Digest>,
                            out: Digest)
    requires k <= |operations|
  {
    && out in alive && LastBound(digest, ttl, operations, k, out).Some?
    && forall d :: d in alive ==>
         var last := LastBound(digest, ttl, operations, k, d);
         last.Some? && LastBound(digest, ttl, operations, k, out).value.expires <= last.value.expires
  }

  ghost predicate Answers(digest: Bytes -> Digest, ttl: nat, maximum: nat, operations: seq<Operation>,
                          evictions: seq<Option<Digest>>, k: nat, answer: Answer)
    requires k < |operations| && k <= |evictions| <= |operations|
  {
    match operations[k]
    case Bind(_, _, _) => answer == Done
    case Lookup(key, now) =>
      var last := LastBound(digest, ttl, operations, k, digest(key));
      && (answer.Hit? || answer.Miss?)
      && (answer.Hit? ==> last.Some? && last.value.account == answer.account && last.value.expires > now)
      && (Forward(operations, k) ==>
            (answer.Hit? <==> Alive(digest, ttl, operations, evictions[..k], now, digest(key))))
    case Len(now) =>
      && answer.Size? && answer.n <= maximum
      && (Forward(operations, k) ==> CountsAlive(digest, ttl, operations, evictions[..k], now, answer.n))
  }

  /** The table holds what the operations so far bound and did not push out. */
  ghost predicate Tracks(digest: Bytes -> Digest, ttl: nat, bound: map<Digest, Binding>, lost: set<Digest>, latest: nat,
                         operations: seq<Operation>, evictions: seq<Option<Digest>>)
    requires |evictions| <= |operations|
  {
    && (forall d :: LastBound(digest, ttl, operations, |evictions|, d) == if d in bound then Some(bound[d]) else None)
    && (forall d :: d in lost <==> PushedOutSince(digest, operations, evictions, d))
    && (latest == 0 || exists k :: 0 <= k < |evictions| && latest == operations[k].now)
  }

  lemma NothingBound(digest: Bytes -> Digest, ttl: nat, operations: seq<Operation>)
    ensures Tracks(digest, ttl, map[], {}, 0, operations, [])
  {
  }

  lemma TracksStep(digest: Bytes -> Digest, ttl: nat, bound: map<Digest, Binding>, lost: set<Digest>, latest: nat,
                   bound': map<Digest, Binding>, lost': set<Digest>, latest': nat, operations: seq<Operation>,
                   evictions: seq<Option<Digest>>, evicted: Option<Digest>)
    requires |evictions| < |operations| && Tracks(digest, ttl, bound, lost, latest, operations, evictions)
    requires match operations[|evictions|]
             case Bind(key, account, now) =>
               && bound' == bound[digest(key) := Binding(account, SaturatingAdd(now, ttl))]
               && lost' == (lost + if evicted.Some? then {evicted.value} else {}) - {digest(key)}
             case _ => bound' == bound && lost' == lost && evicted == None
    requires latest' == if latest < operations[|evictions|].now then operations[|evictions|].now else latest
    ensures Tracks(digest, ttl, bound', lost', latest', operations, evictions + [evicted])
  {
    var n := |evictions|;
    assert (evictions + [evicted])[..n] == evictions;
    if latest' != 0 && latest' == latest {
      var k :| 0 <= k < n && latest == operations[k].now;
      assert 0 <= k < n + 1 && latest' == operations[k].now;
    }
  }

  lemma NotBehind(digest: Bytes -> Digest, ttl: nat, bound: map<Digest, Binding>, lost: set<Digest>, latest: nat,
                  operations: seq<Operation>, evictions: seq<Option<Digest>>)
    requires |evictions| < |operations| && Tracks(digest, ttl, bound, lost, latest, operations, evictions)
    requires Forward(operations, |evictions|)
    ensures latest <= operations[|evictions|].now
  {
    hide LastBound, PushedOutSince;
  }

  /** The live entries of a shard are the bindings of the run that are alive. */
  lemma LiveIsAlive(digest: Bytes -> Digest, ttl: nat, maximum: nat, shards: seq<Shard>, bound: map<Digest, Binding>,
                    lost: set<Digest>, latest: nat, operations: seq<Operation>, evictions: seq<Option<Digest>>,
                    now: nat, i: nat)
    requires |evictions| < |operations| && Tracks(digest, ttl, bound, lost, latest, operations, evictions)
    requires Kept(shards, maximum, bound, lost) && |shards| > 0 && Found(shards, bound, lost, latest)
    requires latest <= now && i < |shards|
    ensures AliveIn(digest, ttl, maximum, operations, evictions, now, i, Live(shards[i].entries, now).Keys)
  {
    hide ShardOf, ShardCount, Capacity, LastBound, PushedOutSince;
    forall d
      ensures d in Live(shards[i].entries, now).Keys <==>
              ShardOf(d, |shards|) == i && Alive(digest, ttl, operations, evictions, now, d)
    {
      assert LastBound(digest, ttl, operations, |evictions|, d) == if d in bound then Some(bound[d]) else None;
      assert d in lost <==> PushedOutSince(digest, operations, evictions, d);
    }
  }

  ghost function KeysOf(shards: seq<Shard>): set<Digest> {
    if shards == [] then {} else KeysOf(shards[..|shards| - 1]) + shards[|shards| - 1].entries.Keys
  }

  /** Every digest is in one shard, so the sizes of the shards add up to the number of digests. */
  lemma {:induction false} CountKeys(shards: seq<Shard>, count: nat)
    requires count > 0 && forall i, d :: 0 <= i < |shards| && d in shards[i].entries ==> ShardOf(d, count) == i
    ensures |KeysOf(shards)| == Total(shards)
    ensures forall d :: d in KeysOf(shards) <==>
              ShardOf(d, count) < |shards| && d in shards[ShardOf(d, count)].entries
  {
    if shards != [] {
      hide ShardOf;
      var n := |shards| - 1;
      var earlier, last := shards[..n], shards[n].entries.Keys;
      assert forall i :: 0 <= i < n ==> earlier[i] == shards[i];
      CountKeys(earlier, count);
      assert KeysOf(earlier) !! last;
      assert |last| == |shards[n].entries|;
    }
  }

  /** After a sweep at a clock that did not run backwards, the entries left are the digests that are alive. */
  lemma SweptCounts(digest: Bytes -> Digest, ttl: nat, maximum: nat, shards: seq<Shard>, bound: map<Digest, Binding>,
                    lost: set<Digest>, latest: nat, operations: seq<Operation>, evictions: seq<Option<Digest>>,
                    now: nat)
    requires |evictions| < |operations| && Tracks(digest, ttl, bound, lost, latest, operations, evictions)
    requires Kept(shards, maximum, bound, lost) && |shards| > 0 && Found(shards, bound, lost, now)
    requires forall i, d :: 0 <= i < |shards| && d in shards[i].entries ==> shards[i].entries[d].expires > now
    ensures CountsAlive(digest, ttl, operations, evictions, now, Total(shards))
  {
    hide ShardCount, Capacity, LastBound, PushedOutSince, Total, KeysOf;
    CountKeys(shards, |shards|);
    hide ShardOf;
    forall d
      ensures d in KeysOf(shards) <==> Alive(digest, ttl, operations, evictions, now, d)
    {
      assert LastBound(digest, ttl, operations, |evictions|, d) == if d in bound then Some(bound[d]) else None;
      assert d in lost <==> PushedOutSince(digest, operations, evictions, d);
    }
  }

  lemma EvictsNow(digest: Bytes -> Digest, ttl: nat, maximum: nat, shards: seq<Shard>, bound: map<Digest, Binding>,
                  lost: set<Digest>, latest: nat, operations: seq<Operation>, evictions: seq<Option<Digest>>,
                  evicted: Option<Digest>)
    requires |evictions| < |operations| && Tracks(digest, ttl, bound, lost, latest, operations, evictions)
    requires Kept(shards, maximum, bound, lost) && |shards| > 0 && Found(shards, bound, lost, latest)
    requires operations[|evictions|].Bind? ==>
      var now, d := operations[|evictions|].now, digest(operations[|evictions|].key);
      var shard := shards[ShardOf(d, |shards|)];
      var live := Live(shard.entries, now);
      if evicted.Some? then d !in live && |live| == shard.capacity && IsSoonest(live, evicted.value)
      else d in live || |live| < shard.capacity
    requires !operations[|evictions|].Bind? ==> evicted == None
    requires Forward(operations, |evictions|)
    ensures Evicts(digest, ttl, maximum, operations, evictions + [evicted], |evictions|)
  {
    var n := |evictions|;
    assert (evictions + [evicted])[..n] == evictions;
    if operations[n].Bind? {
      var now, d := operations[n].now, digest(operations[n].key);
      var i := ShardOf(d, |shards|);
      hide ShardOf, LastBound, PushedOutSince, Capacity, ShardCount, Found;
      NotBehind(digest, ttl, bound, lost, latest, operations, evictions);
      LiveIsAlive(digest, ttl, maximum, shards, bound, lost, latest, operations, evictions, now, i);
      if evicted.Some? {
        SoonestIsIn(digest, ttl, maximum, shards, bound, lost, latest, operations, evictions, now, i, evicted.value);
      }
      assert shards[i].capacity == Capacity(maximum, i);
      var live := Live(shards[i].entries, now);
      assert |live.Keys| == |live|;
    }
  }

  lemma SoonestIsIn(digest: Bytes -> Digest, ttl: nat, maximum: nat, shards: seq<Shard>, bound: map<Digest, Binding>,
                    lost: set<Digest>, latest: nat, operations: seq<Operation>, evictions: seq<Option<Digest>>,
                    now: nat, i: nat, out: Digest)
    requires |evictions| < |operations| && Tracks(digest, ttl, bound, lost, latest, operations, evictions)
    requires Kept(shards, maximum, bound, lost) && i < |shards| && IsSoonest(Live(shards[i].entries, now), out)
    ensures SoonestIn(digest, ttl, operations, |evictions|, Live(shards[i].entries, now).Keys, out)
  {
    hide ShardOf, LastBound, PushedOutSince, Capacity, ShardCount;
    var live := Live(shards[i].entries, now);
    forall d | d in live
      ensures LastBound(digest, ttl, operations, |evictions|, d)
              == Some(Binding(shards[i].entries[d].account, shards[i].entries[d].expires))
    {
      assert d in shards[i].entries;
    }
  }

  /** What was answered and pushed out earlier does not depend on what comes later. */
  lemma EarlierStands(digest: Bytes -> Digest, ttl: nat, maximum: nat, operations: seq<Operation>,
                      evictions: seq<Option<Digest>>, evicted: Option<Digest>, answers: seq<Answer>)
    requires |answers| == |evictions| < |operations| && maximum > 0
    requires forall j :: 0 <= j < |evictions| ==> Answers(digest, ttl, maximum, operations, evictions, j, answers[j])
    requires forall j :: 0 <= j < |evictions| && Forward(operations, j) ==>
               Evicts(digest, ttl, maximum, operations, evictions, j)
    ensures forall j :: 0 <= j < |evictions| ==>
              Answers(digest, ttl, maximum, operations, evictions + [evicted], j, answers[j])
    ensures forall j :: 0 <= j < |evictions| && Forward(operations, j) ==>
              Evicts(digest, ttl, maximum, operations, evictions + [evicted], j)
  {
    hide Forward, LastBound, AliveIn, Alive, SoonestIn, CountsAlive;
    forall j | 0 <= j < |evictions|
      ensures Answers(digest, ttl, maximum, operations, evictions + [evicted], j, answers[j])
      ensures Forward(operations, j) ==> Evicts(digest, ttl, maximum, operations, evictions + [evicted], j)
    {
      assert (evictions + [evicted])[..j] == evictions[..j] && (evictions + [evicted])[j] == evictions[j];
      assert Forward(operations, j) ==> Evicts(digest, ttl, maximum, operations, evictions, j);
    }
  }

  lemma AnswersNow(digest: Bytes -> Digest, ttl: nat, maximum: nat, bound: map<Digest, Binding>, lost: set<Digest>,
                   latest: nat, operations: seq<Operation>, evictions: seq<Option<Digest>>, evicted: Option<Digest>,
                   answer: Answer)
    requires |evictions| < |operations| && Tracks(digest, ttl, bound, lost, latest, operations, evictions)
    requires match operations[|evictions|]
             case Bind(_, _, _) => answer == Done
             case Lookup(key, now) =>
               var d := digest(key);
               && (answer.Hit? || answer.Miss?)
               && (answer.Hit? ==> d in bound && bound[d].account == answer.account && bound[d].expires > now)
               && (now >= latest ==> (answer.Hit? <==> d in bound && bound[d].expires > now && d !in lost))
             case Len(now) =>
               && answer.Size? && answer.n <= maximum
               && (Forward(operations, |evictions|) ==> CountsAlive(digest, ttl, operations, evictions, now, answer.n))
    ensures Answers(digest, ttl, maximum, operations, evictions + [evicted], |evictions|, answer)
  {
    hide LastBound, PushedOutSince;
    assert (evictions + [evicted])[..|evictions|] == evictions;
    if Forward(operations, |evictions|) {
      NotBehind(digest, ttl, bound, lost, latest, operations, evictions);
    }
  }

  /**
   Every run. A lookup answers only the account last bound to its key, while that binding lives. While the clock
   does not run backwards it misses a live binding exactly when that was pushed out since, and a binding is pushed
   out only by a bind into a shard full of live bindings.
   */
  method EveryRun(digest: Bytes -> Digest, maximum: nat, ttl: nat, operations: seq<Operation>)
    returns (answers: seq<Answer>, evictions: seq<Option<Digest>>)
    requires 0 < maximum <= MAX_AFFINITIES && 0 < ttl <= MAX_AFFINITY_TTL_MS
    requires forall k :: 0 <= k < |operations| ==> operations[k].now <= U64_MAX
    ensures |answers| == |evictions| == |operations|
    ensures forall k :: 0 <= k < |answers| ==> Answers(digest, ttl, maximum, operations, evictions, k, answers[k])
    ensures forall k :: 0 <= k < |answers| && Forward(operations, k) ==>
              Evicts(digest, ttl, maximum, operations, evictions, k)
  {
    hide Kept, Found, Live, Total, IsSoonest, Answers, Evicts, Tracks, Forward, ShardOf, CountsAlive;
    var table := new AffinityTable(digest, maximum, ttl);
    answers, evictions := [], [];
    NothingBound(digest, ttl, operations);
    for k := 0 to |operations|
      invariant fresh(table) && table.Valid() && table.maximum == maximum && table.ttl == ttl && table.digest == digest
      invariant |answers| == |evictions| == k
      invariant Tracks(digest, ttl, table.bound, table.lost, table.latest, operations, evictions)
      invariant forall j :: 0 <= j < k ==> Answers(digest, ttl, maximum, operations, evictions, j, answers[j])
      invariant forall j :: 0 <= j < k && Forward(operations, j) ==>
                  Evicts(digest, ttl, maximum, operations, evictions, j)
    {
      ghost var shards, bound, lost, latest := table.shards, table.bound, table.lost, table.latest;
      CountFacts(shards, maximum, bound, lost);
      var answer, evicted := Done, None;
      match operations[k] {
        case Bind(key, account, now) =>
          evicted := table.Bind(key, account, now);
        case Lookup(key, now) =>
          var account := table.Lookup(key, now);
          answer := if account.Some? then Hit(account.value) else Miss;
        case Len(now) =>
          var n := table.Len(now);
          answer := Size(n);
          CountFacts(table.shards, maximum, table.bound, table.lost);
          if Forward(operations, k) {
            NotBehind(digest, ttl, bound, lost, latest, operations, evictions);
            SweptCounts(digest, ttl, maximum, table.shards, bound, lost, latest, operations, evictions, now);
          }
      }
      EarlierStands(digest, ttl, maximum, operations, evictions, evicted, answers);
      AnswersNow(digest, ttl, maximum, bound, lost, latest, operations, evictions, evicted, answer);
      if Forward(operations, k) {
        EvictsNow(digest, ttl, maximum, shards, bound, lost, latest, operations, evictions, evicted);
      }
      TracksStep(digest, ttl, bound, lost, latest, table.bound, table.lost, table.latest, operations, evictions,
                 evicted);
      answers, evictions := answers + [answer], evictions + [evicted];
    }
  }
}
