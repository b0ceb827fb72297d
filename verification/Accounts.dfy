/**
 Account health and weighted selection (`wokcore-engine/src/accounts.rs`).

 The 64 shards partition one map by a hash of the account id, each behind its own lock; the model
 keeps the map whole and runs one call at a time.
 */
module Accounts {
  import opened Prelude

  type AccountId = string

  datatype Authentication = Forward | Oauth | ApiKey | Local

  datatype Policy = Policy(baseCooldownMs: nat, maxCooldownMs: nat)

  datatype Candidate = Candidate(id: AccountId, authentication: Authentication, weight: nat)

  datatype Observation =
    | Success
    | RateLimited(retryAfterMs: Option<nat>)
    | TemporaryFailure(retryAfterMs: Option<nat>)
    | InvalidCredentials
    | InvalidRequest
    | PolicyRejected
    | Quota(remaining: nat, resetsAtMs: nat)

  datatype Kind = Healthy | CoolingDown | QuotaExhausted | Quarantined

  datatype AccountState = AccountState(
    consecutiveFailures: nat, cooldownUntilMs: Option<nat>, quarantined: bool,
    quotaRemaining: Option<nat>, quotaResetsAtMs: Option<nat>,
    selectionCount: nat, lastSelected: nat, updatedAtMs: nat)

  const FRESH := AccountState(0, None, false, None, None, 0, 0, 0)

  datatype Origin = Affinity | WeightedLeastRecentlyUsed

  datatype Choice = Choice(id: AccountId, origin: Origin)

  datatype Error = UnknownAccount | NoEligibleAccount | InvalidSnapshot

  function Normalize(s: AccountState, now: nat): AccountState {
    var s1 := if s.cooldownUntilMs.Some? && s.cooldownUntilMs.value <= now then s.(cooldownUntilMs := None) else s;
    if s1.quotaResetsAtMs.Some? && s1.quotaResetsAtMs.value <= now
    then s1.(quotaRemaining := None, quotaResetsAtMs := None) else s1
  }

  function KindOf(s: AccountState): Kind {
    if s.quarantined then Quarantined
    else if s.cooldownUntilMs.Some? then CoolingDown
    else if s.quotaRemaining == Some(0) then QuotaExhausted
    else Healthy
  }

  function Min(a: nat, b: nat): nat {
    if a <= b then a else b
  }

  function Max(a: nat, b: nat): nat {
    if a >= b then a else b
  }

  function PowerOfTwo(n: nat): nat {
    if n == 0 then 1 else 2 * PowerOfTwo(n - 1)
  }

  /** The exponential back-off for the given number of failures, never below the hint, capped by the policy. */
  function CooldownMs(policy: Policy, failures: nat, hint: Option<nat>): nat {
    var exponent := Min(if failures == 0 then 0 else failures - 1, 63);
    var exponential := Min(Min(policy.baseCooldownMs * PowerOfTwo(exponent), U64_MAX), policy.maxCooldownMs);
    Max(exponential, Min(if hint.Some? then hint.value else 0, policy.maxCooldownMs))
  }

  function Observed(policy: Policy, before: AccountState, observation: Observation, now: nat): AccountState {
    var s := Normalize(before, now);
    var failures := Min(s.consecutiveFailures + 1, 255);
    var s1 := match observation
      case Success =>
        s.(consecutiveFailures := 0, cooldownUntilMs := None, quarantined := false,
           quotaRemaining := None, quotaResetsAtMs := None)
      case RateLimited(hint) =>
        s.(consecutiveFailures := failures,
           cooldownUntilMs := Some(SaturatingAdd(now, CooldownMs(policy, failures, hint))))
      case TemporaryFailure(hint) =>
        s.(consecutiveFailures := failures,
           cooldownUntilMs := Some(SaturatingAdd(now, CooldownMs(policy, failures, hint))))
      case InvalidCredentials =>
        s.(consecutiveFailures := failures, cooldownUntilMs := None, quarantined := true)
      case InvalidRequest => s
      case PolicyRejected => s
      case Quota(remaining, resetsAt) =>
        if resetsAt <= now then s.(quotaRemaining := None, quotaResetsAtMs := None)
        else s.(quotaRemaining := Some(remaining), quotaResetsAtMs := Some(resetsAt));
    s1.(updatedAtMs := Max(s1.updatedAtMs, now))
  }

  /** `compare_weighted_usage(left, right) == Less`. The products fit `u128`. */
  predicate UsedLess(left: Candidate, l: AccountState, right: Candidate, r: AccountState) {
    var leftScore, rightScore := l.selectionCount * right.weight, r.selectionCount * left.weight;
    leftScore < rightScore || (leftScore == rightScore && l.lastSelected < r.lastSelected)
  }

  lemma MulLe(a: nat, b: nat, factor: nat)
    requires a <= b
    ensures a * factor <= b * factor
  {
  }

  lemma MulAdd(factor: int, a: int, b: int)
    ensures factor * (a + b) == factor * a + factor * b
  {
  }

  lemma AddScaled(a: int, b: int, f: int, c: int, d: int, g: int)
    requires a * f <= c * g && b * f <= d * g
    ensures (a + b) * f <= (c + d) * g
  {
    MulAdd(f, a, b);
    MulAdd(g, c, d);
  }

  lemma CancelLe(a: nat, b: nat, factor: nat)
    requires factor > 0 && a * factor <= b * factor
    ensures a <= b
  {
    if a > b {
      MulLe(b + 1, a, factor);
    }
  }

  /** Cross-multiplied usage is a transitive order. */
  lemma ScoreTransitive(a: nat, wa: nat, b: nat, wb: nat, c: nat, wc: nat)
    requires wa > 0 && wb > 0 && wc > 0
    requires a * wb <= b * wa && b * wc <= c * wb
    ensures a * wc <= c * wa
    ensures a * wc == c * wa ==> a * wb == b * wa && b * wc == c * wb
  {
    calc {
      (a * wc) * wb;
      (a * wb) * wc;
    <= { MulLe(a * wb, b * wa, wc); }
      (b * wa) * wc;
      (b * wc) * wa;
    <= { MulLe(b * wc, c * wb, wa); }
      (c * wb) * wa;
      (c * wa) * wb;
    }
    CancelLe(a * wc, c * wa, wb);
    if a * wc == c * wa {
      assert (a * wb) * wc == (b * wa) * wc;
      CancelLe(a * wb, b * wa, wc);
      CancelLe(b * wa, a * wb, wc);
      assert (b * wc) * wa == (c * wb) * wa;
      CancelLe(b * wc, c * wb, wa);
      CancelLe(c * wb, b * wc, wa);
    }
  }

  lemma UsedLessTransitive(a: Candidate, sa: AccountState, b: Candidate, sb: AccountState, c: Candidate,
                           sc: AccountState)
    requires a.weight > 0 && b.weight > 0 && c.weight > 0
    requires !UsedLess(b, sb, a, sa) && !UsedLess(c, sc, b, sb)
    ensures !UsedLess(c, sc, a, sa)
  {
    ScoreTransitive(sa.selectionCount, a.weight, sb.selectionCount, b.weight, sc.selectionCount, c.weight);
  }

  // Selection.

  predicate Eligible(states: map<AccountId, AccountState>, c: Candidate, auth: Authentication, now: nat) {
    c.authentication == auth && c.id in states && KindOf(Normalize(states[c.id], now)).Healthy?
  }

  /** Scanning stops at a matching candidate that is unknown, or that is eligible and the affinity account. */
  predicate Stops(states: map<AccountId, AccountState>, c: Candidate, auth: Authentication, affinity: Option<AccountId>,
                  now: nat)
  {
    c.authentication == auth && (c.id !in states || (Eligible(states, c, auth, now) && affinity == Some(c.id)))
  }

  predicate StopsFirstAt(states: map<AccountId, AccountState>, cs: seq<Candidate>, auth: Authentication,
                         affinity: Option<AccountId>, now: nat, k: nat)
  {
    && k <= |cs|
    && (k < |cs| ==> Stops(states, cs[k], auth, affinity, now))
    && forall j :: 0 <= j < k ==> !Stops(states, cs[j], auth, affinity, now)
  }

  /** Candidate `k` is eligible, no eligible candidate is used less, and every earlier one is used more. */
  ghost predicate LeastUsed(states: map<AccountId, AccountState>, cs: seq<Candidate>, auth: Authentication, now: nat,
                            k: nat) {
    && k < |cs| && Eligible(states, cs[k], auth, now)
    && forall j :: 0 <= j < |cs| && Eligible(states, cs[j], auth, now) ==>
         && !UsedLess(cs[j], Normalize(states[cs[j].id], now), cs[k], Normalize(states[cs[k].id], now))
         && (j < k ==> UsedLess(cs[k], Normalize(states[cs[k].id], now), cs[j], Normalize(states[cs[j].id], now)))
  }

  ghost predicate BestOf(states: map<AccountId, AccountState>, cs: seq<Candidate>, auth: Authentication, now: nat,
                         best: Option<nat>)
  {
    match best
    case None => forall c :: c in cs ==> !Eligible(states, c, auth, now)
    case Some(b) => b < |cs| && Eligible(states, cs[b], auth, now) && LeastUsed(states, cs, auth, now, b)
  }

  function Visited(cs: seq<Candidate>, auth: Authentication): set<AccountId> {
    set c | c in cs && c.authentication == auth :: c.id
  }

  function NormalizedOn(states: map<AccountId, AccountState>, ids: set<AccountId>, now: nat)
    : (normal: map<AccountId, AccountState>)
    ensures normal.Keys == states.Keys
  {
    map id | id in states :: if id in ids then Normalize(states[id], now) else states[id]
  }

  function Marked(s: AccountState, sequence: nat, now: nat): AccountState {
    s.(selectionCount := SaturatingAdd(s.selectionCount, 1),
       lastSelected := SaturatingAdd(sequence, 1),
       updatedAtMs := Max(s.updatedAtMs, now))
  }

  /** What one selection may answer, and the table it leaves behind. */
  ghost predicate SelectionResult(before: map<AccountId, AccountState>, sequence: nat, cs: seq<Candidate>,
                                  auth: Authentication, affinity: Option<AccountId>, now: nat, r: Result<Choice, Error>,
                                  after: map<AccountId, AccountState>)
  {
    match r
    case Ok(Choice(id, Affinity)) =>
      exists k: nat :: StopsFirstAt(before, cs, auth, affinity, now, k) && k < |cs| && id in before
        && affinity == Some(id) && id == cs[k].id
        && var normal := NormalizedOn(before, Visited(cs[..k + 1], auth), now);
           after == normal[id := Marked(normal[id], sequence, now)]
    case Ok(Choice(id, WeightedLeastRecentlyUsed)) =>
      exists k: nat :: LeastUsed(before, cs, auth, now, k) && id == cs[k].id
        && StopsFirstAt(before, cs, auth, affinity, now, |cs|)
        && var normal := NormalizedOn(before, Visited(cs, auth), now);
           after == normal[id := Marked(normal[id], sequence, now)]
    case Err(UnknownAccount) =>
      exists k: nat :: StopsFirstAt(before, cs, auth, affinity, now, k) && k < |cs| && cs[k].id !in before
        && after == NormalizedOn(before, Visited(cs[..k], auth), now)
    case Err(NoEligibleAccount) =>
      && StopsFirstAt(before, cs, auth, affinity, now, |cs|)
      && (forall c :: c in cs ==> !Eligible(before, c, auth, now))
      && after == NormalizedOn(before, Visited(cs, auth), now)
    case Err(InvalidSnapshot) => false
  }

  /** Normalizing the account of one more matching candidate. */
  lemma NormalizedStep(states: map<AccountId, AccountState>, cs: seq<Candidate>, auth: Authentication, now: nat, i: nat)
    requires i < |cs|
    ensures var normal := NormalizedOn(states, Visited(cs[..i], auth), now);
            var id := cs[i].id;
            NormalizedOn(states, Visited(cs[..i + 1], auth), now)
            == if cs[i].authentication == auth && id in states then normal[id := Normalize(normal[id], now)] else normal
  {
    assert cs[..i + 1] == cs[..i] + [cs[i]];
    assert Visited(cs[..i + 1], auth)
        == Visited(cs[..i], auth) + (if cs[i].authentication == auth then {cs[i].id} else {});
    if cs[i].id in states {
      NormalizeTwice(states[cs[i].id], now);
    }
  }

  lemma NormalizedAt(states: map<AccountId, AccountState>, cs: seq<Candidate>, auth: Authentication, now: nat, k: nat)
    requires k < |cs| && cs[k].authentication == auth && cs[k].id in states
    ensures NormalizedOn(states, Visited(cs, auth), now)[cs[k].id] == Normalize(states[cs[k].id], now)
  {
    assert cs[k] in cs;
  }

  class AccountTable {
    const policy: Policy
    var states: map<AccountId, AccountState>
    var sequence: nat

    constructor (policy: Policy, accounts: set<AccountId>)
      ensures this.policy == policy && sequence == 0
      ensures states == map id | id in accounts :: FRESH
    {
      this.policy := policy;
      states := map id | id in accounts :: FRESH;
      sequence := 0;
    }

    method Observe(id: AccountId, observation: Observation, now: nat) returns (known: bool)
      modifies this`states
      ensures known == (id in old(states))
      ensures states == if known then old(states)[id := Observed(policy, old(states)[id], observation, now)]
                        else old(states)
    {
      known := id in states;
      if known {
        states := states[id := Observed(policy, states[id], observation, now)];
      }
    }

    method MarkSelected(id: AccountId, now: nat)
      requires id in states
      modifies this
      ensures states == old(states)[id := Marked(old(states)[id], old(sequence), now)]
      ensures sequence == (old(sequence) + 1) % (U64_MAX + 1)
    {
      states := states[id := Marked(states[id], sequence, now)];
      sequence := (sequence + 1) % (U64_MAX + 1);
    }

    method SelectFrom(cs: seq<Candidate>, auth: Authentication, affinity: Option<AccountId>, now: nat)
      returns (r: Result<Choice, Error>)
      requires forall c :: c in cs ==> 1 <= c.weight <= 100
      modifies this
      ensures SelectionResult(old(states), old(sequence), cs, auth, affinity, now, r, states)
      ensures sequence == if r.Ok? then (old(sequence) + 1) % (U64_MAX + 1) else old(sequence)
    {
      hide Normalize, UsedLess, NormalizedOn, Visited, SelectionResult, BestOf, StopsFirstAt, Marked;
      ghost var before := states;
      var best: Option<nat> := None;
      var i := 0;
      NothingVisited(states, cs, auth, now);
      BestOfNone(states, cs, auth, now);
      while i < |cs|
        invariant 0 <= i <= |cs|
        invariant sequence == old(sequence)
        invariant states == NormalizedOn(before, Visited(cs[..i], auth), now)
        invariant forall j :: 0 <= j < i ==> !Stops(before, cs[j], auth, affinity, now)
        invariant BestOf(before, cs[..i], auth, now, best)
      {
        var c := cs[i];
        NormalizedStep(before, cs, auth, now, i);
        if c.authentication == auth {
          if c.id !in states {
            AnswersUnknown(before, sequence, cs, auth, affinity, now, i);
            return Err(UnknownAccount);
          }
          states := states[c.id := Normalize(states[c.id], now)];
          NormalizedAt(before, cs[..i + 1], auth, now, i);
          if KindOf(states[c.id]).Healthy? {
            if affinity == Some(c.id) {
              AnswersAffinity(before, sequence, cs, auth, affinity, now, i);
              MarkSelected(c.id, now);
              return Ok(Choice(c.id, Affinity));
            }
            if best.Some? {
              BestFacts(before, cs[..i], auth, now, best);
              NormalizedAt(before, cs[..i + 1], auth, now, best.value);
            }
            var replace := best.None? || UsedLess(c, states[c.id], cs[best.value], states[cs[best.value].id]);
            StillBest(before, cs, auth, now, i, best, if replace then Some(i) else best);
            best := if replace then Some(i) else best;
          } else {
            StillBest(before, cs, auth, now, i, best, best);
          }
        } else {
          StillBest(before, cs, auth, now, i, best, best);
        }
        i := i + 1;
      }
      assert cs[..|cs|] == cs;
      if best.None? {
        AnswersNone(before, sequence, cs, auth, affinity, now);
        return Err(NoEligibleAccount);
      }
      BestFacts(before, cs, auth, now, best);
      AnswersBest(before, sequence, cs, auth, affinity, now, best.value);
      MarkSelected(cs[best.value].id, now);
      return Ok(Choice(cs[best.value].id, WeightedLeastRecentlyUsed));
    }
  }

  lemma BestOfNone(states: map<AccountId, AccountState>, cs: seq<Candidate>, auth: Authentication, now: nat)
    ensures BestOf(states, cs[..0], auth, now, None)
  {
  }

  lemma BestFacts(states: map<AccountId, AccountState>, cs: seq<Candidate>, auth: Authentication, now: nat,
                  best: Option<nat>)
    requires BestOf(states, cs, auth, now, best) && best.Some?
    ensures best.value < |cs| && Eligible(states, cs[best.value], auth, now)
  {
  }

  lemma AnswersUnknown(before: map<AccountId, AccountState>, sequence: nat, cs: seq<Candidate>, auth: Authentication,
                       affinity: Option<AccountId>, now: nat, i: nat)
    requires i < |cs| && cs[i].authentication == auth && cs[i].id !in before
    requires forall j :: 0 <= j < i ==> !Stops(before, cs[j], auth, affinity, now)
    ensures SelectionResult(before, sequence, cs, auth, affinity, now, Err(UnknownAccount),
                            NormalizedOn(before, Visited(cs[..i], auth), now))
  {
    hide NormalizedOn, Visited;
    assert StopsFirstAt(before, cs, auth, affinity, now, i);
  }

  lemma AnswersAffinity(before: map<AccountId, AccountState>, sequence: nat, cs: seq<Candidate>, auth: Authentication,
                        affinity: Option<AccountId>, now: nat, i: nat)
    requires i < |cs| && Eligible(before, cs[i], auth, now) && affinity == Some(cs[i].id)
    requires forall j :: 0 <= j < i ==> !Stops(before, cs[j], auth, affinity, now)
    ensures var normal := NormalizedOn(before, Visited(cs[..i + 1], auth), now);
            SelectionResult(before, sequence, cs, auth, affinity, now, Ok(Choice(cs[i].id, Affinity)),
                            normal[cs[i].id := Marked(normal[cs[i].id], sequence, now)])
  {
    hide NormalizedOn, Visited, Marked;
    assert StopsFirstAt(before, cs, auth, affinity, now, i);
  }

  lemma AnswersNone(before: map<AccountId, AccountState>, sequence: nat, cs: seq<Candidate>, auth: Authentication,
                    affinity: Option<AccountId>, now: nat)
    requires forall j :: 0 <= j < |cs| ==> !Stops(before, cs[j], auth, affinity, now)
    requires BestOf(before, cs, auth, now, None)
    ensures SelectionResult(before, sequence, cs, auth, affinity, now, Err(NoEligibleAccount),
                            NormalizedOn(before, Visited(cs, auth), now))
  {
    hide NormalizedOn, Visited;
  }

  lemma AnswersBest(before: map<AccountId, AccountState>, sequence: nat, cs: seq<Candidate>, auth: Authentication,
                    affinity: Option<AccountId>, now: nat, b: nat)
    requires forall j :: 0 <= j < |cs| ==> !Stops(before, cs[j], auth, affinity, now)
    requires BestOf(before, cs, auth, now, Some(b)) && b < |cs| && cs[b].id in before
    ensures var normal := NormalizedOn(before, Visited(cs, auth), now);
            SelectionResult(before, sequence, cs, auth, affinity, now, Ok(Choice(cs[b].id, WeightedLeastRecentlyUsed)),
                            normal[cs[b].id := Marked(normal[cs[b].id], sequence, now)])
  {
    hide NormalizedOn, Visited, Marked, UsedLess, Normalize;
    assert StopsFirstAt(before, cs, auth, affinity, now, |cs|);
  }

  lemma NothingVisited(states: map<AccountId, AccountState>, cs: seq<Candidate>, auth: Authentication, now: nat)
    ensures states == NormalizedOn(states, Visited(cs[..0], auth), now)
  {
  }

  lemma NormalizeTwice(s: AccountState, now: nat)
    ensures Normalize(Normalize(s, now), now) == Normalize(s, now)
  {
  }

  /** Looking at one more candidate keeps the choice right when it is replaced exactly by a less used one. */
  lemma StillBest(states: map<AccountId, AccountState>, cs: seq<Candidate>, auth: Authentication, now: nat, i: nat,
                  best: Option<nat>, next: Option<nat>)
    requires i < |cs| && forall c :: c in cs ==> c.weight > 0
    requires BestOf(states, cs[..i], auth, now, best)
    requires next == if Eligible(states, cs[i], auth, now)
                        && (best.None? || UsedLess(cs[i], Normalize(states[cs[i].id], now),
                                                   cs[best.value], Normalize(states[cs[best.value].id], now)))
                     then Some(i) else best
    ensures BestOf(states, cs[..i + 1], auth, now, next)
  {
    assert cs[..i + 1] == cs[..i] + [cs[i]];
    if best.Some? && next == Some(i) {
      var b := best.value;
      forall j | 0 <= j < i && Eligible(states, cs[j], auth, now)
        ensures UsedLess(cs[i], Normalize(states[cs[i].id], now), cs[j], Normalize(states[cs[j].id], now))
      {
        assert cs[..i][j] == cs[j] && cs[..i][b] == cs[b];
        if !UsedLess(cs[i], Normalize(states[cs[i].id], now), cs[j], Normalize(states[cs[j].id], now)) {
          UsedLessTransitive(cs[b], Normalize(states[cs[b].id], now), cs[j], Normalize(states[cs[j].id], now),
                             cs[i], Normalize(states[cs[i].id], now));
          assert false;
        }
      }
    } else if best.Some? {
      assert forall j :: 0 <= j < i ==> cs[..i][j] == cs[j];
    } else if next.Some? {
      assert forall j :: 0 <= j < i ==> cs[j] in cs[..i];
    }
  }

  // Proportional sharing: picks over time with fixed, distinct, always eligible candidates.

  function Count(picks: seq<AccountId>, id: AccountId): nat {
    multiset(picks)[id]
  }

  ghost predicate Distinct(cs: seq<Candidate>) {
    forall i, j :: 0 <= i < j < |cs| ==> cs[i].id != cs[j].id
  }

  ghost predicate Weighted(cs: seq<Candidate>) {
    forall c :: c in cs ==> c.weight > 0
  }

  /** No candidate has a smaller count relative to its weight than candidate `i`. */
  ghost predicate Least(cs: seq<Candidate>, picks: seq<AccountId>, i: nat) {
    && i < |cs|
    && forall j :: 0 <= j < |cs| ==> Count(picks, cs[i].id) * cs[j].weight <= Count(picks, cs[j].id) * cs[i].weight
  }

  /** Every pick was a least used candidate at its time. */
  ghost predicate FairRun(cs: seq<Candidate>, picks: seq<AccountId>) {
    picks == [] ||
    var earlier := picks[..|picks| - 1];
    FairRun(cs, earlier) && exists i: nat :: Least(cs, earlier, i) && picks[|picks| - 1] == cs[i].id
  }

  lemma PickCounts(picks: seq<AccountId>, id: AccountId)
    requires picks != []
    ensures Count(picks, id) == Count(picks[..|picks| - 1], id) + (if picks[|picks| - 1] == id then 1 else 0)
  {
    assert picks == picks[..|picks| - 1] + [picks[|picks| - 1]];
  }

  /** One pick more than a proportional share is the most any candidate ever gets ahead. */
  lemma {:induction false} NeverAhead(cs: seq<Candidate>, picks: seq<AccountId>, i: nat, j: nat)
    requires Distinct(cs) && Weighted(cs) && FairRun(cs, picks) && i < |cs| && j < |cs|
    ensures (Count(picks, cs[i].id) - 1) * cs[j].weight <= Count(picks, cs[j].id) * cs[i].weight
  {
    if picks != [] {
      var earlier := picks[..|picks| - 1];
      NeverAhead(cs, earlier, i, j);
      PickCounts(picks, cs[i].id);
      PickCounts(picks, cs[j].id);
      MulLe(Count(earlier, cs[j].id), Count(picks, cs[j].id), cs[i].weight);
    }
  }

  function Sum(xs: seq<int>): int {
    if xs == [] then 0 else Sum(xs[..|xs| - 1]) + xs[|xs| - 1]
  }

  lemma {:induction false} SumSign(xs: seq<int>)
    ensures (forall j :: 0 <= j < |xs| ==> xs[j] >= 0) ==> Sum(xs) >= 0
    ensures (forall j :: 0 <= j < |xs| ==> xs[j] >= 0) && Sum(xs) == 0 ==> forall j :: 0 <= j < |xs| ==> xs[j] == 0
    ensures (forall j :: 0 <= j < |xs| ==> xs[j] <= 0) ==> Sum(xs) <= 0
    ensures (forall j :: 0 <= j < |xs| ==> xs[j] <= 0) && Sum(xs) == 0 ==> forall j :: 0 <= j < |xs| ==> xs[j] == 0
  {
    if xs != [] {
      var rest := xs[..|xs| - 1];
      SumSign(rest);
      assert forall j :: 0 <= j < |rest| ==> xs[j] == rest[j];
    }
  }

  function TotalWeight(cs: seq<Candidate>): nat {
    if cs == [] then 0 else TotalWeight(cs[..|cs| - 1]) + cs[|cs| - 1].weight
  }

  /** `scale` times each count minus `share` times each weight. */
  function Excess(cs: seq<Candidate>, picks: seq<AccountId>, scale: int, share: int): seq<int> {
    seq(|cs|, j requires 0 <= j < |cs| => scale * Count(picks, cs[j].id) - share * cs[j].weight)
  }

  function TotalCount(cs: seq<Candidate>, picks: seq<AccountId>): nat {
    if cs == [] then 0 else TotalCount(cs[..|cs| - 1], picks) + Count(picks, cs[|cs| - 1].id)
  }

  lemma {:induction false} SumOfExcess(cs: seq<Candidate>, picks: seq<AccountId>, scale: int, share: int)
    ensures Sum(Excess(cs, picks, scale, share)) == scale * TotalCount(cs, picks) - share * TotalWeight(cs)
  {
    if cs != [] {
      var rest, last := cs[..|cs| - 1], cs[|cs| - 1];
      SumOfExcess(rest, picks, scale, share);
      assert Excess(cs, picks, scale, share)[..|cs| - 1] == Excess(rest, picks, scale, share);
      MulAdd(scale, TotalCount(rest, picks), Count(picks, last.id));
      MulAdd(share, TotalWeight(rest), last.weight);
    }
  }

  lemma {:induction false} TotalCountOfPick(cs: seq<Candidate>, picks: seq<AccountId>)
    requires Distinct(cs) && picks != []
    ensures TotalCount(cs, picks) == TotalCount(cs, picks[..|picks| - 1])
            + (if exists c :: c in cs && c.id == picks[|picks| - 1] then 1 else 0)
  {
    if cs != [] {
      var rest, last := cs[..|cs| - 1], cs[|cs| - 1];
      TotalCountOfPick(rest, picks);
      PickCounts(picks, last.id);
      assert cs == rest + [last];
      assert forall c :: c in cs <==> c in rest || c == last;
    }
  }

  lemma {:induction false} TotalCountOfRun(cs: seq<Candidate>, picks: seq<AccountId>)
    requires Distinct(cs) && FairRun(cs, picks)
    ensures TotalCount(cs, picks) == |picks|
  {
    if picks == [] {
      NothingCounted(cs);
    } else {
      TotalCountOfRun(cs, picks[..|picks| - 1]);
      TotalCountOfPick(cs, picks);
      var i: nat :| Least(cs, picks[..|picks| - 1], i) && picks[|picks| - 1] == cs[i].id;
      assert cs[i] in cs;
    }
  }

  lemma {:induction false} NothingCounted(cs: seq<Candidate>)
    ensures TotalCount(cs, []) == 0
  {
    if cs != [] {
      NothingCounted(cs[..|cs| - 1]);
    }
  }

  /** If one candidate is ahead of its exact share, no candidate is behind its own. */
  lemma NoneBehind(cs: seq<Candidate>, picks: seq<AccountId>, k: nat, i: nat, j: nat)
    requires Distinct(cs) && Weighted(cs) && FairRun(cs, picks) && i < |cs| && j < |cs|
    requires Count(picks, cs[i].id) > k * cs[i].weight
    ensures Count(picks, cs[j].id) >= k * cs[j].weight
  {
    NeverAhead(cs, picks, i, j);
    assert cs[i] in cs;
    Rescale(Count(picks, cs[i].id) - 1, cs[i].weight, Count(picks, cs[j].id), cs[j].weight, k);
  }

  lemma Rescale(a: nat, wa: nat, b: nat, wb: nat, k: nat)
    requires wa > 0 && a * wb <= b * wa && k * wa <= a
    ensures k * wb <= b
  {
    MulLe(k * wa, a, wb);
    assert (k * wa) * wb == (k * wb) * wa;
    CancelLe(k * wb, b, wa);
  }

  /** After `k` times the total weight, every candidate has been chosen exactly `k` times its weight. */
  lemma ExactlyProportional(cs: seq<Candidate>, picks: seq<AccountId>, k: nat)
    requires Distinct(cs) && Weighted(cs) && FairRun(cs, picks)
    requires |picks| == k * TotalWeight(cs)
    ensures forall i :: 0 <= i < |cs| ==> Count(picks, cs[i].id) == k * cs[i].weight
  {
    hide FairRun, Count, TotalCount, TotalWeight, Sum;
    var excess := Excess(cs, picks, 1, k);
    SumOfExcess(cs, picks, 1, k);
    TotalCountOfRun(cs, picks);
    assert Sum(excess) == 0;
    if i :| 0 <= i < |cs| && excess[i] > 0 {
      forall j | 0 <= j < |cs|
        ensures excess[j] >= 0
      {
        NoneBehind(cs, picks, k, i, j);
      }
    }
    SumSign(excess);
    forall i | 0 <= i < |cs|
      ensures Count(picks, cs[i].id) == k * cs[i].weight
    {
      assert excess[i] == 0;
    }
  }

  /** At every moment a candidate is at most one pick above, and one pick per candidate below, its share. */
  lemma AlwaysNearlyProportional(cs: seq<Candidate>, picks: seq<AccountId>, i: nat)
    requires Distinct(cs) && Weighted(cs) && FairRun(cs, picks) && i < |cs|
    ensures TotalWeight(cs) * (Count(picks, cs[i].id) - 1) <= |picks| * cs[i].weight
    ensures (|picks| - |cs|) * cs[i].weight <= TotalWeight(cs) * Count(picks, cs[i].id)
  {
    TotalCountOfRun(cs, picks);
    UpperShare(cs, picks, i, |cs|);
    LowerShare(cs, picks, i, |cs|);
    assert cs[..|cs|] == cs;
  }

  lemma {:induction false} UpperShare(cs: seq<Candidate>, picks: seq<AccountId>, i: nat, n: nat)
    requires Distinct(cs) && Weighted(cs) && FairRun(cs, picks) && i < |cs| && n <= |cs|
    ensures TotalWeight(cs[..n]) * (Count(picks, cs[i].id) - 1) <= TotalCount(cs[..n], picks) * cs[i].weight
  {
    hide FairRun, Count;
    if n > 0 {
      UpperShare(cs, picks, i, n - 1);
      NeverAhead(cs, picks, i, n - 1);
      assert cs[..n][..n - 1] == cs[..n - 1];
      AddScaled(TotalWeight(cs[..n - 1]), cs[n - 1].weight, Count(picks, cs[i].id) - 1,
                TotalCount(cs[..n - 1], picks), Count(picks, cs[n - 1].id), cs[i].weight);
    }
  }

  lemma {:induction false} LowerShare(cs: seq<Candidate>, picks: seq<AccountId>, i: nat, n: nat)
    requires Distinct(cs) && Weighted(cs) && FairRun(cs, picks) && i < |cs| && n <= |cs|
    ensures (TotalCount(cs[..n], picks) - n) * cs[i].weight <= TotalWeight(cs[..n]) * Count(picks, cs[i].id)
  {
    hide FairRun, Count;
    if n > 0 {
      LowerShare(cs, picks, i, n - 1);
      NeverAhead(cs, picks, n - 1, i);
      assert cs[..n][..n - 1] == cs[..n - 1];
      AddScaled(TotalCount(cs[..n - 1], picks) - (n - 1), Count(picks, cs[n - 1].id) - 1, cs[i].weight,
                TotalWeight(cs[..n - 1]), cs[n - 1].weight, Count(picks, cs[i].id));
    }
  }

  // A run of calls on one table, each meeting the contract of `SelectFrom`.

  datatype Call = Call(now: nat, sequence: nat, answer: Result<Choice, Error>)

  ghost predicate Runs(cs: seq<Candidate>, auth: Authentication, tables: seq<map<AccountId, AccountState>>,
                       calls: seq<Call>) {
    && |tables| == |calls| + 1
    && forall t :: 0 <= t < |calls| ==>
         SelectionResult(tables[t], calls[t].sequence, cs, auth, None, calls[t].now, calls[t].answer, tables[t + 1])
  }

  /** Registered, offered under the right authentication, and with nothing that could make it ineligible. */
  ghost predicate AlwaysHealthy(states: map<AccountId, AccountState>, cs: seq<Candidate>, auth: Authentication) {
    forall c :: c in cs ==>
      && c.authentication == auth && c.id in states
      && var s := states[c.id];
         && !s.quarantined && s.cooldownUntilMs.None?
         && s.quotaRemaining.None? && s.quotaResetsAtMs.None?
  }

  ghost predicate CountsAre(states: map<AccountId, AccountState>, cs: seq<Candidate>, picks: seq<AccountId>) {
    forall c :: c in cs ==> c.id in states && states[c.id].selectionCount == Count(picks, c.id)
  }

  function Picks(calls: seq<Call>): seq<AccountId> {
    if calls == [] then []
    else
      var answer := calls[|calls| - 1].answer;
      Picks(calls[..|calls| - 1]) + (if answer.Ok? then [answer.value.id] else [])
  }

  lemma OnePickIsFair(before: map<AccountId, AccountState>, cs: seq<Candidate>, auth: Authentication, call: Call,
                      after: map<AccountId, AccountState>, picks: seq<AccountId>)
    requires cs != [] && AlwaysHealthy(before, cs, auth) && CountsAre(before, cs, picks) && |picks| < U64_MAX
    requires SelectionResult(before, call.sequence, cs, auth, None, call.now, call.answer, after)
    ensures call.answer.Ok? && call.answer.value.origin.WeightedLeastRecentlyUsed?
    ensures exists i: nat :: Least(cs, picks, i) && call.answer.value.id == cs[i].id
    ensures AlwaysHealthy(after, cs, auth) && CountsAre(after, cs, picks + [call.answer.value.id])
  {
    assert cs[0] in cs && Eligible(before, cs[0], auth, call.now);
    var k: nat :| LeastUsed(before, cs, auth, call.now, k) && call.answer.value.id == cs[k].id;
    forall j | 0 <= j < |cs|
      ensures Count(picks, cs[k].id) * cs[j].weight <= Count(picks, cs[j].id) * cs[k].weight
    {
      assert cs[j] in cs && cs[k] in cs;
      assert Eligible(before, cs[j], auth, call.now);
    }
    assert Least(cs, picks, k);
    CountBounded(picks, cs[k].id);
  }

  lemma CountBounded(picks: seq<AccountId>, id: AccountId)
    ensures Count(picks, id) <= |picks|
  {
    assert multiset(picks)[id] <= |multiset(picks)|;
  }

  /** From a fresh table every call answers, and the picks form a fair run. */
  lemma {:induction false} RunIsFair(cs: seq<Candidate>, auth: Authentication,
                                     tables: seq<map<AccountId, AccountState>>, calls: seq<Call>)
    requires cs != [] && Runs(cs, auth, tables, calls) && |calls| <= U64_MAX
    requires AlwaysHealthy(tables[0], cs, auth) && CountsAre(tables[0], cs, [])
    ensures |Picks(calls)| == |calls| && FairRun(cs, Picks(calls))
    ensures AlwaysHealthy(tables[|calls|], cs, auth) && CountsAre(tables[|calls|], cs, Picks(calls))
  {
    if calls != [] {
      var n := |calls| - 1;
      RunIsFair(cs, auth, tables[..n + 1], calls[..n]);
      OnePickIsFair(tables[n], cs, auth, calls[n], tables[n + 1], Picks(calls[..n]));
      assert Picks(calls)[..n] == Picks(calls[..n]);
    }
  }

  // Snapshots and reconfiguration.

  /** What `restore` demands of a snapshot. */
  predicate Restorable(s: AccountState) {
    && s.consecutiveFailures <= 64
    && s.selectionCount <= s.lastSelected && (s.selectionCount == 0 ==> s.lastSelected == 0)
    && !(s.cooldownUntilMs.Some? && s.quarantined)
    && s.quotaRemaining.Some? == s.quotaResetsAtMs.Some?
  }

  /** What every state reached by observing and selecting satisfies, given the table's sequence. */
  predicate Reachable(s: AccountState, sequence: nat) {
    && s.selectionCount <= s.lastSelected <= sequence && (s.selectionCount == 0 ==> s.lastSelected == 0)
    && s.quotaRemaining.Some? == s.quotaResetsAtMs.Some?
    && s.consecutiveFailures <= 255
  }

  lemma ReachableIsKept(policy: Policy, s: AccountState, sequence: nat, observation: Observation, now: nat)
    requires Reachable(s, sequence)
    ensures Reachable(FRESH, 0)
    ensures Reachable(Normalize(s, now), sequence)
    ensures Reachable(Observed(policy, s, observation, now), sequence)
    ensures sequence < U64_MAX ==> Reachable(s, sequence + 1) && Reachable(Marked(s, sequence, now), sequence + 1)
  {
  }

  datatype Snapshot = Snapshot(id: AccountId, state: AccountState)

  datatype Restored = Restored(states: map<AccountId, AccountState>, sequence: nat)

  ghost predicate DistinctSnapshots(snapshots: seq<Snapshot>) {
    forall i, j :: 0 <= i < j < |snapshots| ==> snapshots[i].id != snapshots[j].id
  }

  /** `AccountHealthTable::restore` over a set of registered accounts. */
  method Restore(accounts: set<AccountId>, snapshots: seq<Snapshot>, now: nat) returns (r: Result<Restored, Error>)
    ensures r.Ok? <==> DistinctSnapshots(snapshots)
                       && forall s :: s in snapshots ==> Restorable(s.state) && s.id in accounts
    ensures r.Ok? ==>
      && r.value.states.Keys == accounts
      && (forall s :: s in snapshots ==> r.value.states[s.id] == Normalize(s.state, now))
      && (forall id :: id in accounts && (forall s :: s in snapshots ==> s.id != id) ==> r.value.states[id] == FRESH)
      && (forall s :: s in snapshots ==> s.state.lastSelected <= r.value.sequence)
      && (r.value.sequence == 0 || exists s :: s in snapshots && s.state.lastSelected == r.value.sequence)
  {
    hide Normalize, Restorable;
    var states := map id | id in accounts :: FRESH;
    var seen: set<AccountId> := {};
    var maximum := 0;
    for i := 0 to |snapshots|
      invariant seen == set s | s in snapshots[..i] :: s.id
      invariant states.Keys == accounts
      invariant DistinctSnapshots(snapshots[..i])
      invariant forall s :: s in snapshots[..i] ==> Restorable(s.state) && s.id in accounts
      invariant forall s :: s in snapshots[..i] ==> states[s.id] == Normalize(s.state, now)
      invariant forall id :: id in accounts && id !in seen ==> states[id] == FRESH
      invariant forall s :: s in snapshots[..i] ==> s.state.lastSelected <= maximum
      invariant maximum == 0 || exists s :: s in snapshots[..i] && s.state.lastSelected == maximum
    {
      var snapshot := snapshots[i];
      assert snapshots[..i + 1] == snapshots[..i] + [snapshot];
      assert snapshot in snapshots;
      if snapshot.id in seen {
        return Err(InvalidSnapshot);
      }
      seen := seen + {snapshot.id};
      if !Restorable(snapshot.state) {
        return Err(InvalidSnapshot);
      }
      if snapshot.id !in accounts {
        return Err(UnknownAccount);
      }
      states := states[snapshot.id := Normalize(snapshot.state, now)];
      maximum := if snapshot.state.lastSelected > maximum then snapshot.state.lastSelected else maximum;
    }
    assert snapshots[..|snapshots|] == snapshots;
    r := Ok(Restored(states, maximum));
  }

  /** The states `restore` refuses although observing and selecting can reach them. */
  predicate Stranded(s: AccountState) {
    s.consecutiveFailures > 64 || (s.quarantined && s.cooldownUntilMs.Some?)
  }

  /** The sequence is that of the last selection of some account, or there was none. */
  ghost predicate Used(states: map<AccountId, AccountState>, sequence: nat) {
    sequence == 0 || exists id :: id in states && states[id].lastSelected == sequence
  }

  /** `reconfigured`: carry the retained accounts of a reachable table over to a new set of accounts. */
  method Reconfigured(states: map<AccountId, AccountState>, sequence: nat, accounts: set<AccountId>, now: nat)
    returns (r: Result<Restored, Error>)
    requires forall id :: id in states ==> Reachable(states[id], sequence)
    ensures r.Ok? <==> forall id :: id in states && id in accounts ==> !Stranded(Normalize(states[id], now))
    ensures r.Ok? ==>
      r.value.states == map id | id in accounts :: if id in states then Normalize(states[id], now) else FRESH
    ensures r.Ok? && states.Keys <= accounts && Used(states, sequence) ==> r.value.sequence == sequence
  {
    hide Normalize, Stranded, Restorable, Reachable;
    var snapshots: seq<Snapshot> := [];
    var pending := states.Keys * accounts;
    while pending != {}
      invariant pending <= states.Keys * accounts
      invariant DistinctSnapshots(snapshots)
      invariant forall s :: s in snapshots ==> s.id in states && s.id in accounts && s.id !in pending
      invariant forall s :: s in snapshots ==> s.state == Normalize(states[s.id], now)
      invariant forall id :: id in states && id in accounts && id !in pending ==>
                  Snapshot(id, Normalize(states[id], now)) in snapshots
    {
      var id :| id in pending;
      snapshots := snapshots + [Snapshot(id, Normalize(states[id], now))];
      pending := pending - {id};
    }
    r := Restore(accounts, snapshots, now);
    forall id | id in states
      ensures Restorable(Normalize(states[id], now)) <==> !Stranded(Normalize(states[id], now))
      ensures Normalize(Normalize(states[id], now), now) == Normalize(states[id], now)
      ensures Normalize(states[id], now).lastSelected == states[id].lastSelected <= sequence
    {
      NormalizeTwice(states[id], now);
      RestorableUnlessStranded(states[id], sequence, now);
    }
    if r.Ok? && states.Keys <= accounts {
      forall id | id in states
        ensures states[id].lastSelected <= r.value.sequence
      {
        assert Snapshot(id, Normalize(states[id], now)) in snapshots;
      }
    }
  }

  lemma RestorableUnlessStranded(s: AccountState, sequence: nat, now: nat)
    requires Reachable(s, sequence)
    ensures Restorable(Normalize(s, now)) <==> !Stranded(Normalize(s, now))
    ensures Normalize(s, now).lastSelected == s.lastSelected <= sequence
  {
  }

  /** A revoked credential followed by a rate limit is such a state: the reconfiguration is refused. */
  lemma ReachableYetStranded(policy: Policy)
    requires 0 < policy.baseCooldownMs <= policy.maxCooldownMs
    ensures var s := Observed(policy, Observed(policy, FRESH, InvalidCredentials, 0), RateLimited(None), 0);
            Reachable(s, 0) && Stranded(Normalize(s, 0))
  {
    assert PowerOfTwo(1) == 2;
  }
}
