/**
 Runs of observations and selections on one account table, described by their history alone: which accounts are held
 back and until when, and which of the others is chosen (`wokcore-engine/src/accounts.rs`).
 */
module AccountRuns {
  import opened Prelude
  import opened Accounts

  datatype Request =
    | Note(id: AccountId, observation: Observation, now: nat)
    | Ask(cs: seq<Candidate>, auth: Authentication, affinity: Option<AccountId>, now: nat)

  /** A request with its answer. */
  datatype Entry =
    | Noted(id: AccountId, observation: Observation, now: nat)
    | Asked(cs: seq<Candidate>, auth: Authentication, affinity: Option<AccountId>, now: nat,
            answer: Result<Choice, Error>)

  type History = seq<Entry>

  predicate Succeeded(e: Entry, id: AccountId) {
    e.Noted? && e.id == id && e.observation.Success?
  }

  predicate Failed(e: Entry, id: AccountId) {
    e.Noted? && e.id == id && (e.observation.RateLimited? || e.observation.TemporaryFailure?)
  }

  predicate Revoked(e: Entry, id: AccountId) {
    e.Noted? && e.id == id && e.observation.InvalidCredentials?
  }

  predicate Metered(e: Entry, id: AccountId) {
    e.Noted? && e.id == id && e.observation.Quota?
  }

  /** The failures of an account since its last success. */
  function Failures(h: History, id: AccountId): nat {
    if h == [] then 0
    else
      var last, rest := h[|h| - 1], h[..|h| - 1];
      if Succeeded(last, id) then 0
      else Failures(rest, id) + if Failed(last, id) || Revoked(last, id) then 1 else 0
  }

  /**
   The entry looks at the account: it observes it, or the scan of a selection comes to it. A scan ends at the account
   of the affinity if that is the answer, and before the first account that is not registered.
   */
  predicate Looks(accounts: set<AccountId>, e: Entry, id: AccountId) {
    match e
    case Noted(noted, _, _) => noted == id
    case Asked(cs, auth, _, _, answer) =>
      exists i :: 0 <= i < |cs| && Matches(cs[i], auth, id) && Scans(accounts, cs, auth, answer, i)
  }

  predicate Matches(c: Candidate, auth: Authentication, id: AccountId) {
    c.authentication == auth && c.id == id
  }

  predicate Scans(accounts: set<AccountId>, cs: seq<Candidate>, auth: Authentication, answer: Result<Choice, Error>,
                  i: nat)
    requires i < |cs|
  {
    && (answer == Err(UnknownAccount) ==> AllKnown(accounts, cs[..i + 1], auth))
    && (answer.Ok? && answer.value.origin.Affinity? ==>
          forall j :: 0 <= j < i ==> !Matches(cs[j], auth, answer.value.id))
  }

  predicate AllKnown(accounts: set<AccountId>, cs: seq<Candidate>, auth: Authentication) {
    forall c :: c in cs && c.authentication == auth ==> c.id in accounts
  }

  // What holds an account back.

  ghost predicate RevokedFrom(h: History, id: AccountId, k: nat) {
    k < |h| && Revoked(h[k], id) && forall j :: k < j < |h| ==> !Succeeded(h[j], id)
  }

  /** The end of the cooldown that a failure starts. */
  function Until(policy: Policy, h: History, k: nat): nat {
    if k < |h| && h[k].Noted? && Failed(h[k], h[k].id) then
      SaturatingAdd(h[k].now, CooldownMs(policy, Failures(h[..k + 1], h[k].id), h[k].observation.retryAfterMs))
    else 0
  }

  predicate EndsCooldown(e: Entry, id: AccountId) {
    Succeeded(e, id) || Failed(e, id) || Revoked(e, id)
  }

  /** The failure at `k` was the last one, and nobody looked at the account after its cooldown. */
  ghost predicate CoolingFrom(policy: Policy, accounts: set<AccountId>, h: History, id: AccountId, k: nat) {
    && k < |h| && Failed(h[k], id)
    && forall j :: k < j < |h| ==>
         !EndsCooldown(h[j], id) && (Looks(accounts, h[j], id) ==> h[j].now < Until(policy, h, k))
  }

  predicate EndsQuota(e: Entry, id: AccountId) {
    Succeeded(e, id) || Metered(e, id)
  }

  function ResetsAt(h: History, k: nat): nat {
    if k < |h| && h[k].Noted? && h[k].observation.Quota? then h[k].observation.resetsAtMs else 0
  }

  function RemainingAt(h: History, k: nat): nat {
    if k < |h| && h[k].Noted? && h[k].observation.Quota? then h[k].observation.remaining else 0
  }

  ghost predicate MeteredFrom(accounts: set<AccountId>, h: History, id: AccountId, k: nat) {
    && k < |h| && Metered(h[k], id) && h[k].now < ResetsAt(h, k)
    && forall j :: k < j < |h| ==>
         !EndsQuota(h[j], id) && (Looks(accounts, h[j], id) ==> h[j].now < ResetsAt(h, k))
  }

  /** At `now` the account is quarantined, in a cooldown or out of quota. */
  ghost predicate HeldBack(policy: Policy, accounts: set<AccountId>, h: History, id: AccountId, now: nat) {
    || (exists k :: RevokedFrom(h, id, k))
    || (exists k :: CoolingFrom(policy, accounts, h, id, k) && now < Until(policy, h, k))
    || (exists k :: MeteredFrom(accounts, h, id, k) && RemainingAt(h, k) == 0 && now < ResetsAt(h, k))
  }

  // The health of an account.

  ghost predicate Reflects(policy: Policy, accounts: set<AccountId>, h: History, id: AccountId, s: AccountState) {
    && s.consecutiveFailures == Min(Failures(h, id), 255)
    && (s.quarantined <==> exists k :: RevokedFrom(h, id, k))
    && ReflectsCooldown(policy, accounts, h, id, s.cooldownUntilMs)
    && ReflectsQuota(accounts, h, id, s.quotaRemaining, s.quotaResetsAtMs)
  }

  ghost predicate ReflectsCooldown(policy: Policy, accounts: set<AccountId>, h: History, id: AccountId,
                                   until: Option<nat>) {
    && (until.Some? ==> exists k :: CoolingFrom(policy, accounts, h, id, k))
    && (forall k :: CoolingFrom(policy, accounts, h, id, k) ==> until == Some(Until(policy, h, k)))
  }

  ghost predicate ReflectsQuota(accounts: set<AccountId>, h: History, id: AccountId, remaining: Option<nat>,
                                resets: Option<nat>) {
    && (remaining.Some? || resets.Some? ==> exists k :: MeteredFrom(accounts, h, id, k))
    && (forall k :: MeteredFrom(accounts, h, id, k) ==>
          remaining == Some(RemainingAt(h, k)) && resets == Some(ResetsAt(h, k)))
  }

  /** An account is healthy exactly when its history does not hold it back. */
  lemma HealthyExactly(policy: Policy, accounts: set<AccountId>, h: History, id: AccountId, s: AccountState, now: nat)
    requires Reflects(policy, accounts, h, id, s)
    ensures KindOf(Normalize(s, now)).Healthy? <==> !HeldBack(policy, accounts, h, id, now)
  {
    hide CoolingFrom, MeteredFrom, RevokedFrom, Until, Failures, ResetsAt, RemainingAt;
  }

  lemma FreshReflects(policy: Policy, accounts: set<AccountId>, id: AccountId)
    ensures Reflects(policy, accounts, [], id, FRESH)
  {
  }

  // One more entry.

  lemma CoolingAfter(policy: Policy, accounts: set<AccountId>, h: History, e: Entry, id: AccountId, k: nat)
    ensures k < |h| ==> Until(policy, h + [e], k) == Until(policy, h, k)
    ensures CoolingFrom(policy, accounts, h + [e], id, k) <==>
              if k == |h| then Failed(e, id)
              else CoolingFrom(policy, accounts, h, id, k) && !EndsCooldown(e, id)
                   && (Looks(accounts, e, id) ==> e.now < Until(policy, h, k))
  {
    hide Looks, EndsCooldown, Failures, CooldownMs;
    var more := h + [e];
    if k < |h| {
      assert more[..k + 1] == h[..k + 1];
    }
    assert forall j :: 0 <= j < |h| ==> more[j] == h[j];
    assert more[|h|] == e;
  }

  lemma MeteredAfter(accounts: set<AccountId>, h: History, e: Entry, id: AccountId, k: nat)
    ensures k < |h| ==> ResetsAt(h + [e], k) == ResetsAt(h, k) && RemainingAt(h + [e], k) == RemainingAt(h, k)
    ensures MeteredFrom(accounts, h + [e], id, k) <==>
              if k == |h| then Metered(e, id) && e.now < e.observation.resetsAtMs
              else MeteredFrom(accounts, h, id, k) && !EndsQuota(e, id)
                   && (Looks(accounts, e, id) ==> e.now < ResetsAt(h, k))
  {
    hide Looks, EndsQuota;
    var more := h + [e];
    assert forall j :: 0 <= j < |h| ==> more[j] == h[j];
    assert more[|h|] == e;
  }

  lemma RevokedAfter(h: History, e: Entry, id: AccountId)
    ensures (exists k :: RevokedFrom(h + [e], id, k)) <==>
              Revoked(e, id) || (!Succeeded(e, id) && exists k :: RevokedFrom(h, id, k))
  {
    var more := h + [e];
    assert forall j :: 0 <= j < |h| ==> more[j] == h[j];
    assert more[|h|] == e;
    assert Revoked(e, id) ==> RevokedFrom(more, id, |h|);
    assert forall k: nat :: RevokedFrom(h, id, k) && !Succeeded(e, id) ==> RevokedFrom(more, id, k);
    assert forall k: nat :: RevokedFrom(more, id, k) ==> k == |h| || RevokedFrom(h, id, k);
  }

  lemma FailuresAfter(h: History, e: Entry, id: AccountId)
    ensures Failures(h + [e], id)
            == if Succeeded(e, id) then 0 else Failures(h, id) + if Failed(e, id) || Revoked(e, id) then 1 else 0
  {
    assert (h + [e])[..|h|] == h;
  }

  /** What one entry makes of a cooldown. */
  function CooldownAfter(policy: Policy, accounts: set<AccountId>, h: History, e: Entry, id: AccountId,
                         before: Option<nat>): Option<nat> {
    if Failed(e, id) then Some(Until(policy, h + [e], |h|))
    else if EndsCooldown(e, id) then None
    else if Looks(accounts, e, id) && before.Some? && before.value <= e.now then None
    else before
  }

  lemma CooldownReflected(policy: Policy, accounts: set<AccountId>, h: History, e: Entry, id: AccountId,
                          before: Option<nat>)
    requires ReflectsCooldown(policy, accounts, h, id, before)
    ensures ReflectsCooldown(policy, accounts, h + [e], id, CooldownAfter(policy, accounts, h, e, id, before))
  {
    hide CoolingFrom, Looks, Until;
    var more := h + [e];
    forall k: nat
      ensures k < |h| ==> Until(policy, more, k) == Until(policy, h, k)
      ensures CoolingFrom(policy, accounts, more, id, k) <==>
                if k == |h| then Failed(e, id)
                else CoolingFrom(policy, accounts, h, id, k) && !EndsCooldown(e, id)
                     && (Looks(accounts, e, id) ==> e.now < Until(policy, h, k))
      ensures CoolingFrom(policy, accounts, h, id, k) ==> k < |h|
    {
      CoolingAfter(policy, accounts, h, e, id, k);
      CoolingIsPast(policy, accounts, h, id, k);
    }
    if Failed(e, id) {
      assert CoolingFrom(policy, accounts, more, id, |h|);
    } else if before.Some? {
      var k: nat :| CoolingFrom(policy, accounts, h, id, k);
      assert CoolingFrom(policy, accounts, more, id, k) <==>
               !EndsCooldown(e, id) && (Looks(accounts, e, id) ==> e.now < before.value);
    }
  }

  lemma CoolingIsPast(policy: Policy, accounts: set<AccountId>, h: History, id: AccountId, k: nat)
    ensures CoolingFrom(policy, accounts, h, id, k) ==> k < |h|
  {
  }

  /** What one entry makes of a quota, its remainder and its reset. */
  function QuotaAfter(accounts: set<AccountId>, e: Entry, id: AccountId, remaining: Option<nat>, resets: Option<nat>)
    : (Option<nat>, Option<nat>)
  {
    if Metered(e, id) && e.now < e.observation.resetsAtMs then
      (Some(e.observation.remaining), Some(e.observation.resetsAtMs))
    else if EndsQuota(e, id) then (None, None)
    else if Looks(accounts, e, id) && resets.Some? && resets.value <= e.now then (None, None)
    else (remaining, resets)
  }

  lemma QuotaReflected(accounts: set<AccountId>, h: History, e: Entry, id: AccountId, remaining: Option<nat>,
                       resets: Option<nat>)
    requires ReflectsQuota(accounts, h, id, remaining, resets)
    ensures var after := QuotaAfter(accounts, e, id, remaining, resets);
            ReflectsQuota(accounts, h + [e], id, after.0, after.1)
  {
    hide MeteredFrom, Looks;
    var more := h + [e];
    forall k: nat
      ensures k < |h| ==> ResetsAt(more, k) == ResetsAt(h, k) && RemainingAt(more, k) == RemainingAt(h, k)
      ensures MeteredFrom(accounts, more, id, k) <==>
                if k == |h| then Metered(e, id) && e.now < e.observation.resetsAtMs
                else MeteredFrom(accounts, h, id, k) && !EndsQuota(e, id)
                     && (Looks(accounts, e, id) ==> e.now < ResetsAt(h, k))
      ensures MeteredFrom(accounts, h, id, k) ==> k < |h|
    {
      MeteredAfter(accounts, h, e, id, k);
      MeteredIsPast(accounts, h, id, k);
    }
    if Metered(e, id) && e.now < e.observation.resetsAtMs {
      assert MeteredFrom(accounts, more, id, |h|);
    } else if remaining.Some? || resets.Some? {
      var k: nat :| MeteredFrom(accounts, h, id, k);
      assert MeteredFrom(accounts, more, id, k) <==>
               !EndsQuota(e, id) && (Looks(accounts, e, id) ==> e.now < resets.value);
    }
  }

  lemma MeteredIsPast(accounts: set<AccountId>, h: History, id: AccountId, k: nat)
    ensures MeteredFrom(accounts, h, id, k) ==> k < |h|
  {
  }

  /** Everything but the selections. */
  predicate SameHealth(a: AccountState, b: AccountState) {
    && a.consecutiveFailures == b.consecutiveFailures && a.cooldownUntilMs == b.cooldownUntilMs
    && a.quarantined == b.quarantined && a.quotaRemaining == b.quotaRemaining && a.quotaResetsAtMs == b.quotaResetsAtMs
  }

  /** The state after one more entry. */
  ghost predicate Follows(policy: Policy, accounts: set<AccountId>, e: Entry, id: AccountId, before: AccountState,
                          after: AccountState) {
    SameHealth(after, if e.Noted? && e.id == id then Observed(policy, before, e.observation, e.now)
                      else if Looks(accounts, e, id) then Normalize(before, e.now) else before)
  }

  lemma Reflected(policy: Policy, accounts: set<AccountId>, h: History, e: Entry, id: AccountId, before: AccountState,
                  after: AccountState)
    requires Reflects(policy, accounts, h, id, before) && Follows(policy, accounts, e, id, before, after)
    ensures Reflects(policy, accounts, h + [e], id, after)
  {
    hide ReflectsCooldown, ReflectsQuota, RevokedFrom, Failures, CooldownMs;
    CooldownReflected(policy, accounts, h, e, id, before.cooldownUntilMs);
    QuotaReflected(accounts, h, e, id, before.quotaRemaining, before.quotaResetsAtMs);
    RevokedAfter(h, e, id);
    FailuresAfter(h, e, id);
    if Failed(e, id) {
      assert (h + [e])[..|h| + 1] == h + [e];
      FailuresSaturate(policy, Failures(h, id), e.observation.retryAfterMs);
    }
    assert after.cooldownUntilMs == CooldownAfter(policy, accounts, h, e, id, before.cooldownUntilMs);
    assert (after.quotaRemaining, after.quotaResetsAtMs)
        == QuotaAfter(accounts, e, id, before.quotaRemaining, before.quotaResetsAtMs);
  }

  lemma FailuresSaturate(policy: Policy, failures: nat, hint: Option<nat>)
    ensures CooldownMs(policy, Min(Min(failures, 255) + 1, 255), hint) == CooldownMs(policy, failures + 1, hint)
  {
  }

  // Selections.

  function Picked(h: History, id: AccountId): nat {
    if h == [] then 0
    else Picked(h[..|h| - 1], id) + if Picks(h[|h| - 1], id) then 1 else 0
  }

  predicate Picks(e: Entry, id: AccountId) {
    e.Asked? && e.answer.Ok? && e.answer.value.id == id
  }

  /** One more than the position of the last selection of the account; zero if there was none. */
  function LastPick(h: History, id: AccountId): (last: nat)
    ensures last <= |h|
  {
    if h == [] then 0
    else if Picks(h[|h| - 1], id) then |h| else LastPick(h[..|h| - 1], id)
  }

  /** All selections so far, which number them. */
  function Total(h: History): (total: nat)
    ensures total <= |h|
  {
    if h == [] then 0
    else Total(h[..|h| - 1]) + if h[|h| - 1].Asked? && h[|h| - 1].answer.Ok? then 1 else 0
  }

  ghost predicate Tallies(h: History, id: AccountId, s: AccountState) {
    s.selectionCount == Picked(h, id) <= |h| && s.lastSelected == Total(h[..LastPick(h, id)])
  }

  lemma {:induction false} TotalGrows(h: History, p: nat, q: nat)
    requires p <= q <= |h|
    ensures Total(h[..p]) <= Total(h[..q])
    ensures p < q && h[q - 1].Asked? && h[q - 1].answer.Ok? ==> Total(h[..p]) < Total(h[..q])
    decreases q
  {
    if p < q {
      TotalGrows(h, p, q - 1);
      assert h[..q][..q - 1] == h[..q - 1];
    }
  }

  lemma {:induction false} LastPickPicks(h: History, id: AccountId)
    ensures LastPick(h, id) > 0 ==> Picks(h[LastPick(h, id) - 1], id)
  {
    if h != [] {
      LastPickPicks(h[..|h| - 1], id);
    }
  }

  /** The numbers of the last selections are in the order of their positions. */
  lemma LastPicksAreOrdered(h: History, a: AccountId, b: AccountId)
    ensures LastPick(h, a) < LastPick(h, b) <==> Total(h[..LastPick(h, a)]) < Total(h[..LastPick(h, b)])
    ensures LastPick(h, a) == LastPick(h, b) <==> Total(h[..LastPick(h, a)]) == Total(h[..LastPick(h, b)])
  {
    hide Total, LastPick;
    LastPickPicks(h, a);
    LastPickPicks(h, b);
    if LastPick(h, a) <= LastPick(h, b) {
      TotalGrows(h, LastPick(h, a), LastPick(h, b));
    } else {
      TotalGrows(h, LastPick(h, b), LastPick(h, a));
    }
  }

  lemma TalliedAfter(h: History, e: Entry, id: AccountId, before: AccountState, after: AccountState)
    requires Tallies(h, id, before) && |h| < U64_MAX
    requires if Picks(e, id) then
               after.selectionCount == SaturatingAdd(before.selectionCount, 1)
               && after.lastSelected == SaturatingAdd(Total(h), 1)
             else after.selectionCount == before.selectionCount && after.lastSelected == before.lastSelected
    ensures Tallies(h + [e], id, after)
  {
    var more := h + [e];
    assert more[..|h|] == h;
    assert more[..|more|] == more;
    assert !Picks(e, id) ==> more[..LastPick(h, id)] == h[..LastPick(h, id)];
  }

  // One selection.

  /** A candidate for the authentication that is registered and not held back. */
  ghost predicate Open(policy: Policy, accounts: set<AccountId>, h: History, c: Candidate, auth: Authentication,
                       now: nat) {
    c.authentication == auth && c.id in accounts && !HeldBack(policy, accounts, h, c.id, now)
  }

  /** Candidate `k` comes before candidate `j`: selected less for its weight, or longer ago, or listed first. */
  predicate Preferred(h: History, cs: seq<Candidate>, k: nat, j: nat)
    requires k < |cs| && j < |cs|
  {
    var left, right := Picked(h, cs[k].id) * cs[j].weight, Picked(h, cs[j].id) * cs[k].weight;
    var last, other := LastPick(h, cs[k].id), LastPick(h, cs[j].id);
    left < right || (left == right && (last < other || (last == other && k <= j)))
  }

  /** The answer to a selection after a history. */
  ghost predicate Answered(policy: Policy, accounts: set<AccountId>, h: History, e: Entry)
    requires e.Asked?
  {
    var cs, auth := e.cs, e.auth;
    match e.answer
    case Ok(Choice(id, Affinity)) =>
      && e.affinity == Some(id)
      && exists i: nat :: i < |cs| && cs[i].id == id && Open(policy, accounts, h, cs[i], auth, e.now)
                          && AllKnown(accounts, cs[..i], auth)
    case Ok(Choice(id, WeightedLeastRecentlyUsed)) =>
      && AllKnown(accounts, cs, auth) && NoAffinity(policy, accounts, h, e, |cs|)
      && exists k: nat :: k < |cs| && cs[k].id == id && Open(policy, accounts, h, cs[k], auth, e.now)
                          && (|h| < U64_MAX ==> Best(policy, accounts, h, e, k))
    case Err(UnknownAccount) =>
      exists i: nat :: i < |cs| && cs[i].authentication == auth && cs[i].id !in accounts
                       && AllKnown(accounts, cs[..i], auth) && NoAffinity(policy, accounts, h, e, i)
    case Err(NoEligibleAccount) =>
      AllKnown(accounts, cs, auth) && forall i :: 0 <= i < |cs| ==> !Open(policy, accounts, h, cs[i], auth, e.now)
    case Err(InvalidSnapshot) => false
  }

  /** None of the first candidates is open and the one of the affinity. */
  ghost predicate NoAffinity(policy: Policy, accounts: set<AccountId>, h: History, e: Entry, n: nat)
    requires e.Asked? && n <= |e.cs|
  {
    forall j :: 0 <= j < n && Open(policy, accounts, h, e.cs[j], e.auth, e.now) ==> e.affinity != Some(e.cs[j].id)
  }

  ghost predicate Best(policy: Policy, accounts: set<AccountId>, h: History, e: Entry, k: nat)
    requires e.Asked? && k < |e.cs|
  {
    forall j :: 0 <= j < |e.cs| && Open(policy, accounts, h, e.cs[j], e.auth, e.now) ==> Preferred(h, e.cs, k, j)
  }

  /** The table is what the history made of it. */
  ghost predicate Holds(policy: Policy, accounts: set<AccountId>, h: History, states: map<AccountId, AccountState>,
                        sequence: nat) {
    && states.Keys == accounts && (forall id :: id in accounts ==> Reflects(policy, accounts, h, id, states[id]))
    && (|h| <= U64_MAX ==> sequence == Total(h) && forall id :: id in accounts ==> Tallies(h, id, states[id]))
  }

  lemma OpenExactly(policy: Policy, accounts: set<AccountId>, h: History, states: map<AccountId, AccountState>,
                    sequence: nat, c: Candidate, auth: Authentication, now: nat)
    requires Holds(policy, accounts, h, states, sequence)
    ensures Eligible(states, c, auth, now) <==> Open(policy, accounts, h, c, auth, now)
  {
    hide Reflects, HeldBack, KindOf, Normalize;
    if c.id in accounts {
      HealthyExactly(policy, accounts, h, c.id, states[c.id], now);
    }
  }

  lemma PreferredExactly(policy: Policy, accounts: set<AccountId>, h: History, states: map<AccountId, AccountState>,
                         sequence: nat, cs: seq<Candidate>, k: nat, j: nat, now: nat)
    requires Holds(policy, accounts, h, states, sequence) && |h| < U64_MAX && k < |cs| && j < |cs|
    requires cs[k].id in states && cs[j].id in states
    requires !UsedLess(cs[j], Normalize(states[cs[j].id], now), cs[k], Normalize(states[cs[k].id], now))
    requires j < k ==> UsedLess(cs[k], Normalize(states[cs[k].id], now), cs[j], Normalize(states[cs[j].id], now))
    ensures Preferred(h, cs, k, j)
  {
    hide Reflects, Total, LastPick, Picked;
    LastPicksAreOrdered(h, cs[k].id, cs[j].id);
  }

  lemma SelectionIsAnswered(policy: Policy, accounts: set<AccountId>, h: History, states: map<AccountId, AccountState>,
                            sequence: nat, e: Entry, after: map<AccountId, AccountState>)
    requires Holds(policy, accounts, h, states, sequence) && e.Asked?
    requires SelectionResult(states, sequence, e.cs, e.auth, e.affinity, e.now, e.answer, after)
    ensures Answered(policy, accounts, h, e)
  {
    hide Reflects, HeldBack, NormalizedOn, Visited, Marked, UsedLess, Normalize, Preferred, Eligible, KindOf, Tallies;
    var cs, auth, now := e.cs, e.auth, e.now;
    forall i | 0 <= i < |cs|
      ensures Eligible(states, cs[i], auth, now) <==> Open(policy, accounts, h, cs[i], auth, now)
    {
      OpenExactly(policy, accounts, h, states, sequence, cs[i], auth, now);
    }
    if e.answer.Ok? && e.answer.value.origin.WeightedLeastRecentlyUsed? {
      var k: nat :| LeastUsed(states, cs, auth, now, k) && e.answer.value.id == cs[k].id;
      if |h| < U64_MAX {
        forall j | 0 <= j < |cs| && Open(policy, accounts, h, cs[j], auth, now)
          ensures Preferred(h, cs, k, j)
        {
          PreferredExactly(policy, accounts, h, states, sequence, cs, k, j, now);
        }
      }
    }
  }

  /** How many candidates the scan of a selection looked at. */
  ghost predicate LookedAt(states: map<AccountId, AccountState>, e: Entry, m: nat)
    requires e.Asked?
  {
    match e.answer
    case Ok(Choice(id, Affinity)) =>
      0 < m <= |e.cs| && StopsFirstAt(states, e.cs, e.auth, e.affinity, e.now, m - 1) && id == e.cs[m - 1].id
      && e.affinity == Some(id) && id in states
    case Err(UnknownAccount) =>
      m < |e.cs| && StopsFirstAt(states, e.cs, e.auth, e.affinity, e.now, m) && e.cs[m].id !in states
    case _ => m == |e.cs|
  }

  lemma ScansExactly(accounts: set<AccountId>, states: map<AccountId, AccountState>, e: Entry, m: nat, i: nat)
    requires states.Keys == accounts && e.Asked? && LookedAt(states, e, m) && i < |e.cs|
    ensures Scans(accounts, e.cs, e.auth, e.answer, i) <==> i < m
  {
    hide Normalize, KindOf;
    var cs, auth := e.cs, e.auth;
    if e.answer == Err(UnknownAccount) {
      if i >= m {
        assert cs[m] in cs[..i + 1];
      }
    } else if e.answer.Ok? && e.answer.value.origin.Affinity? {
      if i >= m {
        assert Matches(cs[m - 1], auth, e.answer.value.id);
      }
      forall j | 0 <= j < m - 1
        ensures !Matches(cs[j], auth, e.answer.value.id)
      {
        assert !Stops(states, cs[j], auth, e.affinity, e.now) && Stops(states, cs[m - 1], auth, e.affinity, e.now);
      }
    }
  }

  lemma VisitedIsLooked(accounts: set<AccountId>, states: map<AccountId, AccountState>, e: Entry, m: nat, id: AccountId)
    requires states.Keys == accounts && e.Asked? && LookedAt(states, e, m) && m <= |e.cs|
    ensures id in Visited(e.cs[..m], e.auth) <==> Looks(accounts, e, id)
  {
    hide LookedAt, Scans;
    var cs, auth := e.cs, e.auth;
    forall i | 0 <= i < |cs|
      ensures Scans(accounts, cs, auth, e.answer, i) <==> i < m
    {
      ScansExactly(accounts, states, e, m, i);
    }
    if id in Visited(cs[..m], auth) {
      var i :| 0 <= i < m && Matches(cs[..m][i], auth, id);
      assert Matches(cs[i], auth, id);
    }
    if i :| 0 <= i < m && Matches(cs[i], auth, id) {
      assert cs[i] in cs[..m];
    }
  }

  /** The table after a selection, from how far the scan looked. */
  lemma SelectionLooks(states: map<AccountId, AccountState>, sequence: nat, e: Entry,
                       after: map<AccountId, AccountState>) returns (m: nat)
    requires e.Asked? && SelectionResult(states, sequence, e.cs, e.auth, e.affinity, e.now, e.answer, after)
    ensures LookedAt(states, e, m) && m <= |e.cs|
    ensures var normal := NormalizedOn(states, Visited(e.cs[..m], e.auth), e.now);
            if e.answer.Ok? then
              e.answer.value.id in states
              && after == normal[e.answer.value.id := Marked(normal[e.answer.value.id], sequence, e.now)]
            else after == normal
  {
    hide NormalizedOn, Visited, Marked, Normalize, KindOf, UsedLess;
    var cs := e.cs;
    m := |cs|;
    assert cs[..m] == cs;
    match e.answer
    case Ok(Choice(id, Affinity)) =>
      var k: nat :| StopsFirstAt(states, cs, e.auth, e.affinity, e.now, k) && k < |cs| && id in states
                    && e.affinity == Some(id) && id == cs[k].id
                    && var normal := NormalizedOn(states, Visited(cs[..k + 1], e.auth), e.now);
                       after == normal[id := Marked(normal[id], sequence, e.now)];
      m := k + 1;
    case Err(UnknownAccount) =>
      m :| StopsFirstAt(states, cs, e.auth, e.affinity, e.now, m) && m < |cs| && cs[m].id !in states
           && after == NormalizedOn(states, Visited(cs[..m], e.auth), e.now);
    case _ =>
  }

  lemma SelectionFollows(policy: Policy, accounts: set<AccountId>, states: map<AccountId, AccountState>, sequence: nat,
                         e: Entry, after: map<AccountId, AccountState>, id: AccountId)
    requires states.Keys == accounts && id in accounts && e.Asked?
    requires SelectionResult(states, sequence, e.cs, e.auth, e.affinity, e.now, e.answer, after)
    ensures after.Keys == accounts && Follows(policy, accounts, e, id, states[id], after[id])
    ensures if Picks(e, id) then
              after[id].selectionCount == SaturatingAdd(states[id].selectionCount, 1)
              && after[id].lastSelected == SaturatingAdd(sequence, 1)
            else after[id].selectionCount == states[id].selectionCount
                 && after[id].lastSelected == states[id].lastSelected
  {
    hide SelectionResult, Visited, Looks, LookedAt;
    var m := SelectionLooks(states, sequence, e, after);
    VisitedIsLooked(accounts, states, e, m, id);
  }

  // Runs.

  ghost predicate Records(request: Request, e: Entry) {
    match request
    case Note(id, observation, now) => e == Noted(id, observation, now)
    case Ask(cs, auth, affinity, now) => e.Asked? && e == Asked(cs, auth, affinity, now, e.answer)
  }

  lemma NoteHolds(policy: Policy, accounts: set<AccountId>, h: History, states: map<AccountId, AccountState>,
                  sequence: nat, e: Entry)
    requires Holds(policy, accounts, h, states, sequence) && e.Noted?
    ensures Holds(policy, accounts, h + [e],
                  if e.id in accounts then states[e.id := Observed(policy, states[e.id], e.observation, e.now)]
                  else states, sequence)
  {
    hide Reflects, Tallies, Looks, Observed, Total;
    var after := if e.id in accounts then states[e.id := Observed(policy, states[e.id], e.observation, e.now)]
                 else states;
    forall id | id in accounts
      ensures Reflects(policy, accounts, h + [e], id, after[id])
      ensures |h + [e]| <= U64_MAX ==> Tallies(h + [e], id, after[id])
    {
      assert Looks(accounts, e, id) == (e.id == id) by { NoteLooks(accounts, e, id); }
      Reflected(policy, accounts, h, e, id, states[id], after[id]);
      if |h| < U64_MAX {
        ObservedKeepsSelections(policy, states[id], e.observation, e.now);
        TalliedAfter(h, e, id, states[id], after[id]);
      }
    }
    TotalAfter(h, e);
  }

  lemma NoteLooks(accounts: set<AccountId>, e: Entry, id: AccountId)
    requires e.Noted?
    ensures Looks(accounts, e, id) == (e.id == id)
  {
  }

  lemma ObservedKeepsSelections(policy: Policy, s: AccountState, observation: Observation, now: nat)
    ensures var after := Observed(policy, s, observation, now);
            after.selectionCount == s.selectionCount && after.lastSelected == s.lastSelected
  {
    hide CooldownMs;
  }

  lemma TotalAfter(h: History, e: Entry)
    ensures Total(h + [e]) == Total(h) + if e.Asked? && e.answer.Ok? then 1 else 0
  {
    assert (h + [e])[..|h|] == h;
  }

  lemma AskHolds(policy: Policy, accounts: set<AccountId>, h: History, states: map<AccountId, AccountState>,
                 sequence: nat, e: Entry, after: map<AccountId, AccountState>)
    requires Holds(policy, accounts, h, states, sequence) && e.Asked?
    requires SelectionResult(states, sequence, e.cs, e.auth, e.affinity, e.now, e.answer, after)
    ensures Holds(policy, accounts, h + [e], after,
                  if e.answer.Ok? then (sequence + 1) % (U64_MAX + 1) else sequence)
    ensures Answered(policy, accounts, h, e)
  {
    hide Reflects, Tallies, Looks, SelectionResult, Follows, Total, Answered;
    SelectionIsAnswered(policy, accounts, h, states, sequence, e, after);
    assert after.Keys == accounts by { SelectionKeepsAccounts(states, sequence, e, after); }
    forall id | id in accounts
      ensures Reflects(policy, accounts, h + [e], id, after[id])
      ensures |h + [e]| <= U64_MAX ==> Tallies(h + [e], id, after[id])
    {
      SelectionFollows(policy, accounts, states, sequence, e, after, id);
      Reflected(policy, accounts, h, e, id, states[id], after[id]);
      if |h| < U64_MAX {
        TalliedAfter(h, e, id, states[id], after[id]);
      }
    }
    TotalAfter(h, e);
  }

  lemma SelectionKeepsAccounts(states: map<AccountId, AccountState>, sequence: nat, e: Entry,
                               after: map<AccountId, AccountState>)
    requires e.Asked? && SelectionResult(states, sequence, e.cs, e.auth, e.affinity, e.now, e.answer, after)
    ensures after.Keys == states.Keys
  {
    hide SelectionResult, Visited, LookedAt, Marked;
    var m := SelectionLooks(states, sequence, e, after);
  }

  lemma FreshHolds(policy: Policy, accounts: set<AccountId>)
    ensures Holds(policy, accounts, [], map id | id in accounts :: FRESH, 0)
  {
    hide Reflects;
    forall id | id in accounts
      ensures Reflects(policy, accounts, [], id, FRESH)
    {
      FreshReflects(policy, accounts, id);
    }
  }

  /**
   Every run of observations and selections on a new table, with any times: each selection is answered from the history
   before it.
   */
  method EveryRun(policy: Policy, accounts: set<AccountId>, requests: seq<Request>) returns (h: History)
    requires forall r, c :: r in requests && r.Ask? && c in r.cs ==> 1 <= c.weight <= 100
    ensures |h| == |requests| && forall n :: 0 <= n < |h| ==> Records(requests[n], h[n])
    ensures forall n :: 0 <= n < |h| && h[n].Asked? ==> Answered(policy, accounts, h[..n], h[n])
  {
    hide Holds, SelectionResult, Answered, Observed;
    var table := new AccountTable(policy, accounts);
    h := [];
    FreshHolds(policy, accounts);
    for n := 0 to |requests|
      invariant fresh(table) && table.policy == policy && |h| == n
      invariant Holds(policy, accounts, h, table.states, table.sequence) && table.states.Keys == accounts
      invariant forall k :: 0 <= k < n ==> Records(requests[k], h[k])
      invariant forall k :: 0 <= k < n && h[k].Asked? ==> Answered(policy, accounts, h[..k], h[k])
    {
      var request := requests[n];
      assert request in requests;
      ghost var states, sequence := table.states, table.sequence;
      var entry: Entry;
      match request {
      case Note(id, observation, now) =>
        var known := table.Observe(id, observation, now);
        entry := Noted(id, observation, now);
        NoteHolds(policy, accounts, h, states, sequence, entry);
      case Ask(cs, auth, affinity, now) =>
        var answer := table.SelectFrom(cs, auth, affinity, now);
        entry := Asked(cs, auth, affinity, now, answer);
        AskHolds(policy, accounts, h, states, sequence, entry, table.states);
        SelectionKeepsAccounts(states, sequence, entry, table.states);
      }
      assert forall k :: 0 <= k <= n ==> (h + [entry])[..k] == h[..k];
      assert h[..n] == h;
      h := h + [entry];
    }
  }

  // What the answers mean.

  lemma PickedIsOpen(policy: Policy, accounts: set<AccountId>, h: History, e: Entry, id: AccountId)
    requires Picks(e, id) && Answered(policy, accounts, h, e)
    ensures id in accounts && !HeldBack(policy, accounts, h, id, e.now)
    ensures exists c :: c in e.cs && Matches(c, e.auth, id)
  {
    hide HeldBack, Best, NoAffinity, AllKnown;
    match e.answer
    case Ok(Choice(_, Affinity)) =>
      var i: nat :| i < |e.cs| && e.cs[i].id == id && Open(policy, accounts, h, e.cs[i], e.auth, e.now);
      assert e.cs[i] in e.cs;
    case Ok(Choice(_, WeightedLeastRecentlyUsed)) =>
      var k: nat :| k < |e.cs| && e.cs[k].id == id && Open(policy, accounts, h, e.cs[k], e.auth, e.now);
      assert e.cs[k] in e.cs;
  }

  ghost predicate SameRequest(e: Entry, f: Entry) {
    e.Asked? && f.Asked? && e == f.(answer := e.answer)
  }

  /** The history decides the answer. */
  lemma OneAnswer(policy: Policy, accounts: set<AccountId>, h: History, e: Entry, f: Entry)
    requires SameRequest(e, f) && |h| < U64_MAX
    requires Answered(policy, accounts, h, e) && Answered(policy, accounts, h, f)
    ensures e == f
  {
    hide Answered;
    OneAffinity(policy, accounts, h, e, f);
    OneAffinity(policy, accounts, h, f, e);
    OneBest(policy, accounts, h, e, f);
    OneBest(policy, accounts, h, f, e);
    OneRefusal(policy, accounts, h, e, f);
    OneRefusal(policy, accounts, h, f, e);
    AnswerKinds(policy, accounts, h, e);
    AnswerKinds(policy, accounts, h, f);
  }

  lemma AnswerKinds(policy: Policy, accounts: set<AccountId>, h: History, e: Entry)
    requires e.Asked? && Answered(policy, accounts, h, e)
    ensures || e.answer == Err(UnknownAccount) || e.answer == Err(NoEligibleAccount)
            || (e.answer.Ok? && e.answer.value.origin.Affinity?)
            || (e.answer.Ok? && e.answer.value.origin.WeightedLeastRecentlyUsed?)
  {
    hide Open, Best, NoAffinity, AllKnown;
  }

  lemma OneAffinity(policy: Policy, accounts: set<AccountId>, h: History, e: Entry, f: Entry)
    requires SameRequest(e, f) && Answered(policy, accounts, h, e) && Answered(policy, accounts, h, f)
    ensures e.answer.Ok? && e.answer.value.origin.Affinity? ==> e == f
  {
    hide HeldBack, Best;
    if e.answer.Ok? && e.answer.value.origin.Affinity? {
      var cs := e.cs;
      var i: nat :| i < |cs| && cs[i].id == e.answer.value.id && Open(policy, accounts, h, cs[i], e.auth, e.now)
                    && AllKnown(accounts, cs[..i], e.auth);
      assert forall j :: 0 <= j < i ==> cs[j] in cs[..i];
    }
  }

  lemma OneBest(policy: Policy, accounts: set<AccountId>, h: History, e: Entry, f: Entry)
    requires SameRequest(e, f) && |h| < U64_MAX
    requires Answered(policy, accounts, h, e) && Answered(policy, accounts, h, f)
    ensures e.answer.Ok? && e.answer.value.origin.WeightedLeastRecentlyUsed? ==> e == f
  {
    hide HeldBack, Picked, LastPick;
    if e.answer.Ok? && e.answer.value.origin.WeightedLeastRecentlyUsed? {
      var cs := e.cs;
      assert forall j :: 0 <= j < |cs| ==> cs[j] in cs;
      var k: nat :| k < |cs| && cs[k].id == e.answer.value.id && Open(policy, accounts, h, cs[k], e.auth, e.now)
                    && Best(policy, accounts, h, e, k);
      OneAffinity(policy, accounts, h, f, e);
      if f.answer.Ok? && f.answer.value.origin.WeightedLeastRecentlyUsed? {
        var j: nat :| j < |cs| && cs[j].id == f.answer.value.id && Open(policy, accounts, h, cs[j], e.auth, e.now)
                      && Best(policy, accounts, h, f, j);
        assert Preferred(h, cs, k, j) && Preferred(h, cs, j, k);
      }
    }
  }

  lemma OneRefusal(policy: Policy, accounts: set<AccountId>, h: History, e: Entry, f: Entry)
    requires SameRequest(e, f) && Answered(policy, accounts, h, e) && Answered(policy, accounts, h, f)
    ensures e.answer == Err(UnknownAccount) ==> f.answer != Err(NoEligibleAccount)
  {
    hide HeldBack, Best;
    assert forall j :: 0 <= j < |e.cs| ==> e.cs[j] in e.cs;
  }

  predicate ValidPolicy(policy: Policy) {
    0 < policy.baseCooldownMs <= policy.maxCooldownMs <= 86_400_000
  }

  /**
   The length of a cooldown: the base after the first failure, twice as long after each further one up to the limit,
   and never shorter than the hint up to the limit.
   */
  lemma CooldownLengths(policy: Policy, failures: nat, hint: Option<nat>)
    requires ValidPolicy(policy) && failures > 0
    ensures CooldownMs(policy, 1, None) == policy.baseCooldownMs
    ensures CooldownMs(policy, failures + 1, None) == Min(2 * CooldownMs(policy, failures, None), policy.maxCooldownMs)
    ensures CooldownMs(policy, failures, hint)
            == Max(CooldownMs(policy, failures, None),
                   if hint.Some? then Min(hint.value, policy.maxCooldownMs) else 0)
    ensures policy.baseCooldownMs <= CooldownMs(policy, failures, hint) <= policy.maxCooldownMs
  {
    hide PowerOfTwo;
    FirstPower();
    Exponential(policy, 0);
    Exponential(policy, Min(failures - 1, 63));
    Exponential(policy, Min(failures, 63));
    if failures < 64 {
      assert policy.baseCooldownMs * PowerOfTwo(failures) == 2 * (policy.baseCooldownMs * PowerOfTwo(failures - 1)) by {
        NextPower(failures - 1);
      }
    }
  }

  lemma FirstPower()
    ensures PowerOfTwo(0) == 1
  {
  }

  lemma NextPower(n: nat)
    ensures PowerOfTwo(n + 1) == 2 * PowerOfTwo(n)
  {
  }

  lemma Exponential(policy: Policy, exponent: nat)
    requires ValidPolicy(policy)
    ensures policy.baseCooldownMs <= policy.baseCooldownMs * PowerOfTwo(exponent)
    ensures exponent == 63 ==> policy.maxCooldownMs <= policy.baseCooldownMs * PowerOfTwo(exponent)
  {
    FirstPower();
    hide PowerOfTwo;
    PowersGrow(0, exponent);
    MulLe(1, PowerOfTwo(exponent), policy.baseCooldownMs);
    if exponent == 63 {
      PowersGrow(28, 63);
      LargePower();
      MulLe(1, policy.baseCooldownMs, PowerOfTwo(exponent));
    }
  }

  lemma FourPowers(n: nat)
    ensures PowerOfTwo(n + 4) == 16 * PowerOfTwo(n)
  {
    assert PowerOfTwo(n + 2) == 4 * PowerOfTwo(n);
  }

  lemma LargePower()
    ensures PowerOfTwo(28) == 268_435_456
  {
    hide PowerOfTwo;
    FirstPower();
    FourPowers(0);
    FourPowers(4);
    FourPowers(8);
    FourPowers(12);
    FourPowers(16);
    FourPowers(20);
    FourPowers(24);
  }

  lemma {:induction false} PowersGrow(n: nat, m: nat)
    requires n <= m
    ensures 1 <= PowerOfTwo(n) <= PowerOfTwo(m)
    decreases m
  {
    if n < m {
      PowersGrow(n, m - 1);
    } else if n > 0 {
      PowersGrow(n - 1, n - 1);
    }
  }

  lemma FailuresPositive(h: History, k: nat, id: AccountId)
    requires k < |h| && Failed(h[k], id)
    ensures Failures(h[..k + 1], id) > 0
  {
    assert h[..k + 1][k] == h[k];
  }

  /** The times of the entries from `k` on, and `now`, are within `[h[k].now, end)`. */
  ghost predicate Within(h: History, k: nat, now: nat, end: nat)
    requires k < |h|
  {
    h[k].now <= now < end && forall j :: k < j < |h| ==> h[k].now <= h[j].now < end
  }

  ghost predicate NoSuccess(h: History, id: AccountId, k: nat) {
    forall j :: k < j < |h| ==> !Succeeded(h[j], id)
  }

  lemma {:induction false} LastFailure(h: History, id: AccountId, k: nat) returns (last: nat)
    requires k < |h| && Failed(h[k], id)
    ensures k <= last < |h| && Failed(h[last], id) && forall j :: last < j < |h| ==> !Failed(h[j], id)
    decreases |h| - k
  {
    last := k;
    if j :| k < j < |h| && Failed(h[j], id) {
      last := LastFailure(h, id, j);
    }
  }

  /** After a failure the account is held back for at least the base cooldown, unless it succeeds. */
  lemma BaseIsKept(policy: Policy, accounts: set<AccountId>, h: History, id: AccountId, k: nat, now: nat)
    requires ValidPolicy(policy) && k < |h| && Failed(h[k], id) && NoSuccess(h, id, k)
    requires Within(h, k, now, SaturatingAdd(h[k].now, policy.baseCooldownMs))
    ensures HeldBack(policy, accounts, h, id, now)
  {
    hide Looks, CooldownMs, Failures;
    var last := LastFailure(h, id, k);
    if j :| last < j < |h| && Revoked(h[j], id) {
      assert RevokedFrom(h, id, j);
    } else {
      FailuresPositive(h, last, id);
      CooldownLengths(policy, Failures(h[..last + 1], id), h[last].observation.retryAfterMs);
      assert CoolingFrom(policy, accounts, h, id, last);
    }
  }

  /** After the last failure the account is held back for at least the hint, up to the limit, unless it succeeds. */
  lemma HintIsKept(policy: Policy, accounts: set<AccountId>, h: History, id: AccountId, k: nat, now: nat)
    requires ValidPolicy(policy) && k < |h| && Failed(h[k], id) && NoSuccess(h, id, k)
    requires h[k].observation.retryAfterMs.Some? && forall j :: k < j < |h| ==> !Failed(h[j], id)
    requires Within(h, k, now, SaturatingAdd(h[k].now, Min(h[k].observation.retryAfterMs.value, policy.maxCooldownMs)))
    ensures HeldBack(policy, accounts, h, id, now)
  {
    hide Looks, CooldownMs, Failures;
    if j :| k < j < |h| && Revoked(h[j], id) {
      assert RevokedFrom(h, id, j);
    } else {
      FailuresPositive(h, k, id);
      CooldownLengths(policy, Failures(h[..k + 1], id), h[k].observation.retryAfterMs);
      assert CoolingFrom(policy, accounts, h, id, k);
    }
  }

  // Cooldowns that end early.

  const POLICY := Policy(1_000, 60_000)

  /** A selection from the one account of the table finds it exactly when it is not held back. */
  lemma OnlyCandidate(policy: Policy, h: History, e: Entry, id: AccountId)
    requires e.Asked? && e.cs == [Candidate(id, e.auth, 1)] && e.affinity.None? && Answered(policy, {id}, h, e)
    ensures if HeldBack(policy, {id}, h, id, e.now) then e.answer == Err(NoEligibleAccount) else Picks(e, id)
  {
    hide HeldBack, Best, NoAffinity;
    assert e.cs[0] == Candidate(id, e.auth, 1);
    assert Open(policy, {id}, h, e.cs[0], e.auth, e.now) <==> !HeldBack(policy, {id}, h, id, e.now);
    if e.answer.Ok? {
      PickedIsOpen(policy, {id}, h, e, e.answer.value.id);
    } else {
      AnswerKinds(policy, {id}, h, e);
    }
  }

  /** A second failure without a hint ends the cooldown of the first, which had one, long before the hint. */
  lemma SecondFailureCutsHint(h: History)
    requires h == [Noted("a", RateLimited(Some(30_000)), 1_000), Noted("a", RateLimited(None), 2_000)]
    ensures !HeldBack(POLICY, {"a"}, h, "a", 4_000) && HeldBack(POLICY, {"a"}, h[..1], "a", 30_999)
  {
    TwoFailures(h);
    hide Failures, CooldownMs, Looks;
    assert EndsCooldown(h[1], "a");
    assert h[..1] == [h[0]] && h[..1][0] == h[0];
    assert CoolingFrom(POLICY, {"a"}, h[..1], "a", 0);
  }

  lemma TwoFailures(h: History)
    requires |h| == 2 && Failed(h[0], "a") && Failed(h[1], "a")
    requires h[0].observation.retryAfterMs == Some(30_000) && h[1].observation.retryAfterMs == None
    ensures Until(POLICY, h, 1) == SaturatingAdd(h[1].now, 2_000)
    ensures Until(POLICY, h[..1], 0) == SaturatingAdd(h[0].now, 30_000)
  {
    hide CooldownMs;
    assert h[..2] == h && h[..1][..1] == h[..1] && h[..1] == [h[0]] && [h[0]][..0] == [];
    assert Failures([h[0]], "a") == 1 && Failures(h, "a") == 2;
    CooldownLengths(POLICY, 1, Some(30_000));
    CooldownLengths(POLICY, 1, None);
  }

  method CutsHintShort() returns (h: History)
    ensures |h| == 3 && h[..2] == [Noted("a", RateLimited(Some(30_000)), 1_000), Noted("a", RateLimited(None), 2_000)]
    ensures Picks(h[2], "a") && h[2].now == 4_000
  {
    hide HeldBack, Answered;
    h := EveryRun(POLICY, {"a"}, [Note("a", RateLimited(Some(30_000)), 1_000), Note("a", RateLimited(None), 2_000),
                                  Ask([Candidate("a", ApiKey, 1)], ApiKey, None, 4_000)]);
    assert h[..2] == [h[0], h[1]];
    SecondFailureCutsHint(h[..2]);
    OnlyCandidate(POLICY, h[..2], h[2], "a");
  }

  /** A look after the cooldown clears it for good, so a clock that goes back finds the account open. */
  lemma LookAheadClears(h: History)
    requires |h| == 2 && h[0] == Noted("a", RateLimited(Some(30_000)), 1_000) && Looks({"a"}, h[1], "a")
    requires h[1].Asked? && h[1].now == 40_000
    ensures !HeldBack(POLICY, {"a"}, h, "a", 2_000) && HeldBack(POLICY, {"a"}, h[..1], "a", 2_000)
  {
    assert h[..1][..1] == h[..1] && h[..1] == [h[0]] && [h[0]][..0] == [];
    assert Failures([h[0]], "a") == 1;
    CooldownLengths(POLICY, 1, Some(30_000));
    hide Failures, CooldownMs, Looks;
    assert CoolingFrom(POLICY, {"a"}, h[..1], "a", 0);
  }

  method ForgetsCooldown() returns (h: History)
    ensures |h| == 3 && h[0] == Noted("a", RateLimited(Some(30_000)), 1_000)
    ensures h[1].now == 40_000 && Picks(h[2], "a") && h[2].now == 2_000
  {
    hide HeldBack, Answered;
    var cs := [Candidate("a", ApiKey, 1)];
    h := EveryRun(POLICY, {"a"}, [Note("a", RateLimited(Some(30_000)), 1_000), Ask(cs, ApiKey, None, 40_000),
                                  Ask(cs, ApiKey, None, 2_000)]);
    AnswerKinds(POLICY, {"a"}, h[..1], h[1]);
    OnlyCandidate(POLICY, h[..1], h[1], "a");
    assert Matches(cs[0], ApiKey, "a") && Scans({"a"}, cs, ApiKey, h[1].answer, 0);
    LookAheadClears(h[..2]);
    OnlyCandidate(POLICY, h[..2], h[2], "a");
  }
}
