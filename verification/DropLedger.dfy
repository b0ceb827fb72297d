/**
 The ledger of dropped events: `DropAtoms`, `DurableDropRequest`, `DurableProducer` and
 `DurableWriterOwner` of `wokcore-diagnostics/src/segment.rs`, with the forwarding of a drop summary
 through the recorder (`wokcore-server/src/observability/writer.rs`).

 Each method is one step of one party: producers, the recorder, the forwarder and the writer's owner.
 The forwarder runs inside the owner's task, so the owner takes no step while a request is open.
 */
module DropLedger {
  import opened Prelude

  const MAX_BATCH_EVENTS: nat := 128
  const MAX_BATCH_EVENT_BYTES: nat := 262_144
  const DURABLE_QUEUE_CAPACITY: nat := 256

  datatype Cause = IngressFull | IngressClosed | WriterUnavailable | InvalidEvent | OversizedEvent

  /** One number per cause. */
  datatype Counts = Counts(full: nat, closed: nat, writer: nat, invalid: nat, oversized: nat) {
    function Get(cause: Cause): nat {
      match cause
      case IngressFull => full
      case IngressClosed => closed
      case WriterUnavailable => writer
      case InvalidEvent => invalid
      case OversizedEvent => oversized
    }

    /** `observe`: one counter, saturating. */
    function Observe(cause: Cause, n: nat): Counts {
      match cause
      case IngressFull => this.(full := SaturatingAdd(full, n))
      case IngressClosed => this.(closed := SaturatingAdd(closed, n))
      case WriterUnavailable => this.(writer := SaturatingAdd(writer, n))
      case InvalidEvent => this.(invalid := SaturatingAdd(invalid, n))
      case OversizedEvent => this.(oversized := SaturatingAdd(oversized, n))
    }

    /** `restore`: every counter, saturating. */
    function Restore(summary: Counts): Counts {
      Counts(SaturatingAdd(full, summary.full), SaturatingAdd(closed, summary.closed),
             SaturatingAdd(writer, summary.writer), SaturatingAdd(invalid, summary.invalid),
             SaturatingAdd(oversized, summary.oversized))
    }
  }

  const ZERO: Counts := Counts(0, 0, 0, 0, 0)

  lemma GetObserve(counts: Counts, cause: Cause, n: nat, c: Cause)
    ensures counts.Observe(cause, n).Get(c) == if c == cause then SaturatingAdd(counts.Get(c), n) else counts.Get(c)
  {
  }

  lemma GetRestore(counts: Counts, summary: Counts, c: Cause)
    ensures counts.Restore(summary).Get(c) == SaturatingAdd(counts.Get(c), summary.Get(c))
  {
  }

  lemma GetZero(c: Cause)
    ensures ZERO.Get(c) == 0
  {
  }

  /** A prepared event; `summary` is present exactly on a drop event. */
  datatype Prepared = Prepared(sequence: nat, id: nat, length: nat, summary: Option<Counts>)

  function Share(summary: Option<Counts>, c: Cause): nat {
    if summary.Some? then summary.value.Get(c) else 0
  }

  /** What the drop events among `events` carry for one cause. */
  function Carried(events: seq<Prepared>, c: Cause): nat {
    if events == [] then 0 else Share(events[0].summary, c) + Carried(events[1..], c)
  }

  function Drops(events: seq<Prepared>): nat {
    if events == [] then 0 else (if events[0].summary.Some? then 1 else 0) + Drops(events[1..])
  }

  lemma {:induction false} CarriedAppend(a: seq<Prepared>, b: seq<Prepared>, c: Cause)
    ensures Carried(a + b, c) == Carried(a, c) + Carried(b, c) && Drops(a + b) == Drops(a) + Drops(b)
  {
    hide Share;
    if a == [] {
      assert a + b == b;
    } else {
      assert (a + b)[1..] == a[1..] + b;
      CarriedAppend(a[1..], b, c);
    }
  }

  lemma CarriedOne(e: Prepared, c: Cause)
    ensures Carried([e], c) == Share(e.summary, c) && Drops([e]) == (if e.summary.Some? then 1 else 0)
  {
    hide Share;
    assert [e][1..] == [];
  }

  lemma {:induction false} NoDropsCarryNothing(events: seq<Prepared>, c: Cause)
    requires Drops(events) == 0
    ensures Carried(events, c) == 0
  {
    if events != [] {
      NoDropsCarryNothing(events[1..], c);
    }
  }

  ghost predicate Increasing(events: seq<Prepared>) {
    forall i, j :: 0 <= i < j < |events| ==> events[i].sequence < events[j].sequence
  }

  // The places a count can be in.

  datatype Request = Request(summary: Counts, forwarded: bool)

  /** The owner runs; the forwarder's barrier failed, which ends the owner's task; the owner is gone with its queues. */
  datatype Phase = Running | Failing | Ended

  datatype State = State(
    drops: Counts,                     // the atomic counters
    inflight: bool,                    // `drop_summary_inflight`
    request: Option<Request>,          // the open request; forwarded once the recorder accepted its event
    recorder: seq<Prepared>,           // accepted by the recorder, not yet sequenced
    channel: seq<Prepared>,            // the durable queue
    pending: seq<Prepared>,            // `pending_ingress`
    indeterminate: Option<Prepared>,   // a drop event whose append failed with unknown outcome
    log: seq<Prepared>,                // events on disk, in order
    next: nat,                         // the recorder's next sequence
    observed: Counts,                  // every drop ever reported
    open: bool,                        // the durable queue takes events
    progress: bool,                    // something was written since start-up
    phase: Phase,
    twice: Counts,                     // what a failed barrier left counted twice
    lost: Counts)                      // what went down with the owner and is counted nowhere

  predicate Persisted(s: State) {
    s.indeterminate.Some? && s.log != [] && s.log[|s.log| - 1] == s.indeterminate.value
  }

  /** The drop event of unknown outcome, while it is not in fact on disk. */
  function Unsettled(s: State): seq<Prepared> {
    if s.indeterminate.Some? && !Persisted(s) then [s.indeterminate.value] else []
  }

  /** Everything sequenced so far and not lost, oldest first. */
  function Flow(s: State): seq<Prepared> {
    s.log + Unsettled(s) + s.pending + s.channel
  }

  function RequestShare(s: State, c: Cause): nat {
    if s.request.Some? && !s.request.value.forwarded then s.request.value.summary.Get(c) else 0
  }

  /** What the ledger holds for a cause, over all places. */
  function Held(s: State, c: Cause): nat {
    s.drops.Get(c) + RequestShare(s, c) + Carried(s.recorder, c) + Carried(Flow(s), c)
  }

  /** The summaries under way: requested, in a queue, or of unknown outcome. */
  function Tokens(s: State): nat {
    (if s.request.Some? && !s.request.value.forwarded then 1 else 0) + Drops(s.recorder)
    + (if s.indeterminate.Some? then 1 else 0) + Drops(s.pending) + Drops(s.channel)
  }

  /** The drop events that the recorder or a queue holds. */
  function Underway(s: State): nat {
    Drops(s.recorder) + Drops(s.pending) + Drops(s.channel)
  }

  function CarriedUnderway(s: State, c: Cause): nat {
    Carried(s.recorder, c) + Carried(s.pending, c) + Carried(s.channel, c)
  }

  /** What the owner holds in memory only: a drop event of unknown outcome that is not on disk, and its queues. */
  function InMemory(s: State): seq<Prepared> {
    Unsettled(s) + s.pending + s.channel
  }

  /** One number per cause for what the drop events among `events` carry. */
  function SummaryOf(events: seq<Prepared>): Counts {
    Counts(Carried(events, IngressFull), Carried(events, IngressClosed), Carried(events, WriterUnavailable),
           Carried(events, InvalidEvent), Carried(events, OversizedEvent))
  }

  /** How far below the limit a count must stay so that no counter saturated. */
  function Slack(s: State, c: Cause): nat {
    if s.phase.Failing? && Underway(s) > 0 then 0 else s.twice.Get(c)
  }

  ghost predicate Conserved(s: State) {
    forall c: Cause :: s.observed.Get(c) + Slack(s, c) <= U64_MAX ==>
      Held(s, c) + s.lost.Get(c) == s.observed.Get(c) + s.twice.Get(c)
  }

  ghost predicate Carries(s: State, summary: Counts) {
    Underway(s) > 0 ==> forall c: Cause :: CarriedUnderway(s, c) == summary.Get(c)
  }

  /**
   While the owner runs at most one summary is under way and nothing is lost; after a failed barrier the summary under
   way may be the one also restored.
   */
  ghost predicate InPhase(s: State) {
    match s.phase
    case Running =>
      && Tokens(s) == (if s.inflight then 1 else 0) && s.twice == ZERO && s.lost == ZERO
      && (s.request.Some? && s.request.value.forwarded ==> Carries(s, s.request.value.summary))
    case Failing =>
      s.request.None? && s.indeterminate.None? && Underway(s) <= 1 && Carries(s, s.twice) && s.lost == ZERO
    case Ended => s.request.None? && s.indeterminate.None? && s.pending == [] && s.channel == [] && !s.open
  }

  ghost predicate Sequenced(s: State) {
    s.next > 0 && Increasing(Flow(s)) && forall e :: e in Flow(s) ==> 0 < e.sequence < s.next
  }

  ghost predicate Bounded(events: seq<Prepared>) {
    forall e :: e in events ==> e.length <= MAX_PREPARED_EVENT_BYTES
  }

  /** Counters below the limit hold every drop that is not lost, and what a failed barrier counted twice once more. */
  ghost predicate Inv(s: State) {
    && Conserved(s) && Sequenced(s) && InPhase(s)
    && (s.indeterminate.Some? ==> s.indeterminate.value.summary.Some? && s.request.None?)
    && Bounded(s.recorder) && Bounded(s.channel) && Bounded(s.pending)
  }

  function Initial(last: nat): State {
    State(ZERO, false, None, [], [], [], None, [], last + 1, ZERO, true, false, Running, ZERO, ZERO)
  }

  lemma InitialInv(last: nat)
    ensures Inv(Initial(last))
  {
  }

  // Steps that only move counts.

  function Reported(counts: Counts, cause: Cause, n: nat): Counts {
    match cause
    case IngressFull => counts.(full := counts.full + n)
    case IngressClosed => counts.(closed := counts.closed + n)
    case WriterUnavailable => counts.(writer := counts.writer + n)
    case InvalidEvent => counts.(invalid := counts.invalid + n)
    case OversizedEvent => counts.(oversized := counts.oversized + n)
  }

  lemma GetReported(counts: Counts, cause: Cause, n: nat, c: Cause)
    ensures Reported(counts, cause, n).Get(c) == counts.Get(c) + (if c == cause then n else 0)
  {
  }

  /** A drop is reported: the counter and the total both grow. */
  function Observe(s: State, cause: Cause, n: nat): State {
    s.(drops := s.drops.Observe(cause, n), observed := Reported(s.observed, cause, n))
  }

  lemma ObserveKeeps(s: State, cause: Cause, n: nat)
    requires Inv(s)
    ensures Inv(Observe(s, cause, n))
  {
    hide Counts.Observe, Counts.Get, Carried, Drops, Increasing, Reported;
    var t := Observe(s, cause, n);
    forall c: Cause | t.observed.Get(c) + Slack(t, c) <= U64_MAX
      ensures Held(t, c) + t.lost.Get(c) == t.observed.Get(c) + t.twice.Get(c)
    {
      GetReported(s.observed, cause, n, c);
      GetObserve(s.drops, cause, n, c);
      assert Held(s, c) + s.lost.Get(c) == s.observed.Get(c) + s.twice.Get(c);
      assert s.drops.Get(c) <= s.observed.Get(c) + Slack(s, c) by { CounterBound(s, c); }
      assert Flow(t) == Flow(s);
    }
    assert Flow(t) == Flow(s);
  }

  /** A counter is no more than what was reported and what no drop event under way holds. */
  lemma CounterBound(s: State, c: Cause)
    requires InPhase(s) && Held(s, c) + s.lost.Get(c) == s.observed.Get(c) + s.twice.Get(c)
    ensures s.drops.Get(c) <= s.observed.Get(c) + Slack(s, c)
  {
    hide Counts.Get, Carried, Drops;
    if s.phase.Failing? && Underway(s) > 0 {
      assert CarriedUnderway(s, c) == s.twice.Get(c);
      LostWithQueues(s, c);
    }
  }

  /** An outstanding summary goes back to the counters. */
  lemma RestoreKeeps(s: State, t: State, summary: Counts)
    requires Inv(s) && t.drops == s.drops.Restore(summary) && t.observed == s.observed
    requires t.twice == s.twice && t.lost == s.lost
    requires Sequenced(t) && InPhase(t) && t.indeterminate.None?
    requires forall c: Cause :: Slack(s, c) <= Slack(t, c) == t.twice.Get(c)
    requires Bounded(t.recorder) && Bounded(t.channel) && Bounded(t.pending)
    requires forall c: Cause :: RequestShare(t, c) + Carried(t.recorder, c) + Carried(Flow(t), c) + summary.Get(c)
                                == RequestShare(s, c) + Carried(s.recorder, c) + Carried(Flow(s), c)
    ensures Inv(t)
  {
    hide Counts.Restore, Counts.Get, Carried, Drops, Increasing, Flow, RequestShare, InPhase, Sequenced, Slack;
    forall c: Cause | t.observed.Get(c) + Slack(t, c) <= U64_MAX
      ensures Held(t, c) + t.lost.Get(c) == t.observed.Get(c) + t.twice.Get(c)
    {
      GetRestore(s.drops, summary, c);
      assert Held(s, c) + s.lost.Get(c) == s.observed.Get(c) + s.twice.Get(c);
      assert RequestShare(t, c) + Carried(t.recorder, c) + Carried(Flow(t), c) + summary.Get(c)
          == RequestShare(s, c) + Carried(s.recorder, c) + Carried(Flow(s), c);
    }
  }

  /** Moving an event along keeps the books when all sums agree. */
  lemma MoveKeeps(s: State, t: State)
    requires Inv(s) && t.drops == s.drops && t.observed == s.observed && t.twice == s.twice && t.lost == s.lost
    requires Sequenced(t) && InPhase(t) && forall c: Cause :: Slack(s, c) == Slack(t, c)
    requires t.indeterminate.Some? ==> t.indeterminate.value.summary.Some? && t.request.None?
    requires Bounded(t.recorder) && Bounded(t.channel) && Bounded(t.pending)
    requires forall c: Cause :: RequestShare(t, c) + Carried(t.recorder, c) + Carried(Flow(t), c)
                                == RequestShare(s, c) + Carried(s.recorder, c) + Carried(Flow(s), c)
    ensures Inv(t)
  {
    hide Counts.Get, Carried, Drops, Increasing, Flow, RequestShare, InPhase, Sequenced, Slack;
    forall c: Cause | t.observed.Get(c) + Slack(t, c) <= U64_MAX
      ensures Held(t, c) + t.lost.Get(c) == t.observed.Get(c) + t.twice.Get(c)
    {
      assert Held(s, c) + s.lost.Get(c) == s.observed.Get(c) + s.twice.Get(c);
      assert RequestShare(t, c) + Carried(t.recorder, c) + Carried(Flow(t), c)
          == RequestShare(s, c) + Carried(s.recorder, c) + Carried(Flow(s), c);
    }
  }

  /** The drop events under way stay the same ones, wherever they are. */
  lemma PhaseKept(s: State, t: State)
    requires InPhase(s) && t.phase == s.phase && t.twice == s.twice && t.lost == s.lost && t.request == s.request
    requires t.inflight == s.inflight && t.indeterminate == s.indeterminate && Underway(t) == Underway(s)
    requires forall c: Cause :: CarriedUnderway(t, c) == CarriedUnderway(s, c)
    requires s.phase.Ended? ==> t.pending == s.pending && t.channel == s.channel && t.open == s.open
    ensures InPhase(t) && forall c: Cause :: Slack(t, c) == Slack(s, c)
  {
    hide Counts.Get, Carried, Drops;
  }

  lemma ProgressKeeps(s: State)
    requires Inv(s)
    ensures Inv(s.(progress := true))
  {
    hide Counts.Get, Carried, Drops, Increasing;
    assert Flow(s.(progress := true)) == Flow(s);
    assert forall c: Cause :: Held(s.(progress := true), c) == Held(s, c);
  }

  /** Removing a stretch of the flow keeps it sequenced. */
  lemma SequencedGap(s: State, t: State, a: seq<Prepared>, b: seq<Prepared>, c: seq<Prepared>)
    requires Sequenced(s) && Flow(s) == a + b + c && Flow(t) == a + c && s.next <= t.next
    ensures Sequenced(t)
  {
    hide Flow;
    var all, gap := a + b + c, a + c;
    assert forall i :: 0 <= i < |gap| ==> gap[i] == all[if i < |a| then i else i + |b|];
  }

  lemma SequencedPush(s: State, t: State, e: Prepared)
    requires Sequenced(s) && Flow(t) == Flow(s) + [e] && e.sequence == s.next && t.next == s.next + 1
    ensures Sequenced(t)
  {
    hide Flow;
    var all := Flow(s) + [e];
    forall i, j | 0 <= i < j < |all|
      ensures all[i].sequence < all[j].sequence
    {
      assert Flow(s)[i] in Flow(s);
    }
  }

  datatype Verdict = Persist | Filtered | Invalid

  /** The oldest event of the recorder gets its sequence and is offered to the durable queue (`try_record`). */
  function Finalized(s: State, verdict: Verdict): State
    requires s.recorder != []
  {
    var event := s.recorder[0].(sequence := s.next);
    var t := s.(recorder := s.recorder[1..], next := s.next + 1);
    if event.summary.None? && verdict.Filtered? then t
    else if event.summary.None? && verdict.Invalid? then Observe(t, InvalidEvent, 1)
    else if s.open && |s.channel| < DURABLE_QUEUE_CAPACITY then t.(channel := s.channel + [event])
    else Observe(if event.summary.None? then t else Restored(t, event.summary.value),
                 if s.open then IngressFull else IngressClosed, 1)
  }

  /** An outstanding summary goes back to the counters. */
  function Restored(s: State, summary: Counts): State {
    s.(drops := s.drops.Restore(summary), inflight := false)
  }

  /** The open request is dropped. If its event was already forwarded, the summary is now counted twice. */
  function Abandoned(s: State): State
    requires s.request.Some?
  {
    var t, r := Restored(s, s.request.value.summary).(request := None), s.request.value;
    if r.forwarded then t.(phase := Failing, twice := r.summary) else t
  }

  /**
   The owner is dropped with all it holds in memory. After a failed barrier a drop event among that was restored, so it
   is counted once again; otherwise what the drop events among it carry is counted nowhere any more.
   */
  function OwnerGone(s: State): State {
    var t := s.(indeterminate := None, pending := [], channel := [], open := false, phase := Ended);
    if s.phase.Running? then t.(lost := SummaryOf(InMemory(s)))
    else t.(twice := if Drops(s.pending) + Drops(s.channel) > 0 then ZERO else s.twice)
  }

  /** What recovery makes of an append of unknown outcome. */
  function Settled(s: State): State {
    if s.indeterminate.None? || s.indeterminate.value.summary.None? then s
    else if Persisted(s) then s.(inflight := false, indeterminate := None)
    else Restored(s, s.indeterminate.value.summary.value).(indeterminate := None)
  }

  function Queue(s: State): seq<Prepared> {
    s.pending + s.channel
  }

  /** What the owner does when it is asked for its next piece of work. */
  ghost predicate Processed(s: State, t: State, calm: bool, outcome: Outcome) {
    && t.recorder == s.recorder && t.next == s.next && t.open == s.open && t.phase == s.phase && t.twice == s.twice
    && t.lost == s.lost && s.log <= t.log
    && (calm ==> !outcome.Failed? && !outcome.RetentionFailed?)
    && (!outcome.Failed? ==> t.observed == s.observed && t.indeterminate.None?)
    && match outcome
       case Idle => Queue(s) == [] && t == Settled(s) && (!s.progress || t.inflight || t.drops == ZERO)
       case DropSummaryRequested =>
         var u := Settled(s);
         && Queue(s) == [] && s.progress && !u.inflight && u.drops != ZERO
         && t == u.(drops := ZERO, inflight := true, request := Some(Request(u.drops, false)))
       case Written(n) => t.progress && Wrote(s, t, n)
       case RetentionFailed(n) => Wrote(s, t, n)
       case Failed => t.request.None? && exists k, n :: Lost(s, t, k, n)
  }

  /** The first `n` queued events are off the queue and counted as dropped, though `k` of them reached the log. */
  ghost predicate Lost(s: State, t: State, k: nat, n: nat) {
    && k <= n <= |Queue(s)| && Queue(t) == Queue(s)[n..] && t.log == s.log + Queue(s)[..k]
    && t.observed == Reported(s.observed, WriterUnavailable, n)
  }

  /** A batch of `n` events moved from the front of the queue to the log; nothing else but the settling. */
  ghost predicate Wrote(s: State, t: State, n: nat) {
    && 0 < n <= |Queue(s)| && t.log == s.log + Queue(s)[..n] && Queue(t) == Queue(s)[n..]
    && t.drops == Settled(s).drops && t.request.None?
    && t.inflight == (Settled(s).inflight && Queue(s)[0].summary.None?)
  }

  datatype Outcome = Idle | DropSummaryRequested | Written(events: nat) | RetentionFailed(events: nat) | Failed

  class Pipeline {
    var drops: Counts
    var inflight: bool
    var request: Option<Request>
    var recorder: seq<Prepared>
    var channel: seq<Prepared>
    var pending: seq<Prepared>
    var indeterminate: Option<Prepared>
    var log: seq<Prepared>
    var next: nat
    var observed: Counts
    var channelOpen: bool
    var progress: bool
    var phase: Phase
    var twice: Counts
    var lost: Counts

    function Now(): State
      reads this
    {
      State(drops, inflight, request, recorder, channel, pending, indeterminate, log, next, observed,
            channelOpen, progress, phase, twice, lost)
    }

    /** A pipeline after start-up recovery found `last` as the last sequence on disk. */
    constructor (last: nat)
      ensures Inv(Now()) && request.None? && Now() == Initial(last)
    {
      drops, inflight, request, observed := ZERO, false, None, ZERO;
      recorder, channel, pending, indeterminate, log := [], [], [], None, [];
      next, channelOpen, progress, phase, twice, lost := last + 1, true, false, Running, ZERO, ZERO;
      new;
      InitialInv(last);
    }

    method Report(cause: Cause, n: nat)
      requires Inv(Now())
      modifies this`drops, this`observed
      ensures Inv(Now()) && Now() == Observe(old(Now()), cause, n)
    {
      ObserveKeeps(Now(), cause, n);
      drops, observed := drops.Observe(cause, n), Reported(observed, cause, n);
    }

    /** The recorder accepts an ordinary event. */
    method Record(id: nat, length: nat)
      requires Inv(Now()) && length <= MAX_PREPARED_EVENT_BYTES
      modifies this`recorder
      ensures Inv(Now()) && Now() == old(Now()).(recorder := old(recorder) + [Prepared(0, id, length, None)])
    {
      ghost var s := Now();
      var event := Prepared(0, id, length, None);
      recorder := recorder + [event];
      RecorderGrows(s, Now(), event);
      PhaseKept(s, Now());
      MoveKeeps(s, Now());
    }

    /** The forwarder hands the summary of the open request to the recorder, which accepts it or not. */
    method Forward(id: nat, length: nat, accepted: bool)
      requires Inv(Now()) && request.Some? && !request.value.forwarded && length <= MAX_PREPARED_EVENT_BYTES
      modifies this`recorder, this`request, this`drops, this`inflight, this`phase, this`twice
      ensures Inv(Now())
      ensures accepted ==>
        Now() == old(Now()).(recorder := old(recorder) + [Prepared(0, id, length, Some(old(request).value.summary))],
                             request := Some(old(request).value.(forwarded := true)))
      ensures !accepted ==> Now() == Restored(old(Now()), old(request).value.summary).(request := None)
    {
      ghost var s := Now();
      var summary := request.value.summary;
      if accepted {
        var event := Prepared(0, id, length, Some(summary));
        recorder := recorder + [event];
        request := Some(Request(summary, true));
        Forwarded(s, Now(), event);
        MoveKeeps(s, Now());
      } else {
        AbandonRequest();
      }
    }

    /**
     Dropping the open request restores its summary. The books stay right when it was not forwarded; otherwise the
     forwarder's barrier failed, the owner's task ends, and the summary is held twice.
     */
    method AbandonRequest()
      requires Inv(Now()) && request.Some?
      modifies this`request, this`drops, this`inflight, this`phase, this`twice
      ensures Inv(Now()) && Now() == Abandoned(old(Now()))
      ensures old(request).value.forwarded ==>
        forall c: Cause :: observed.Get(c) + old(request).value.summary.Get(c) <= U64_MAX ==>
          Held(Now(), c) == observed.Get(c) + old(request).value.summary.Get(c)
    {
      hide Inv, Counts.Restore, Held;
      AbandonedKeeps(Now());
      var summary, forwarded := request.value.summary, request.value.forwarded;
      drops, inflight, request := drops.Restore(summary), false, None;
      if forwarded {
        phase, twice := Failing, summary;
      }
    }

    /**
     The owner's task has ended, after a failed append, recovery, forward or barrier: the owner is dropped with its
     queues. While it ran this loses exactly what the drop events it held in memory carry.
     */
    method DropOwner()
      requires Inv(Now()) && request.None? && !phase.Ended?
      modifies this`indeterminate, this`pending, this`channel, this`channelOpen, this`phase, this`twice, this`lost
      ensures Inv(Now()) && Now() == OwnerGone(old(Now()))
      ensures old(phase).Running? ==>
        forall c: Cause :: observed.Get(c) <= U64_MAX ==>
          Held(Now(), c) + Carried(InMemory(old(Now())), c) == observed.Get(c)
    {
      hide Inv, Held, Carried, Drops, Unsettled;
      OwnerDropped(Now());
      if phase.Running? {
        lost := SummaryOf(InMemory(Now()));
      } else if Drops(pending) + Drops(channel) > 0 {
        twice := ZERO;
      }
      indeterminate, pending, channel, channelOpen, phase := None, [], [], false, Ended;
    }

    /** The forwarder saw the recorder's barrier pass. */
    method Acknowledge()
      requires Inv(Now()) && request.Some? && request.value.forwarded
      modifies this`request
      ensures Inv(Now()) && Now() == old(Now()).(request := None)
    {
      ghost var s := Now();
      request := None;
      assert Flow(Now()) == Flow(s);
      MoveKeeps(s, Now());
    }

    method Finalize(verdict: Verdict)
      requires Inv(Now()) && recorder != []
      modifies this`recorder, this`next, this`channel, this`drops, this`inflight, this`observed
      ensures Inv(Now()) && Now() == Finalized(old(Now()), verdict)
    {
      hide Inv, Counts.Restore, Counts.Observe, Reported;
      FinalizedKeeps(Now(), verdict);
      var event := recorder[0].(sequence := next);
      recorder, next := recorder[1..], next + 1;
      if event.summary.None? && !verdict.Persist? {
        if verdict.Invalid? {
          drops, observed := drops.Observe(InvalidEvent, 1), Reported(observed, InvalidEvent, 1);
        }
      } else if channelOpen && |channel| < DURABLE_QUEUE_CAPACITY {
        channel := channel + [event];
      } else {
        var cause := if channelOpen then IngressFull else IngressClosed;
        var restored := if event.summary.Some? then drops.Restore(event.summary.value) else drops;
        inflight := inflight && event.summary.None?;
        drops, observed := restored.Observe(cause, 1), Reported(observed, cause, 1);
      }
    }

    /** Waiting for work moves the oldest queued event into `pending_ingress`. */
    method Collect()
      requires Inv(Now()) && channel != []
      modifies this`pending, this`channel
      ensures Inv(Now())
      ensures Now() == old(Now()).(pending := old(pending) + [old(channel)[0]], channel := old(channel)[1..])
    {
      ghost var s := Now();
      pending, channel := pending + [channel[0]], channel[1..];
      SameQueue(s, Now());
      PhaseKept(s, Now());
      MoveKeeps(s, Now());
    }

    /** Recovery decides the outcome of the failed append: the summary is on disk, or back in the counters. */
    method Settle(calm: bool) returns (settled: bool)
      requires Inv(Now()) && indeterminate.Some?
      modifies this`indeterminate, this`inflight, this`drops
      ensures Inv(Now())
      ensures !settled ==> Now() == old(Now()) && !calm
      ensures settled ==> Now() == Settled(old(Now())) && indeterminate.None? && !inflight
    {
      var failed := Disturbed(calm);
      if failed {
        return false;
      }
      ghost var s := Now();
      var event := indeterminate.value;
      var lastSequence := if log == [] then 0 else log[|log| - 1].sequence;
      var lastId := if log == [] then None else Some(log[|log| - 1].id);
      LastOfLog(s);
      if lastSequence == event.sequence && lastId == Some(event.id) {
        inflight, indeterminate := false, None;
        SettledOnDisk(s, Now());
        MoveKeeps(s, Now());
      } else if lastSequence < event.sequence {
        drops, inflight, indeterminate := drops.Restore(event.summary.value), false, None;
        SettledLost(s, Now());
        RestoreKeeps(s, Now(), event.summary.value);
      } else {
        assert false;
      }
      settled := true;
    }

    /**
     Take the next batch off the queues: one drop event alone, or ordinary events within the batch limits.
     The limits are checked before every push, so pushing onto the batch cannot fail.
     */
    method TakeBatch() returns (batch: seq<Prepared>)
      requires Bounded(pending) && Bounded(channel) && pending + channel != []
      modifies this`pending, this`channel
      ensures batch != [] && batch + (pending + channel) == old(pending + channel)
      ensures |batch| <= MAX_BATCH_EVENTS && TotalLength(batch) <= MAX_BATCH_EVENT_BYTES
      ensures if batch[0].summary.Some? then |batch| == 1 else Drops(batch) == 0
      ensures batch[0].summary.None? && |batch| < MAX_BATCH_EVENTS && pending + channel != [] ==>
        var next := (pending + channel)[0];
        next.summary.Some? || TotalLength(batch) + next.length > MAX_BATCH_EVENT_BYTES
    {
      hide TotalLength;
      ghost var queue := pending + channel;
      var event := PopQueue();
      batch := [event];
      CarriedOne(event, IngressFull);
      LengthOne(event);
      assert event in queue;
      var bytes := event.length;
      while batch[0].summary.None? && |batch| < MAX_BATCH_EVENTS && pending + channel != []
        invariant batch != [] && batch + (pending + channel) == queue
        invariant |batch| <= MAX_BATCH_EVENTS && bytes == TotalLength(batch) <= MAX_BATCH_EVENT_BYTES
        invariant if batch[0].summary.Some? then |batch| == 1 else Drops(batch) == 0
        decreases |pending| + |channel|
      {
        ghost var rest := pending + channel;
        event := PopQueue();
        assert rest == [event] + (pending + channel);
        if event.summary.Some? || bytes + event.length > MAX_BATCH_EVENT_BYTES {
          pending := [event] + pending;
          assert pending + channel == rest;
          break;
        }
        CarriedAppend(batch, [event], IngressFull);
        CarriedOne(event, IngressFull);
        LengthAppend(batch, event);
        assert batch + [event] + (pending + channel) == batch + rest;
        batch, bytes := batch + [event], bytes + event.length;
      }
    }

    method PopQueue() returns (event: Prepared)
      requires pending + channel != []
      modifies this`pending, this`channel
      ensures [event] + (pending + channel) == old(pending + channel)
      ensures |pending| + |channel| == old(|pending| + |channel|) - 1
    {
      if pending != [] {
        event, pending := pending[0], pending[1..];
      } else {
        event, channel := channel[0], channel[1..];
      }
    }

    /** Idle with progress made: turn the counters into one summary and request its recording. */
    method RequestSummary(calm: bool) returns (outcome: Outcome)
      requires Inv(Now()) && request.None? && indeterminate.None? && pending + channel == [] && phase.Running?
      modifies this`drops, this`inflight, this`request, this`phase, this`twice
      ensures Inv(Now()) && (outcome.Idle? || outcome.DropSummaryRequested? || outcome.Failed?)
      ensures outcome.Idle? <==> !progress || old(inflight) || old(drops) == ZERO
      ensures outcome.Idle? ==> Now() == old(Now())
      ensures outcome.DropSummaryRequested? ==>
        Now() == old(Now()).(drops := ZERO, inflight := true, request := Some(Request(old(drops), false)))
      ensures outcome.Failed? ==> !calm && Now() == old(Now()).(drops := ZERO.Restore(old(drops)))
    {
      if !progress || inflight || drops == ZERO {
        return Idle;
      }
      ghost var s := Now();
      drops, inflight, request := ZERO, true, Some(Request(drops, false));
      Requested(s, Now());
      var failed := Disturbed(calm);
      if !failed {
        return DropSummaryRequested;
      }
      AbandonRequest();
      return Failed;
    }

    /** `try_process_next_at`. */
    method TryProcessNext(calm: bool) returns (outcome: Outcome)
      requires Inv(Now()) && request.None? && phase.Running?
      modifies this
      ensures Inv(Now()) && Processed(old(Now()), Now(), calm, outcome)
    {
      hide Inv, Processed, Settled, Taken, WrittenBatch, FailedBatch, TotalLength, Drops, Persisted, Bounded;
      ghost var s := Now();
      SettledFacts(s);
      if indeterminate.Some? {
        var settled := Settle(calm);
        if !settled {
          ProcessedStuck(s, calm);
          return Failed;
        }
      }
      ghost var u := Now();
      if pending + channel == [] {
        outcome := RequestSummary(calm);
        ProcessedIdle(s, Now(), calm, outcome);
        return;
      }
      var batch := TakeBatch();
      TakenFacts(u, batch, pending + channel);
      outcome := WriteBatch(batch, u, calm);
      ProcessedBatch(s, Now(), pending, channel, batch, calm, outcome);
    }

    /**
     Flush a batch just taken off the queues. When that fails any prefix of it may be on disk. Retention may fail
     after the batch was written.
     */
    method WriteBatch(batch: seq<Prepared>, ghost s: State, calm: bool) returns (outcome: Outcome)
      requires Inv(s) && Taken(s, batch, pending + channel) && Now() == s.(pending := pending, channel := channel)
      modifies this`log, this`inflight, this`progress, this`drops, this`observed, this`indeterminate
      ensures Inv(Now())
      ensures outcome == Written(|batch|) || (!calm && (outcome == Failed || outcome == RetentionFailed(|batch|)))
      ensures !outcome.Failed? ==>
        Now() == WrittenBatch(s, pending, channel, batch).(progress := outcome.Written? || s.progress)
      ensures outcome.Failed? ==> exists k: nat :: k <= |batch| && Now() == FailedBatch(s, pending, channel, batch, k)
    {
      hide Inv, Drops;
      var failed := Disturbed(calm);
      if failed {
        var k: nat :| k <= |batch|;
        FailBatch(batch, k, s);
        return Failed;
      }
      BatchWritten(s, pending, channel, batch);
      log, inflight := log + batch, inflight && batch[0].summary.None?;
      var unretained := Disturbed(calm);
      if unretained {
        return RetentionFailed(|batch|);
      }
      ProgressKeeps(Now());
      progress := true;
      return Written(|batch|);
    }

    /** The append fails with the first `k` events of the batch on disk. */
    method FailBatch(batch: seq<Prepared>, k: nat, ghost s: State)
      requires k <= |batch| && Inv(s) && Taken(s, batch, pending + channel)
      requires Now() == s.(pending := pending, channel := channel)
      modifies this`log, this`drops, this`observed, this`indeterminate
      ensures Inv(Now()) && Now() == FailedBatch(s, pending, channel, batch, k)
    {
      hide Inv, Drops, Counts.Observe, Reported;
      BatchFailed(s, pending, channel, batch, k);
      log := log + batch[..k];
      if batch[0].summary.Some? {
        indeterminate := Some(batch[0]);
      }
      drops, observed := drops.Observe(WriterUnavailable, |batch|), Reported(observed, WriterUnavailable, |batch|);
    }
  }

  lemma SettledFacts(s: State)
    requires Inv(s)
    ensures s.indeterminate.None? ==> Settled(s) == s
    ensures Settled(s).indeterminate.None? && Bounded(s.pending) && Bounded(s.channel)
  {
    hide Conserved, Sequenced, InPhase, Persisted;
  }

  lemma TakenFacts(s: State, batch: seq<Prepared>, rest: seq<Prepared>)
    requires s.request.None? && s.indeterminate.None? && s.phase.Running?
    requires batch != [] && batch + rest == s.pending + s.channel
    requires if batch[0].summary.Some? then |batch| == 1 else Drops(batch) == 0
    ensures Taken(s, batch, rest)
  {
    hide Drops;
  }

  lemma NothingLost(s: State, t: State)
    requires t.log == s.log && Queue(t) == Queue(s) && t.observed == s.observed
    ensures Lost(s, t, 0, 0)
  {
    ReportedNothing(s.observed, WriterUnavailable);
    assert s.log + Queue(s)[..0] == s.log;
  }

  lemma ProcessedStuck(s: State, calm: bool)
    requires !calm && s.request.None?
    ensures Processed(s, s, calm, Failed)
  {
    hide Settled;
    NothingLost(s, s);
  }

  lemma ProcessedIdle(s: State, t: State, calm: bool, outcome: Outcome)
    requires Queue(s) == [] && s.request.None? && Settled(s).indeterminate.None?
    requires var u := Settled(s);
             && (outcome.Idle? || outcome.DropSummaryRequested? || outcome.Failed?)
             && (outcome.Idle? <==> !u.progress || u.inflight || u.drops == ZERO)
             && (outcome.Idle? ==> t == u)
             && (outcome.DropSummaryRequested? ==>
                   t == u.(drops := ZERO, inflight := true, request := Some(Request(u.drops, false))))
             && (outcome.Failed? ==> !calm && t == u.(drops := ZERO.Restore(u.drops)))
    ensures Processed(s, t, calm, outcome)
  {
    hide Counts.Restore, Persisted, Lost;
    if outcome.Failed? {
      NothingLost(s, t);
    }
  }

  lemma ProcessedBatch(s: State, t: State, pending: seq<Prepared>, channel: seq<Prepared>, batch: seq<Prepared>,
                       calm: bool, outcome: Outcome)
    requires Taken(Settled(s), batch, pending + channel)
    requires outcome == Written(|batch|) || (!calm && (outcome == Failed || outcome == RetentionFailed(|batch|)))
    requires !outcome.Failed? ==>
               t == WrittenBatch(Settled(s), pending, channel, batch).(progress := outcome.Written? || s.progress)
    requires outcome.Failed? ==>
               exists k: nat :: k <= |batch| && t == FailedBatch(Settled(s), pending, channel, batch, k)
    ensures Processed(s, t, calm, outcome)
  {
    hide Drops, Settled, Lost;
    SettledQueue(s);
    FrontOfQueue(batch, pending + channel, Queue(s));
    if outcome.Failed? {
      var k: nat :| k <= |batch| && t == FailedBatch(Settled(s), pending, channel, batch, k);
      BatchLost(Settled(s), t, pending, channel, batch, k);
      assert Lost(s, t, k, |batch|) by { SameLost(s, Settled(s), t, k, |batch|); }
    }
  }

  /** Settling moves no event and reports nothing. */
  lemma SettledQueue(s: State)
    ensures var u := Settled(s);
            u == s.(drops := u.drops, inflight := u.inflight, indeterminate := u.indeterminate) && Queue(u) == Queue(s)
  {
    hide Counts.Restore, Persisted;
  }

  lemma SameLost(s: State, u: State, t: State, k: nat, n: nat)
    requires Lost(u, t, k, n) && u.log == s.log && Queue(u) == Queue(s) && u.observed == s.observed
    ensures Lost(s, t, k, n)
  {
  }

  lemma BatchLost(s: State, t: State, pending: seq<Prepared>, channel: seq<Prepared>, batch: seq<Prepared>, k: nat)
    requires Taken(s, batch, pending + channel) && k <= |batch| && t == FailedBatch(s, pending, channel, batch, k)
    ensures Lost(s, t, k, |batch|)
  {
    hide Drops, Counts.Observe, Reported;
    FrontOfQueue(batch, pending + channel, Queue(s));
    assert batch[..k] == Queue(s)[..k];
  }

  /** A batch taken off the queues of a state: one drop event alone, or ordinary events. */
  ghost predicate Taken(s: State, batch: seq<Prepared>, rest: seq<Prepared>) {
    && s.request.None? && s.indeterminate.None? && s.phase.Running?
    && batch != [] && batch + rest == s.pending + s.channel
    && if batch[0].summary.Some? then |batch| == 1 else Drops(batch) == 0
  }

  function WrittenBatch(s: State, pending: seq<Prepared>, channel: seq<Prepared>, batch: seq<Prepared>): State
    requires batch != []
  {
    s.(log := s.log + batch, pending := pending, channel := channel, inflight := s.inflight && batch[0].summary.None?)
  }

  /** A failed append: its events count as dropped, and the outcome of a drop event is unknown. */
  function FailedBatch(s: State, pending: seq<Prepared>, channel: seq<Prepared>, batch: seq<Prepared>, k: nat): State
    requires batch != [] && k <= |batch|
  {
    Observe(s.(log := s.log + batch[..k], pending := pending, channel := channel,
               indeterminate := if batch[0].summary.Some? then Some(batch[0]) else s.indeterminate),
            WriterUnavailable, |batch|)
  }

  function TotalLength(events: seq<Prepared>): nat {
    if events == [] then 0 else events[0].length + TotalLength(events[1..])
  }

  lemma LengthOne(e: Prepared)
    ensures TotalLength([e]) == e.length
  {
    assert [e][1..] == [];
  }

  lemma {:induction false} LengthAppend(events: seq<Prepared>, e: Prepared)
    ensures TotalLength(events + [e]) == TotalLength(events) + e.length
  {
    if events == [] {
      assert events + [e] == [e];
      LengthOne(e);
    } else {
      assert (events + [e])[1..] == events[1..] + [e];
      LengthAppend(events[1..], e);
    }
  }

  lemma QuietFlow(s: State)
    requires s.indeterminate.None?
    ensures Flow(s) == s.log + (s.pending + s.channel)
  {
  }

  lemma Requested(s: State, t: State)
    requires Inv(s) && !s.inflight && s.request.None? && s.indeterminate.None? && s.phase.Running?
    requires t == s.(drops := ZERO, inflight := true, request := Some(Request(s.drops, false)))
    ensures Inv(t)
  {
    hide Counts.Get, Carried, Drops, Increasing;
    assert Flow(t) == Flow(s);
    forall c: Cause | t.observed.Get(c) + Slack(t, c) <= U64_MAX
      ensures Held(t, c) + t.lost.Get(c) == t.observed.Get(c) + t.twice.Get(c)
    {
      GetZero(c);
      assert Held(s, c) + s.lost.Get(c) == s.observed.Get(c) + s.twice.Get(c);
    }
  }

  lemma QueueDrops(s: State, t: State, batch: seq<Prepared>)
    requires batch + (t.pending + t.channel) == s.pending + s.channel && Bounded(s.pending) && Bounded(s.channel)
    ensures Drops(batch) + Drops(t.pending) + Drops(t.channel) == Drops(s.pending) + Drops(s.channel)
    ensures Bounded(t.pending) && Bounded(t.channel)
  {
    hide Drops, Carried;
    CarriedAppend(batch, t.pending + t.channel, IngressFull);
    CarriedAppend(t.pending, t.channel, IngressFull);
    CarriedAppend(s.pending, s.channel, IngressFull);
    forall e | e in t.pending || e in t.channel
      ensures e.length <= MAX_PREPARED_EVENT_BYTES
    {
      assert e in batch + (t.pending + t.channel);
      assert e in s.pending + s.channel;
    }
  }

  lemma BatchWritten(s: State, pending: seq<Prepared>, channel: seq<Prepared>, batch: seq<Prepared>)
    requires Inv(s) && Taken(s, batch, pending + channel)
    ensures Inv(WrittenBatch(s, pending, channel, batch))
  {
    hide Carried, Drops, Flow, Increasing, Conserved;
    var t := WrittenBatch(s, pending, channel, batch);
    QuietFlow(s);
    QuietFlow(t);
    Regroup(s.log, batch, t.pending + t.channel);
    QueueDrops(s, t, batch);
    if |batch| == 1 {
      CarriedOne(batch[0], IngressFull);
      assert batch == [batch[0]];
    }
    MoveKeeps(s, t);
  }

  lemma BatchFailed(s: State, pending: seq<Prepared>, channel: seq<Prepared>, batch: seq<Prepared>, k: nat)
    requires Inv(s) && Taken(s, batch, pending + channel) && k <= |batch|
    ensures Inv(FailedBatch(s, pending, channel, batch, k))
  {
    hide Inv, Drops;
    var first := batch[0];
    var t := s.(log := s.log + batch[..k], pending := pending, channel := channel,
                indeterminate := if first.summary.Some? then Some(first) else s.indeterminate);
    if first.summary.Some? {
      assert batch == [first];
      DropFailed(s, t, first, k);
    } else {
      EventsFailed(s, t, batch, k);
    }
    ObserveKeeps(t, WriterUnavailable, |batch|);
  }

  lemma EventsFailed(s: State, t: State, batch: seq<Prepared>, k: nat)
    requires Inv(s) && s.indeterminate.None? && s.phase.Running? && s.request.None?
    requires batch + (t.pending + t.channel) == s.pending + s.channel && Drops(batch) == 0 && k <= |batch|
    requires t == s.(log := s.log + batch[..k], pending := t.pending, channel := t.channel)
    ensures Inv(t)
  {
    hide Carried, Drops, Flow, Conserved, Increasing;
    var kept, lost, rest := s.log + batch[..k], batch[k..], t.pending + t.channel;
    TakeDrop(batch, k);
    QuietFlow(s);
    QuietFlow(t);
    Regroup(s.log, batch, rest);
    Regroup(s.log, batch[..k], lost);
    SequencedGap(s, t, kept, lost, rest);
    QueueDrops(s, t, batch);
    CarriedAppend(batch[..k], lost, IngressFull);
    forall c: Cause
      ensures Carried(Flow(t), c) == Carried(Flow(s), c)
    {
      CarriedGap(kept, lost, rest, c);
    }
    MoveKeeps(s, t);
  }

  lemma CarriedGap(a: seq<Prepared>, b: seq<Prepared>, d: seq<Prepared>, c: Cause)
    requires Drops(b) == 0
    ensures Carried(a + b + d, c) == Carried(a + d, c)
  {
    hide Carried;
    NoDropsCarryNothing(b, c);
    CarriedAppend(a + b, d, c);
    CarriedAppend(a, b, c);
    CarriedAppend(a, d, c);
  }

  lemma DropFailed(s: State, t: State, event: Prepared, k: nat)
    requires Inv(s) && s.indeterminate.None? && event.summary.Some? && s.phase.Running? && s.request.None?
    requires [event] + (t.pending + t.channel) == s.pending + s.channel && k <= 1
    requires t == s.(log := s.log + [event][..k], pending := t.pending, channel := t.channel,
                     indeterminate := Some(event))
    ensures Inv(t)
  {
    hide Carried, Drops;
    QuietFlow(s);
    if k == 0 {
      assert t.log == s.log;
      assert Flow(s)[|s.log|] == event;
      assert s.log != [] ==> Flow(s)[|s.log| - 1] == s.log[|s.log| - 1];
      assert !Persisted(t);
    } else {
      assert t.log == s.log + [event] + [];
    }
    assert Flow(t) == s.log + [event] + t.pending + t.channel;
    Regroup(s.log + [event], t.pending, t.channel);
    Regroup(s.log, [event], t.pending + t.channel);
    QueueDrops(s, t, [event]);
    CarriedOne(event, IngressFull);
    MoveKeeps(s, t);
  }

  lemma AbandonedKeeps(s: State)
    requires Inv(s) && s.request.Some?
    ensures Inv(Abandoned(s))
    ensures s.request.value.forwarded ==>
              forall c: Cause :: s.observed.Get(c) + s.request.value.summary.Get(c) <= U64_MAX ==>
                Held(Abandoned(s), c) == s.observed.Get(c) + s.request.value.summary.Get(c)
  {
    hide Counts.Restore, Counts.Get, Carried, Drops, Increasing;
    if s.request.value.forwarded {
      CountedTwice(s, Abandoned(s), s.request.value.summary);
    } else {
      assert Flow(Abandoned(s)) == Flow(s);
      RestoreKeeps(s, Abandoned(s), s.request.value.summary);
    }
  }

  /** A forwarded summary that is also restored is counted exactly twice. */
  lemma CountedTwice(s: State, t: State, summary: Counts)
    requires Inv(s) && s.request == Some(Request(summary, true)) && t == Abandoned(s)
    ensures Inv(t)
    ensures forall c: Cause :: t.observed.Get(c) + summary.Get(c) <= U64_MAX ==>
              Held(t, c) == t.observed.Get(c) + summary.Get(c)
  {
    hide Counts.Restore, Counts.Get, Carried, Drops, Increasing;
    assert Flow(t) == Flow(s);
    assert forall c: Cause :: CarriedUnderway(t, c) == CarriedUnderway(s, c);
    forall c: Cause | t.observed.Get(c) + Slack(t, c) <= U64_MAX
      ensures Held(t, c) == t.observed.Get(c) + summary.Get(c) && t.lost.Get(c) == 0
    {
      GetRestore(s.drops, summary, c);
      GetZero(c);
      assert Held(s, c) + s.lost.Get(c) == s.observed.Get(c) + s.twice.Get(c);
      if Underway(s) > 0 {
        assert CarriedUnderway(s, c) == summary.Get(c);
        QueuesCarry(s, c);
      }
    }
  }

  lemma Forwarded(s: State, t: State, event: Prepared)
    requires Inv(s) && s.request.Some? && !s.request.value.forwarded && event.summary == Some(s.request.value.summary)
    requires event.length <= MAX_PREPARED_EVENT_BYTES
    requires t == s.(recorder := s.recorder + [event], request := Some(s.request.value.(forwarded := true)))
    ensures Flow(t) == Flow(s) && Sequenced(t) && Bounded(t.recorder) && InPhase(t)
    ensures forall c: Cause ::
              RequestShare(t, c) + Carried(t.recorder, c) == RequestShare(s, c) + Carried(s.recorder, c)
  {
    hide Counts.Get, Carried, Drops, Increasing;
    RecorderGrows(s, t, event);
    assert Underway(s) == 0;
    forall c: Cause
      ensures CarriedUnderway(t, c) == event.summary.value.Get(c)
    {
      NoDropsCarryNothing(s.recorder, c);
      NoDropsCarryNothing(s.pending, c);
      NoDropsCarryNothing(s.channel, c);
    }
  }

  lemma OwnerDropped(s: State)
    requires Inv(s) && s.request.None? && !s.phase.Ended?
    ensures Inv(OwnerGone(s))
    ensures s.phase.Running? ==>
              forall c: Cause :: s.observed.Get(c) <= U64_MAX ==>
                Held(OwnerGone(s), c) + Carried(InMemory(s), c) == s.observed.Get(c)
  {
    hide Counts.Get, Carried, Drops, Increasing, SummaryOf;
    var t := OwnerGone(s);
    assert Flow(s) == s.log + InMemory(s) && Flow(t) == s.log;
    assert Sequenced(t) by {
      assert s.log + InMemory(s) == s.log + InMemory(s) + [] && s.log + [] == s.log;
      SequencedGap(s, t, s.log, InMemory(s), []);
    }
    forall c: Cause | t.observed.Get(c) + Slack(t, c) <= U64_MAX
      ensures Held(t, c) + t.lost.Get(c) == t.observed.Get(c) + t.twice.Get(c)
    {
      GetZero(c);
      assert Held(s, c) + s.lost.Get(c) == s.observed.Get(c) + s.twice.Get(c);
      CarriedAppend(s.log, InMemory(s), c);
      if s.phase.Running? {
        GetSummary(InMemory(s), c);
      } else {
        LostWithQueues(s, c);
      }
    }
    forall c: Cause | s.phase.Running? && s.observed.Get(c) <= U64_MAX
      ensures Held(t, c) + Carried(InMemory(s), c) == s.observed.Get(c)
    {
      GetZero(c);
      GetSummary(InMemory(s), c);
      assert Held(t, c) + t.lost.Get(c) == t.observed.Get(c) + t.twice.Get(c);
    }
  }

  lemma GetSummary(events: seq<Prepared>, c: Cause)
    ensures SummaryOf(events).Get(c) == Carried(events, c)
  {
    hide Carried;
  }

  /** Dropping a running owner loses something exactly when a drop event it holds in memory carries a count. */
  lemma {:induction false} LosesExactly(events: seq<Prepared>)
    ensures SummaryOf(events) != ZERO <==> CarriesSomething(events)
  {
    if events != [] {
      var first, rest := events[0], events[1..];
      LosesExactly(rest);
      assert events == [first] + rest;
      assert SummaryOf(events) == ZERO <==>
             SummaryOf(rest) == ZERO && (first.summary.Some? ==> first.summary.value == ZERO);
    }
  }

  ghost predicate CarriesSomething(events: seq<Prepared>) {
    exists e :: e in events && e.summary.Some? && e.summary.value != ZERO
  }

  lemma QueuesCarry(s: State, c: Cause)
    requires s.indeterminate.None?
    ensures Carried(Flow(s), c) == Carried(s.log, c) + Carried(s.pending, c) + Carried(s.channel, c)
  {
    hide Carried, Drops;
    assert Flow(s) == s.log + s.pending + s.channel;
    CarriedAppend(s.log + s.pending, s.channel, c);
    CarriedAppend(s.log, s.pending, c);
  }

  /** What the queues of a failing owner carry: all that is counted twice, or nothing. */
  lemma LostWithQueues(s: State, c: Cause)
    requires InPhase(s) && s.phase.Failing?
    ensures Carried(Flow(s), c) == Carried(s.log, c) + Carried(s.pending, c) + Carried(s.channel, c)
    ensures Carried(s.pending, c) + Carried(s.channel, c)
            == if Drops(s.pending) + Drops(s.channel) > 0 then s.twice.Get(c) else 0
  {
    hide Counts.Get, Carried, Drops;
    QueuesCarry(s, c);
    if Drops(s.pending) + Drops(s.channel) > 0 {
      NoDropsCarryNothing(s.recorder, c);
      assert CarriedUnderway(s, c) == s.twice.Get(c);
    } else {
      NoDropsCarryNothing(s.pending, c);
      NoDropsCarryNothing(s.channel, c);
    }
  }

  lemma FrontOfQueue(batch: seq<Prepared>, rest: seq<Prepared>, queue: seq<Prepared>)
    requires batch + rest == queue
    ensures |batch| <= |queue| && batch == queue[..|batch|] && rest == queue[|batch|..]
  {
  }

  lemma ReportedNothing(counts: Counts, cause: Cause)
    ensures Reported(counts, cause, 0) == counts
  {
  }

  lemma CarriedFirst(events: seq<Prepared>, c: Cause)
    requires events != []
    ensures Carried(events, c) == Share(events[0].summary, c) + Carried(events[1..], c)
    ensures Drops(events) == (if events[0].summary.Some? then 1 else 0) + Drops(events[1..])
  {
  }

  lemma UnsummarizedKeeps(s: State, t: State)
    requires Inv(s) && s.recorder != [] && s.recorder[0].summary.None?
    requires t == s.(recorder := s.recorder[1..], next := s.next + 1)
    ensures Inv(t)
  {
    hide Carried, Drops, Increasing, Conserved, Held;
    RecorderShrinks(s, t);
    PhaseKept(s, t);
    MoveKeeps(s, t);
  }

  lemma QueuedKeeps(s: State, t: State)
    requires Inv(s) && s.recorder != [] && s.open
    requires t == s.(recorder := s.recorder[1..], next := s.next + 1,
                     channel := s.channel + [s.recorder[0].(sequence := s.next)])
    ensures Inv(t)
  {
    hide Carried, Drops, Increasing, Conserved, Held;
    ChannelGrows(s, t);
    PhaseKept(s, t);
    MoveKeeps(s, t);
  }

  lemma RefusedKeeps(s: State, t: State)
    requires Inv(s) && s.recorder != [] && s.recorder[0].summary.Some?
    requires t == s.(recorder := s.recorder[1..], next := s.next + 1,
                     drops := s.drops.Restore(s.recorder[0].summary.value), inflight := false)
    ensures Inv(t)
  {
    hide Carried, Drops, Increasing, Conserved, Held;
    RecorderShrinks(s, t);
    RestoreKeeps(s, t, s.recorder[0].summary.value);
  }

  lemma FinalizedKeeps(s: State, verdict: Verdict)
    requires Inv(s) && s.recorder != []
    ensures Inv(Finalized(s, verdict))
  {
    hide Inv, Counts.Restore;
    var event := s.recorder[0].(sequence := s.next);
    var t := s.(recorder := s.recorder[1..], next := s.next + 1);
    if event.summary.None? && !verdict.Persist? {
      UnsummarizedKeeps(s, t);
      ObserveKeeps(t, InvalidEvent, 1);
    } else if s.open && |s.channel| < DURABLE_QUEUE_CAPACITY {
      QueuedKeeps(s, t.(channel := s.channel + [event]));
    } else {
      var u := if event.summary.None? then t else Restored(t, event.summary.value);
      if event.summary.None? {
        UnsummarizedKeeps(s, t);
      } else {
        RefusedKeeps(s, u);
      }
      ObserveKeeps(u, if s.open then IngressFull else IngressClosed, 1);
    }
  }

  lemma RecorderShrinks(s: State, t: State)
    requires s.recorder != [] && Sequenced(s) && Bounded(s.recorder)
    requires t.recorder == s.recorder[1..] && t.next == s.next + 1
    requires t.log == s.log && t.indeterminate == s.indeterminate && t.pending == s.pending && t.channel == s.channel
    ensures Flow(t) == Flow(s) && Sequenced(t) && Bounded(t.recorder)
    ensures Drops(s.recorder) == Drops(t.recorder) + (if s.recorder[0].summary.Some? then 1 else 0)
    ensures forall c: Cause :: Carried(s.recorder, c) == Carried(t.recorder, c) + Share(s.recorder[0].summary, c)
  {
    hide Carried, Drops, Share;
    assert Flow(t) == Flow(s);
    forall c: Cause
      ensures Carried(s.recorder, c) == Carried(t.recorder, c) + Share(s.recorder[0].summary, c)
    {
      CarriedFirst(s.recorder, c);
    }
    CarriedFirst(s.recorder, IngressFull);
  }

  lemma ChannelGrows(s: State, t: State)
    requires s.recorder != [] && Sequenced(s) && Bounded(s.recorder) && Bounded(s.channel)
    requires t.recorder == s.recorder[1..] && t.next == s.next + 1
    requires t.channel == s.channel + [s.recorder[0].(sequence := s.next)]
    requires t.log == s.log && t.indeterminate == s.indeterminate && t.pending == s.pending
    ensures Sequenced(t) && Bounded(t.recorder) && Bounded(t.channel)
    ensures Drops(s.recorder) + Drops(s.channel) == Drops(t.recorder) + Drops(t.channel)
    ensures forall c: Cause ::
              Carried(s.recorder, c) + Carried(Flow(s), c) == Carried(t.recorder, c) + Carried(Flow(t), c)
    ensures forall c: Cause ::
              Carried(s.recorder, c) + Carried(s.channel, c) == Carried(t.recorder, c) + Carried(t.channel, c)
  {
    hide Carried, Drops, Share;
    var event := s.recorder[0].(sequence := s.next);
    assert Flow(t) == Flow(s) + [event];
    assert s.recorder[0] in s.recorder;
    SequencedPush(s, t, event);
    forall c: Cause
      ensures Carried(s.recorder, c) + Carried(Flow(s), c) == Carried(t.recorder, c) + Carried(Flow(t), c)
      ensures Carried(s.recorder, c) + Carried(s.channel, c) == Carried(t.recorder, c) + Carried(t.channel, c)
    {
      CarriedFirst(s.recorder, c);
      CarriedAppend(Flow(s), [event], c);
      CarriedAppend(s.channel, [event], c);
      CarriedOne(event, c);
    }
    CarriedFirst(s.recorder, IngressFull);
    CarriedAppend(s.channel, [event], IngressFull);
    CarriedOne(event, IngressFull);
  }

  lemma SameQueue(s: State, t: State)
    requires s.channel != [] && Bounded(s.channel) && Bounded(s.pending) && Sequenced(s)
    requires t.pending == s.pending + [s.channel[0]] && t.channel == s.channel[1..]
    requires t.log == s.log && t.indeterminate == s.indeterminate && t.next == s.next
    ensures Flow(t) == Flow(s) && Sequenced(t) && Bounded(t.channel) && Bounded(t.pending)
    ensures Drops(t.pending) + Drops(t.channel) == Drops(s.pending) + Drops(s.channel)
    ensures forall c: Cause ::
              Carried(t.pending, c) + Carried(t.channel, c) == Carried(s.pending, c) + Carried(s.channel, c)
  {
    hide Carried, Drops;
    assert s.channel == [s.channel[0]] + s.channel[1..];
    assert Flow(t) == Flow(s);
    assert s.channel[0] in s.channel;
    forall c: Cause
      ensures Carried(t.pending, c) + Carried(t.channel, c) == Carried(s.pending, c) + Carried(s.channel, c)
      ensures Drops(t.pending) + Drops(t.channel) == Drops(s.pending) + Drops(s.channel)
    {
      CarriedAppend(s.pending, [s.channel[0]], c);
      CarriedOne(s.channel[0], c);
      CarriedFirst(s.channel, c);
    }
    assert Drops(t.pending) + Drops(t.channel) == Drops(s.pending) + Drops(s.channel) by {
      CarriedAppend(s.pending, [s.channel[0]], IngressFull);
      CarriedOne(s.channel[0], IngressFull);
      CarriedFirst(s.channel, IngressFull);
    }
  }

  /** The event of unknown outcome is the last one on disk, or above everything on disk. */
  lemma LastOfLog(s: State)
    requires Sequenced(s) && s.indeterminate.Some?
    ensures !Persisted(s) ==> s.indeterminate.value.sequence > 0
    ensures !Persisted(s) && s.log != [] ==> s.log[|s.log| - 1].sequence < s.indeterminate.value.sequence
  {
    if !Persisted(s) {
      var event := s.indeterminate.value;
      assert Flow(s)[|s.log|] == event;
      assert event in Flow(s);
      assert s.log != [] ==> Flow(s)[|s.log| - 1] == s.log[|s.log| - 1];
    }
  }

  lemma SettledOnDisk(s: State, t: State)
    requires Inv(s) && Persisted(s)
    requires t == s.(inflight := false, indeterminate := None)
    ensures Flow(t) == Flow(s) && Sequenced(t) && Tokens(t) == 0
  {
  }

  lemma SettledLost(s: State, t: State)
    requires Inv(s) && s.indeterminate.Some? && !Persisted(s)
    requires t == s.(inflight := false, indeterminate := None, drops := t.drops)
    ensures Sequenced(t) && Tokens(t) == 0
    ensures forall c: Cause :: Carried(Flow(s), c) == Carried(Flow(t), c) + Share(s.indeterminate.value.summary, c)
  {
    hide Carried, Drops, Share;
    var event, rest := s.indeterminate.value, s.pending + s.channel;
    assert Flow(s) == s.log + [event] + rest;
    assert Flow(t) == s.log + rest;
    SequencedGap(s, t, s.log, [event], rest);
    forall c: Cause
      ensures Carried(Flow(s), c) == Carried(Flow(t), c) + Share(event.summary, c)
    {
      CarriedAppend(s.log + [event], rest, c);
      CarriedAppend(s.log, [event], c);
      CarriedOne(event, c);
      CarriedAppend(s.log, rest, c);
    }
  }

  lemma RecorderGrows(s: State, t: State, e: Prepared)
    requires t.recorder == s.recorder + [e] && t.log == s.log && t.indeterminate == s.indeterminate
    requires t.pending == s.pending && t.channel == s.channel && t.next == s.next
    requires Bounded(s.recorder) && e.length <= MAX_PREPARED_EVENT_BYTES && Sequenced(s)
    ensures Flow(t) == Flow(s) && Sequenced(t) && Bounded(t.recorder)
    ensures Drops(t.recorder) == Drops(s.recorder) + (if e.summary.Some? then 1 else 0)
    ensures forall c: Cause :: Carried(t.recorder, c) == Carried(s.recorder, c) + Share(e.summary, c)
  {
    hide Carried, Drops, Share;
    assert Flow(t) == Flow(s);
    forall c: Cause
      ensures Carried(t.recorder, c) == Carried(s.recorder, c) + Share(e.summary, c)
      ensures Drops(t.recorder) == Drops(s.recorder) + (if e.summary.Some? then 1 else 0)
    {
      CarriedAppend(s.recorder, [e], c);
      CarriedOne(e, c);
    }
    CarriedAppend(s.recorder, [e], IngressFull);
    CarriedOne(e, IngressFull);
  }

  // Whole runs.

  datatype Step =
    | ReportDrop(cause: Cause, n: nat)
    | RecordEvent(id: nat, length: nat)
    | ForwardRequest(id: nat, length: nat, accepted: bool)
    | AcknowledgeRequest
    | FailBarrier
    | DropOwner
    | FinalizeEvent(verdict: Verdict)
    | CollectEvent
    | ProcessNext(calm: bool)
    | CloseQueue

  /** What a step does; one that is not enabled does nothing. `outcome` is that of the owner's work. */
  ghost predicate Next(s: State, t: State, step: Step, outcome: Option<Outcome>) {
    match step
    case ReportDrop(cause, n) => t == Observe(s, cause, n)
    case RecordEvent(id, length) => t == s.(recorder := s.recorder + [Prepared(0, id, length, None)])
    case ForwardRequest(id, length, accepted) =>
      if s.request.None? || s.request.value.forwarded then t == s
      else
        var summary := s.request.value.summary;
        if accepted then t == s.(recorder := s.recorder + [Prepared(0, id, length, Some(summary))],
                                 request := Some(Request(summary, true)))
        else t == Restored(s, summary).(request := None)
    case AcknowledgeRequest => t == if s.request.Some? && s.request.value.forwarded then s.(request := None) else s
    case FailBarrier => t == if s.request.Some? && s.request.value.forwarded then Abandoned(s) else s
    case DropOwner => t == if s.request.None? && !s.phase.Ended? then OwnerGone(s) else s
    case FinalizeEvent(verdict) => t == if s.recorder != [] then Finalized(s, verdict) else s
    case CollectEvent =>
      t == if s.channel == [] || s.request.Some? || !s.phase.Running? then s
           else s.(pending := s.pending + [s.channel[0]], channel := s.channel[1..])
    case ProcessNext(calm) =>
      if s.request.Some? || !s.phase.Running? then t == s && outcome.None?
      else outcome.Some? && Processed(s, t, calm, outcome.value)
    case CloseQueue => t == s.(open := false)
  }

  // What a step counts, accepts and discards, by the places it finds events in.

  /** The event at hand is to be persisted: a drop event always is. */
  predicate Wanted(s: State, verdict: Verdict)
    requires s.recorder != []
  {
    s.recorder[0].summary.Some? || verdict.Persist?
  }

  predicate HasRoom(s: State) {
    s.open && |s.channel| < DURABLE_QUEUE_CAPACITY
  }

  /** The events that a failed piece of work took off the queue. */
  function TakenOff(s: State, t: State): nat {
    if |Queue(t)| <= |Queue(s)| then |Queue(s)| - |Queue(t)| else 0
  }

  /**
   The drops of a cause that one step counts: those it reports; an invalid event; an event that finds the queue full,
   or closed; and every event of a batch whose append failed.
   */
  function CountedBy(s: State, t: State, step: Step, outcome: Option<Outcome>, c: Cause): nat {
    match step
    case ReportDrop(cause, n) => if cause == c then n else 0
    case FinalizeEvent(verdict) =>
      if s.recorder == [] then 0
      else if s.recorder[0].summary.None? && verdict.Invalid? then (if c.InvalidEvent? then 1 else 0)
      else if Wanted(s, verdict) && s.open && |s.channel| >= DURABLE_QUEUE_CAPACITY then
        (if c.IngressFull? then 1 else 0)
      else if Wanted(s, verdict) && !s.open then (if c.IngressClosed? then 1 else 0)
      else 0
    case ProcessNext(_) => if outcome == Some(Failed) && c.WriterUnavailable? then TakenOff(s, t) else 0
    case _ => 0
  }

  /** The events that one step hands to the recorder: an ordinary one, or the drop event of the open request. */
  function AcceptedBy(s: State, step: Step): seq<Prepared> {
    match step
    case RecordEvent(id, length) => [Prepared(0, id, length, None)]
    case ForwardRequest(id, length, accepted) =>
      if accepted && s.request.Some? && !s.request.value.forwarded then
        [Prepared(0, id, length, Some(s.request.value.summary))]
      else []
    case _ => []
  }

  /**
   The events that one step takes from the places without bringing them to disk: one that is not wanted or finds no
   room; the part of a failed batch that is not on disk; and the queues of an owner that goes.
   */
  function DiscardedBy(s: State, t: State, step: Step, outcome: Option<Outcome>): seq<Prepared> {
    match step
    case FinalizeEvent(verdict) =>
      if s.recorder != [] && !(Wanted(s, verdict) && HasRoom(s)) then [s.recorder[0]] else []
    case ProcessNext(_) =>
      if outcome == Some(Failed) && |s.log| <= |t.log| <= |s.log| + TakenOff(s, t) then
        Queue(s)[|t.log| - |s.log|..TakenOff(s, t)]
      else []
    case DropOwner => if s.request.None? && !s.phase.Ended? then s.pending + s.channel else []
    case _ => []
  }

  /** The events as they were accepted, before they had a sequence. */
  function Plain(events: seq<Prepared>): multiset<Prepared> {
    if events == [] then multiset{} else multiset{events[0].(sequence := 0)} + Plain(events[1..])
  }

  /** All events that wait or are on disk. */
  function Places(s: State): multiset<Prepared> {
    Plain(s.recorder) + Plain(s.pending) + Plain(s.channel) + Plain(s.log)
  }

  ghost predicate Run(trace: seq<State>, schedule: seq<Step>, outcomes: seq<Option<Outcome>>) {
    && |trace| == |schedule| + 1 && |outcomes| == |schedule|
    && forall n :: 0 <= n < |schedule| ==> Next(trace[n], trace[n + 1], schedule[n], outcomes[n])
  }

  function Counted(trace: seq<State>, schedule: seq<Step>, outcomes: seq<Option<Outcome>>, n: nat, c: Cause): nat
    requires |trace| == |schedule| + 1 && |outcomes| == |schedule| && n <= |schedule|
  {
    if n == 0 then 0
    else
      Counted(trace, schedule, outcomes, n - 1, c)
      + CountedBy(trace[n - 1], trace[n], schedule[n - 1], outcomes[n - 1], c)
  }

  function Accepted(trace: seq<State>, schedule: seq<Step>, n: nat): multiset<Prepared>
    requires |trace| == |schedule| + 1 && n <= |schedule|
  {
    if n == 0 then multiset{}
    else Accepted(trace, schedule, n - 1) + Plain(AcceptedBy(trace[n - 1], schedule[n - 1]))
  }

  function Discarded(trace: seq<State>, schedule: seq<Step>, outcomes: seq<Option<Outcome>>, n: nat)
    : multiset<Prepared>
    requires |trace| == |schedule| + 1 && |outcomes| == |schedule| && n <= |schedule|
  {
    if n == 0 then multiset{}
    else
      Discarded(trace, schedule, outcomes, n - 1)
      + Plain(DiscardedBy(trace[n - 1], trace[n], schedule[n - 1], outcomes[n - 1]))
  }

  lemma {:induction false} PlainAppend(a: seq<Prepared>, b: seq<Prepared>)
    ensures Plain(a + b) == Plain(a) + Plain(b)
  {
    if a == [] {
      assert a + b == b;
    } else {
      assert (a + b)[1..] == a[1..] + b;
      PlainAppend(a[1..], b);
    }
  }

  lemma PlainOne(e: Prepared)
    ensures Plain([e]) == multiset{e.(sequence := 0)}
  {
    assert [e][1..] == [];
  }

  lemma PlainFirst(events: seq<Prepared>)
    requires events != []
    ensures Plain(events) == Plain([events[0]]) + Plain(events[1..])
  {
    PlainOne(events[0]);
  }

  lemma FinalizedCounts(s: State, t: State, verdict: Verdict, c: Cause)
    requires s.recorder != [] && t == Finalized(s, verdict)
    ensures t.observed.Get(c) == s.observed.Get(c) + CountedBy(s, t, FinalizeEvent(verdict), None, c)
  {
    hide Counts.Get, Counts.Observe, Counts.Restore, Reported;
    GetReported(s.observed, InvalidEvent, 1, c);
    GetReported(s.observed, if s.open then IngressFull else IngressClosed, 1, c);
  }

  /** A step counts what it finds, and nothing else. */
  lemma StepCounts(s: State, t: State, step: Step, outcome: Option<Outcome>, c: Cause)
    requires Next(s, t, step, outcome)
    ensures t.observed.Get(c) == s.observed.Get(c) + CountedBy(s, t, step, outcome, c)
  {
    hide Counts.Get, Counts.Observe, Counts.Restore, Reported, Settled, Drops, Wrote, Queue, Finalized, SummaryOf;
    match step
    case ReportDrop(cause, n) =>
      GetReported(s.observed, cause, n, c);
    case FinalizeEvent(verdict) =>
      if s.recorder != [] {
        FinalizedCounts(s, t, verdict, c);
      }
    case ProcessNext(calm) =>
      if outcome == Some(Failed) {
        var k, n :| Lost(s, t, k, n);
        GetReported(s.observed, WriterUnavailable, n, c);
      }
    case _ =>
  }

  lemma {:induction false} RunCounts(trace: seq<State>, schedule: seq<Step>, outcomes: seq<Option<Outcome>>, n: nat,
                                     c: Cause)
    requires Run(trace, schedule, outcomes) && trace[0].observed == ZERO && n <= |schedule|
    ensures trace[n].observed.Get(c) == Counted(trace, schedule, outcomes, n, c)
    decreases n
  {
    hide Next, CountedBy, Counts.Get;
    if n == 0 {
      GetZero(c);
    } else {
      RunCounts(trace, schedule, outcomes, n - 1, c);
      StepCounts(trace[n - 1], trace[n], schedule[n - 1], outcomes[n - 1], c);
    }
  }

  predicate SamePlaces(s: State, t: State) {
    t.recorder == s.recorder && t.pending == s.pending && t.channel == s.channel && t.log == s.log
  }

  /** A step moves events between the places, and only takes away what it discards. */
  lemma StepMoves(s: State, t: State, step: Step, outcome: Option<Outcome>)
    requires Next(s, t, step, outcome)
    ensures Places(s) + Plain(AcceptedBy(s, step)) == Places(t) + Plain(DiscardedBy(s, t, step, outcome))
  {
    hide Plain, Places, Processed, Counts.Observe, Counts.Restore, Reported, Finalized, Drops, SummaryOf;
    NothingPlain();
    if SamePlaces(s, t) {
      SameIsUnmoved(s, t);
    }
    match step
    case RecordEvent(id, length) => RecorderMoves(s, t, Prepared(0, id, length, None));
    case ForwardRequest(id, length, accepted) =>
      if accepted && s.request.Some? && !s.request.value.forwarded {
        RecorderMoves(s, t, Prepared(0, id, length, Some(s.request.value.summary)));
      }
    case DropOwner =>
      if s.request.None? && !s.phase.Ended? {
        OwnerMoves(s, t);
      }
    case FinalizeEvent(verdict) =>
      if s.recorder != [] {
        FinalizedMoves(s, t, verdict);
      }
    case CollectEvent =>
      if s.channel != [] && s.request.None? && s.phase.Running? {
        CollectMoves(s, t);
      }
    case ProcessNext(calm) =>
      if outcome.Some? {
        ProcessedMoves(s, t, calm, outcome.value);
      }
    case _ =>
  }

  lemma SameIsUnmoved(s: State, t: State)
    requires SamePlaces(s, t)
    ensures Places(s) == Places(t)
  {
  }

  lemma RecorderMoves(s: State, t: State, e: Prepared)
    requires SamePlaces(s.(recorder := s.recorder + [e]), t)
    ensures Places(s) + Plain([e]) == Places(t)
  {
    hide Plain;
    PlainAppend(s.recorder, [e]);
  }

  lemma OwnerMoves(s: State, t: State)
    requires SamePlaces(s.(pending := [], channel := []), t)
    ensures Places(s) == Places(t) + Plain(s.pending + s.channel)
  {
    hide Plain;
    NothingPlain();
    PlainAppend(s.pending, s.channel);
  }

  lemma CollectMoves(s: State, t: State)
    requires s.channel != []
    requires SamePlaces(s.(pending := s.pending + [s.channel[0]], channel := s.channel[1..]), t)
    ensures Places(s) == Places(t)
  {
    hide Plain;
    PlainFirst(s.channel);
    PlainAppend(s.pending, [s.channel[0]]);
  }

  lemma NothingPlain()
    ensures Plain([]) == multiset{}
  {
  }

  lemma FinalizedMoves(s: State, t: State, verdict: Verdict)
    requires s.recorder != [] && t == Finalized(s, verdict)
    ensures Places(s) == Places(t) + Plain(DiscardedBy(s, t, FinalizeEvent(verdict), None))
  {
    hide Plain, Places, Finalized;
    NothingPlain();
    FinalizedPlaces(s, t, verdict);
    if Wanted(s, verdict) && HasRoom(s) {
      QueuedMoves(s, t);
    } else {
      GoneMoves(s, t);
    }
  }

  lemma FinalizedPlaces(s: State, t: State, verdict: Verdict)
    requires s.recorder != [] && t == Finalized(s, verdict)
    ensures var rest := s.(recorder := s.recorder[1..]);
            SamePlaces(if Wanted(s, verdict) && HasRoom(s)
                       then rest.(channel := s.channel + [s.recorder[0].(sequence := s.next)]) else rest, t)
  {
    hide Counts.Observe, Counts.Restore, Reported;
  }

  lemma QueuedMoves(s: State, t: State)
    requires s.recorder != []
    requires SamePlaces(s.(recorder := s.recorder[1..],
                           channel := s.channel + [s.recorder[0].(sequence := s.next)]), t)
    ensures Places(s) == Places(t)
  {
    hide Plain;
    var event := s.recorder[0].(sequence := s.next);
    PlainFirst(s.recorder);
    PlainAppend(s.channel, [event]);
    PlainOne(event);
    PlainOne(s.recorder[0]);
  }

  lemma GoneMoves(s: State, t: State)
    requires s.recorder != [] && SamePlaces(s.(recorder := s.recorder[1..]), t)
    ensures Places(s) == Places(t) + Plain([s.recorder[0]])
  {
    hide Plain;
    PlainFirst(s.recorder);
  }

  lemma ProcessedMoves(s: State, t: State, calm: bool, outcome: Outcome)
    requires Processed(s, t, calm, outcome)
    ensures Places(s) == Places(t) + Plain(DiscardedBy(s, t, ProcessNext(calm), Some(outcome)))
  {
    hide Plain, Places, Counts.Observe, Counts.Restore, Reported, Persisted, Queue;
    NothingPlain();
    match outcome
    case Written(n) =>
      QueueMoves(s, t, n, n);
      assert Queue(s)[n..n] == [];
    case RetentionFailed(n) =>
      QueueMoves(s, t, n, n);
      assert Queue(s)[n..n] == [];
    case Failed =>
      var k, n :| Lost(s, t, k, n);
      QueueMoves(s, t, k, n);
    case Idle => SettledMoves(s, t);
    case DropSummaryRequested => SettledMoves(s, t);
  }

  lemma SettledMoves(s: State, t: State)
    requires var u := Settled(s);
             t.recorder == u.recorder && t.pending == u.pending && t.channel == u.channel && t.log == u.log
    ensures Places(s) == Places(t)
  {
    hide Plain, Counts.Restore, Persisted;
  }

  /** The first `n` queued events leave the queue, the first `k` of them for the log. */
  lemma QueueMoves(s: State, t: State, k: nat, n: nat)
    requires k <= n <= |Queue(s)| && Queue(t) == Queue(s)[n..] && t.log == s.log + Queue(s)[..k]
    requires t.recorder == s.recorder
    ensures Places(s) == Places(t) + Plain(Queue(s)[k..n])
    ensures TakenOff(s, t) == n && |t.log| - |s.log| == k
  {
    hide Plain;
    var queue := Queue(s);
    assert queue == queue[..k] + queue[k..n] + queue[n..];
    PlainAppend(queue[..k] + queue[k..n], queue[n..]);
    PlainAppend(queue[..k], queue[k..n]);
    PlainAppend(s.log, queue[..k]);
    PlainAppend(s.pending, s.channel);
    PlainAppend(t.pending, t.channel);
    var before, after := Plain(s.pending) + Plain(s.channel), Plain(t.pending) + Plain(t.channel);
    assert Places(s) == Plain(s.recorder) + before + Plain(s.log);
    assert Places(t) == Plain(t.recorder) + after + Plain(t.log);
  }

  lemma Rearrange(places: multiset<Prepared>, discarded: multiset<Prepared>, more: multiset<Prepared>,
                  after: multiset<Prepared>, less: multiset<Prepared>)
    requires places + more == after + less
    ensures places + discarded + more == after + (discarded + less)
  {
    assert places + discarded + more == places + more + discarded;
  }

  /** Every accepted event waits, is on disk, or was discarded by one step. */
  lemma {:induction false} RunMoves(trace: seq<State>, schedule: seq<Step>, outcomes: seq<Option<Outcome>>, n: nat)
    requires Run(trace, schedule, outcomes) && Places(trace[0]) == multiset{} && n <= |schedule|
    ensures Accepted(trace, schedule, n) == Places(trace[n]) + Discarded(trace, schedule, outcomes, n)
    decreases n
  {
    hide Next, Places, Plain, AcceptedBy, DiscardedBy;
    if n > 0 {
      var s, t, step, outcome := trace[n - 1], trace[n], schedule[n - 1], outcomes[n - 1];
      RunMoves(trace, schedule, outcomes, n - 1);
      StepMoves(s, t, step, outcome);
      Rearrange(Places(s), Discarded(trace, schedule, outcomes, n - 1), Plain(AcceptedBy(s, step)), Places(t),
                Plain(DiscardedBy(s, t, step, outcome)));
    }
  }

  /**
   A discarded event is filtered out, goes with the owner, or is counted. A failed append counts its whole batch, also
   the events that reached the disk.
   */
  lemma DiscardsAreCounted(s: State, t: State, step: Step, outcome: Option<Outcome>)
    requires Next(s, t, step, outcome)
    ensures step.FinalizeEvent? && s.recorder != [] && (s.recorder[0].summary.Some? || !step.verdict.Filtered?) ==>
              |DiscardedBy(s, t, step, outcome)|
              == CountedBy(s, t, step, outcome, IngressFull) + CountedBy(s, t, step, outcome, IngressClosed)
                 + CountedBy(s, t, step, outcome, InvalidEvent)
    ensures step.ProcessNext? ==>
              |DiscardedBy(s, t, step, outcome)| <= CountedBy(s, t, step, outcome, WriterUnavailable)
    ensures DiscardedBy(s, t, step, outcome) != [] ==>
              step.FinalizeEvent? || step.ProcessNext? || step.DropOwner?
  {
    hide Processed, Finalized, Observe, Restored, Abandoned, OwnerGone, Queue;
  }

  /**
   Every reported drop is held exactly once or went down with the owner, or is held once more where a failed barrier
   left it counted twice. While the owner runs, nothing is lost or counted twice.
   */
  ghost predicate Balanced(s: State) {
    && (forall c: Cause :: s.observed.Get(c) + s.twice.Get(c) <= U64_MAX ==>
          s.drops.Get(c) + RequestShare(s, c) + Carried(s.recorder, c) + Carried(Flow(s), c) + s.lost.Get(c)
          == s.observed.Get(c) + s.twice.Get(c))
    && (s.phase.Running? ==> s.twice == s.lost == ZERO && Tokens(s) == if s.inflight then 1 else 0)
    && Increasing(Flow(s))
  }

  /** The steps that lose counts: the owner ends while a drop event that carries some is in its memory only. */
  ghost predicate Loses(s: State, step: Step) {
    step.DropOwner? && s.phase.Running? && s.request.None? && CarriesSomething(InMemory(s))
  }

  ghost predicate NoBarrierFails(schedule: seq<Step>) {
    forall step :: step in schedule ==> !step.FailBarrier?
  }

  ghost predicate OwnerStays(schedule: seq<Step>) {
    forall step :: step in schedule ==> !step.DropOwner?
  }

  /**
   Every interleaving of producers, recorder, forwarder and owner, with every outcome of each append, recovery, send
   and barrier, and with the owner dropped at any point between its steps. At every moment the books balance over
   exactly the drops that the steps counted, and every accepted event waits, is on disk or was discarded. Counts are
   lost exactly by the steps that `Loses` names, and nothing is counted twice unless a barrier fails.
   */
  method EveryInterleaving(last: nat, schedule: seq<Step>)
    returns (trace: seq<State>, outcomes: seq<Option<Outcome>>)
    requires forall step :: step in schedule && (step.RecordEvent? || step.ForwardRequest?) ==>
               step.length <= MAX_PREPARED_EVENT_BYTES
    ensures Run(trace, schedule, outcomes) && trace[0] == Initial(last)
    ensures forall n :: 0 <= n <= |schedule| ==> Balanced(trace[n])
    ensures forall n, c :: 0 <= n <= |schedule| ==>
              trace[n].observed.Get(c) == Counted(trace, schedule, outcomes, n, c)
    ensures forall n :: 0 <= n <= |schedule| ==>
              Accepted(trace, schedule, n) == Places(trace[n]) + Discarded(trace, schedule, outcomes, n)
    ensures forall n :: 0 <= n < |schedule| ==> (trace[n + 1].lost != trace[n].lost <==> Loses(trace[n], schedule[n]))
    ensures NoBarrierFails(schedule) ==> forall n :: 0 <= n <= |schedule| ==> trace[n].twice == ZERO
    ensures NoBarrierFails(schedule) && OwnerStays(schedule) ==>
              forall n :: 0 <= n <= |schedule| ==> trace[n].phase.Running?
  {
    hide Inv, Balanced, Next, Counts.Get, NoBarrierFails, OwnerStays, Loses, Places;
    var p := new Pipeline(last);
    trace, outcomes := [p.Now()], [];
    InvBalanced(p.Now());
    for n := 0 to |schedule|
      invariant fresh(p) && Inv(p.Now()) && |trace| == n + 1 && trace[n] == p.Now() && trace[0] == Initial(last)
      invariant |outcomes| == n && forall k :: 0 <= k < n ==> Next(trace[k], trace[k + 1], schedule[k], outcomes[k])
      invariant forall k :: 0 <= k <= n ==> Balanced(trace[k])
      invariant forall k :: 0 <= k < n ==> (trace[k + 1].lost != trace[k].lost <==> Loses(trace[k], schedule[k]))
      invariant NoBarrierFails(schedule) ==>
                  forall k :: 0 <= k <= n ==> !trace[k].phase.Failing? && trace[k].twice == ZERO
      invariant NoBarrierFails(schedule) && OwnerStays(schedule) ==>
                  forall k :: 0 <= k <= n ==> trace[k].phase.Running?
    {
      assert schedule[n] in schedule;
      ghost var s := p.Now();
      var outcome := OneStep(p, schedule[n]);
      var t := p.Now();
      InvBalanced(t);
      StepKeepsRunning(s, t, schedule, n, outcome);
      StepLoses(s, t, schedule[n], outcome);
      trace, outcomes := trace + [t], outcomes + [outcome];
    }
    NothingPlaced(last);
    forall n, c | 0 <= n <= |schedule|
      ensures trace[n].observed.Get(c) == Counted(trace, schedule, outcomes, n, c)
    {
      RunCounts(trace, schedule, outcomes, n, c);
    }
    forall n | 0 <= n <= |schedule|
      ensures Accepted(trace, schedule, n) == Places(trace[n]) + Discarded(trace, schedule, outcomes, n)
    {
      RunMoves(trace, schedule, outcomes, n);
    }
  }

  lemma NothingPlaced(last: nat)
    ensures Places(Initial(last)) == multiset{}
  {
  }

  method OneStep(p: Pipeline, step: Step) returns (outcome: Option<Outcome>)
    requires Inv(p.Now()) && (step.RecordEvent? || step.ForwardRequest? ==> step.length <= MAX_PREPARED_EVENT_BYTES)
    modifies p
    ensures Inv(p.Now()) && Next(old(p.Now()), p.Now(), step, outcome)
  {
    hide Inv, Processed, Observe, Restored, Abandoned, OwnerGone, Finalized;
    outcome := None;
    match step
    case ReportDrop(cause, count) =>
      p.Report(cause, count);
    case RecordEvent(id, length) =>
      p.Record(id, length);
    case ForwardRequest(id, length, accepted) =>
      if p.request.Some? && !p.request.value.forwarded {
        p.Forward(id, length, accepted);
      }
    case AcknowledgeRequest =>
      if p.request.Some? && p.request.value.forwarded {
        p.Acknowledge();
      }
    case FailBarrier =>
      if p.request.Some? && p.request.value.forwarded {
        p.AbandonRequest();
      }
    case DropOwner =>
      if p.request.None? && !p.phase.Ended? {
        p.DropOwner();
      }
    case FinalizeEvent(verdict) =>
      if p.recorder != [] {
        p.Finalize(verdict);
      }
    case CollectEvent =>
      if p.channel != [] && p.request.None? && p.phase.Running? {
        p.Collect();
      }
    case ProcessNext(calm) =>
      if p.request.None? && p.phase.Running? {
        var processed := p.TryProcessNext(calm);
        outcome := Some(processed);
      }
    case CloseQueue =>
      ClosedKeeps(p.Now());
      p.channelOpen := false;
  }

  lemma ClosedKeeps(s: State)
    requires Inv(s)
    ensures Inv(s.(open := false))
  {
    hide Counts.Get, Carried, Drops, Increasing;
    var t := s.(open := false);
    assert Flow(t) == Flow(s);
    assert forall c: Cause :: Held(t, c) == Held(s, c) && CarriedUnderway(t, c) == CarriedUnderway(s, c);
  }

  lemma InvBalanced(s: State)
    requires Inv(s)
    ensures Balanced(s)
  {
    hide Counts.Get, Carried, Drops, Increasing;
    forall c: Cause | s.observed.Get(c) + s.twice.Get(c) <= U64_MAX
      ensures Held(s, c) + s.lost.Get(c) == s.observed.Get(c) + s.twice.Get(c)
    {
      assert Slack(s, c) <= s.twice.Get(c);
    }
  }

  /** Only a failed barrier or the end of the owner changes the phase and what is lost or counted twice. */
  lemma StepKeepsPhase(s: State, t: State, step: Step, outcome: Option<Outcome>)
    requires Next(s, t, step, outcome)
    ensures !step.DropOwner? ==> t.lost == s.lost
    ensures !step.DropOwner? && !step.FailBarrier? ==> t.phase == s.phase && t.twice == s.twice
  {
    hide Counts.Observe, Counts.Restore, Reported, Settled, Drops, Wrote, Lost, Queue, OwnerGone;
  }

  lemma StepKeepsRunning(s: State, t: State, schedule: seq<Step>, n: nat, outcome: Option<Outcome>)
    requires n < |schedule| && Next(s, t, schedule[n], outcome)
    ensures NoBarrierFails(schedule) && !s.phase.Failing? && s.twice == ZERO ==> !t.phase.Failing? && t.twice == ZERO
    ensures NoBarrierFails(schedule) && OwnerStays(schedule) && s.phase.Running? ==> t.phase.Running?
  {
    assert schedule[n] in schedule;
    StepKeepsPhase(s, t, schedule[n], outcome);
    hide Processed, Finalized, Observe, Restored, Abandoned, Drops, SummaryOf;
  }

  lemma StepLoses(s: State, t: State, step: Step, outcome: Option<Outcome>)
    requires Inv(s) && Next(s, t, step, outcome)
    ensures t.lost != s.lost <==> Loses(s, step)
  {
    StepKeepsPhase(s, t, step, outcome);
    LosesExactly(InMemory(s));
    hide Processed, Finalized, Observe, Restored, Abandoned, Drops, SummaryOf, CarriesSomething, Conserved, Sequenced,
         InMemory, Bounded, Tokens, Carries;
  }

  /**
   A run in which the barrier after an accepted summary fails: three drops were reported for a full ingress, and the
   counters end with six.
   */
  method CountsTwice() returns (s: State)
    ensures s.observed == Counts(3, 1, 0, 0, 0) && s.drops == Counts(6, 1, 0, 0, 0)
    ensures s.request.None? && s.recorder == s.pending == s.channel == [] && |s.log| == 1
  {
    hide Inv, Counts.Observe, Counts.Restore;
    var p := UpToRequest();
    SmallCounts();
    p.Forward(8, 100, true);
    p.AbandonRequest();
    p.DropOwner();
    p.Finalize(Persist);
    s := p.Now();
  }

  /**
   A run in which the append of a summary fails and the owner's task ends: three drops were reported for a full
   ingress, and no counter and no event on disk knows of them any more.
   */
  method LosesCounts() returns (s: State)
    ensures s.observed == Counts(3, 0, 1, 0, 0) && s.drops == Counts(0, 0, 1, 0, 0) && s.lost == Counts(3, 0, 0, 0, 0)
    ensures s.request.None? && s.recorder == s.pending == s.channel == []
    ensures forall e :: e in s.log ==> e.summary.None?
  {
    hide Inv, Counts.Observe, SummaryOf, Taken;
    var p := UpToQueued();
    SmallCounts();
    ghost var before := p.Now();
    QueueIsBounded(before);
    var batch := p.TakeBatch();
    ghost var event := before.channel[0];
    FrontOfQueue(batch, p.pending + p.channel, [event]);
    TakenFacts(before, batch, p.pending + p.channel);
    p.FailBatch(batch, 0, before);
    LastIsAnother(p.Now(), event);
    OneSummary(event);
    p.DropOwner();
    s := p.Now();
  }

  lemma LastIsAnother(s: State, event: Prepared)
    requires s.indeterminate == Some(event) && s.pending == s.channel == []
    requires |s.log| == 1 && s.log[0] != event
    ensures InMemory(s) == [event]
  {
  }

  /** The summary accepted, sequenced, acknowledged and in the durable queue. */
  method UpToQueued() returns (p: Pipeline)
    ensures fresh(p) && Inv(p.Now())
    ensures p.Now() == Initial(0).(log := [Prepared(1, 7, 100, None)], next := 3, progress := true, inflight := true,
                                   observed := Counts(3, 0, 0, 0, 0),
                                   channel := [Prepared(2, 8, 100, Some(Counts(3, 0, 0, 0, 0)))])
  {
    hide Inv;
    p := UpToRequest();
    p.Forward(8, 100, true);
    p.Finalize(Persist);
    p.Acknowledge();
  }

  lemma QueueIsBounded(s: State)
    requires Inv(s)
    ensures Bounded(s.pending) && Bounded(s.channel)
  {
    hide Conserved, Sequenced, InPhase;
  }

  lemma OneSummary(event: Prepared)
    requires event.summary.Some?
    ensures SummaryOf([event]) == event.summary.value
  {
    hide Carried;
    CarriedOne(event, IngressFull);
    CarriedOne(event, IngressClosed);
    CarriedOne(event, WriterUnavailable);
    CarriedOne(event, InvalidEvent);
    CarriedOne(event, OversizedEvent);
  }

  /** One event written, three drops reported, and their summary requested. */
  method UpToRequest() returns (p: Pipeline)
    ensures fresh(p) && Inv(p.Now())
    ensures p.Now() == Initial(0).(log := [Prepared(1, 7, 100, None)], next := 2, progress := true, inflight := true,
                                   observed := Counts(3, 0, 0, 0, 0),
                                   request := Some(Request(Counts(3, 0, 0, 0, 0), false)))
  {
    hide Inv, Processed, Counts.Observe;
    p := new Pipeline(0);
    p.Record(7, 100);
    p.Finalize(Persist);
    ghost var before := p.Now();
    var outcome := p.TryProcessNext(true);
    CalmWrites(before, p.Now(), outcome);
    p.Report(IngressFull, 3);
    before := p.Now();
    SmallCounts();
    outcome := p.TryProcessNext(true);
    CalmRequests(before, p.Now(), outcome);
  }

  lemma SmallCounts()
    ensures ZERO.Observe(IngressFull, 3) == Counts(3, 0, 0, 0, 0) == ZERO.Restore(Counts(3, 0, 0, 0, 0)) != ZERO
    ensures Counts(3, 0, 0, 0, 0).Restore(Counts(3, 0, 0, 0, 0)) == Counts(6, 0, 0, 0, 0)
    ensures Counts(6, 0, 0, 0, 0).Observe(IngressClosed, 1) == Counts(6, 1, 0, 0, 0)
    ensures ZERO.Observe(WriterUnavailable, 1) == Counts(0, 0, 1, 0, 0)
  {
  }

  /** Undisturbed, one queued ordinary event is written. */
  lemma CalmWrites(s: State, t: State, outcome: Outcome)
    requires Processed(s, t, true, outcome) && |Queue(s)| == 1 && s.indeterminate.None? && !s.inflight
    requires s.request.None?
    ensures t == s.(pending := [], channel := [], log := s.log + Queue(s), progress := true)
  {
    assert Queue(s)[..1] == Queue(s);
    assert outcome == Written(1);
  }

  /** Undisturbed and with nothing queued, the counters become the one summary under way. */
  lemma CalmRequests(s: State, t: State, outcome: Outcome)
    requires Processed(s, t, true, outcome) && Queue(s) == [] && s.indeterminate.None?
    requires s.progress && !s.inflight && s.drops != ZERO
    ensures t == s.(drops := ZERO, inflight := true, request := Some(Request(s.drops, false)))
  {
  }
}
