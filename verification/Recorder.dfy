/**
 The reservation of sequences between producers and the owner of the recorder: `wokcore-diagnostics/src/recorder.rs`.
 Producers and the owner share an atomic count of sequences left and two bounded channels. A step is one atomic
 access: taking a channel slot, reserving a sequence, sending, or one action of the owner.
 */
module Recorder {
  import opened Prelude
  import opened Ring

  const INGRESS_QUEUE_CAPACITY: nat := 256
  const INTERNAL_INGRESS_QUEUE_CAPACITY: nat := 4

  /** A prepared event that has no sequence yet. */
  datatype TemplateData = Template(id: nat, length: nat)

  type Template = t: TemplateData | t.length <= MAX_PREPARED_EVENT_BYTES witness Template(0, 0)

  /** A bounded channel: slots taken by producers that hold no sequence yet, slots with one, and sent templates. */
  datatype Channel = Channel(open: bool, slots: nat, reserved: nat, queue: seq<Template>) {
    function Used(): nat {
      slots + reserved + |queue|
    }

    /** Templates that own a sequence: sent, or about to be. */
    function Owed(): nat {
      reserved + |queue|
    }
  }

  /** An event the ring took, and whether it came through the internal channel. */
  datatype Stored = Stored(inside: bool, event: Event)

  datatype State = State(
    remaining: nat,           // the atomic count of sequences not reserved
    ingress: Channel,
    internal: Channel,
    next: nat,                // the next sequence to hand out; zero when they ran out
    ingressOpen: bool,        // the owner still receives from the ingress
    closeReplies: nat,        // close commands not answered yet
    closeReplied: bool,       // some close command was answered
    recovered: nat,           // the largest sequence recovery reported
    inserted: seq<Stored>)    // every event the ring took, in order
  {
    function Of(inside: bool): Channel {
      if inside then internal else ingress
    }

    function With(inside: bool, channel: Channel): State {
      if inside then this.(internal := channel) else this.(ingress := channel)
    }
  }

  function Capacity(inside: bool): nat {
    if inside then INTERNAL_INGRESS_QUEUE_CAPACITY else INGRESS_QUEUE_CAPACITY
  }

  /** A slot that got a sequence, or was given back. */
  function Moved(channel: Channel, ok: bool): Channel
    requires channel.slots > 0
  {
    channel.(slots := channel.slots - 1, reserved := channel.reserved + if ok then 1 else 0)
  }

  /** A reserved slot filled with its template. */
  function Filled(channel: Channel, template: Template): Channel
    requires channel.reserved > 0
  {
    channel.(reserved := channel.reserved - 1, queue := channel.queue + [template])
  }

  /** The oldest template of a channel with its sequence, in the ring. */
  function Received(s: State, inside: bool): State
    requires s.Of(inside).queue != []
  {
    var channel := s.Of(inside);
    var template := channel.queue[0];
    s.With(inside, channel.(queue := channel.queue[1..])).(
      next := if s.next == U64_MAX then 0 else s.next + 1,
      inserted := s.inserted + [Stored(inside, Event(s.next, template.id, template.length))])
  }

  /** A closed ingress with nothing left in it ends, and answers the close commands. */
  function Drained(s: State): State {
    if !s.ingress.open && s.ingress.Used() == 0 && s.ingressOpen then
      s.(ingressOpen := false, closeReplies := 0, closeReplied := s.closeReplied || s.closeReplies > 0)
    else s
  }

  /** Every sequence up to `last` is skipped. */
  function Elevated(s: State, last: nat): State
    requires s.next != 0 && last >= s.next ==> last - s.next + 1 <= s.remaining
  {
    if s.next == 0 || last < s.next then s.(recovered := if last > s.recovered then last else s.recovered)
    else s.(remaining := s.remaining - (last - s.next + 1), next := if last == U64_MAX then 0 else last + 1,
            recovered := last)
  }

  datatype RecordOutcome = Taken | DroppedFull | DroppedClosed

  /** How many sequences are left when `next` is the one to hand out; zero means they ran out. */
  function Left(next: nat): nat
    requires next <= U64_MAX
  {
    if next == 0 then 0 else U64_MAX - next + 1
  }

  /** Sequences handed out so far: nonzero, strictly increasing, and below the next one. */
  ghost predicate Handed(inserted: seq<Stored>, next: nat) {
    && (forall i :: 0 <= i < |inserted| ==>
          0 < inserted[i].event.sequence <= U64_MAX && (next == 0 || inserted[i].event.sequence < next))
    && (forall i, j :: 0 <= i < j < |inserted| ==> inserted[i].event.sequence < inserted[j].event.sequence)
  }

  lemma HandedMore(inserted: seq<Stored>, next: nat, stored: Stored)
    requires Handed(inserted, next) && 0 < next <= U64_MAX && stored.event.sequence == next
    ensures Handed(inserted + [stored], if next == U64_MAX then 0 else next + 1)
  {
  }

  /** Every sequence left is either unreserved or owed to one accepted template. */
  ghost predicate Balanced(s: State) {
    && s.next <= U64_MAX && s.remaining + s.ingress.Owed() + s.internal.Owed() == Left(s.next)
    && s.ingress.Used() <= INGRESS_QUEUE_CAPACITY && s.internal.Used() <= INTERNAL_INGRESS_QUEUE_CAPACITY
    && Handed(s.inserted, s.next) && (s.next == 0 || s.recovered < s.next)
    && (!s.ingressOpen ==> !s.ingress.open && s.ingress.Used() == 0)
    && (s.closeReplied ==> !s.ingressOpen)
  }

  function Events(inserted: seq<Stored>): (events: seq<Event>)
    ensures |events| == |inserted|
  {
    seq(|inserted|, i requires 0 <= i < |inserted| => inserted[i].event)
  }

  function Start(): State {
    State(U64_MAX, Channel(true, 0, 0, []), Channel(true, 0, 0, []), 1, true, 0, false, 0, [])
  }

  class RecorderState {
    var remaining: nat
    var ingress: Channel
    var internal: Channel
    var next: nat
    const ring: DiagnosticRing
    var ingressOpen: bool
    var closeReplies: nat
    var closeReplied: bool
    var recovered: nat
    var inserted: seq<Stored>

    function Now(): State
      reads this
    {
      State(remaining, ingress, internal, next, ingressOpen, closeReplies, closeReplied, recovered, inserted)
    }

    /** The books balance, and the ring took exactly the events recorded as inserted. */
    ghost predicate Valid()
      reads this, ring
    {
      && Balanced(Now()) && ring.Valid() && ring.budget >= MAX_PREPARED_EVENT_BYTES
      && ring.all == Events(inserted) && (ring.last.Some? ==> next == 0 || ring.last.value < next)
    }

    constructor (budget: nat)
      requires MAX_PREPARED_EVENT_BYTES <= budget <= MAX_RING_BYTES
      ensures Valid() && fresh(ring) && Now() == Start()
    {
      hide DiagnosticRing.Valid;
      ring := new DiagnosticRing(budget);
      remaining, next := SaturatingAdd(U64_MAX - 1, 1), 1;
      ingress, internal := Channel(true, 0, 0, []), Channel(true, 0, 0, []);
      ingressOpen, closeReplies, closeReplied := true, 0, false;
      recovered, inserted := 0, [];
    }

    // Producers.

    /** Take a slot of a channel. */
    method TryReserve(inside: bool) returns (outcome: RecordOutcome)
      requires Valid()
      modifies this`ingress, this`internal
      ensures Valid()
      ensures var channel := old(Now()).Of(inside);
              && (outcome == DroppedClosed <==> !channel.open)
              && (outcome == DroppedFull <==> channel.open && channel.Used() == Capacity(inside))
              && Now() == if outcome == Taken then old(Now()).With(inside, channel.(slots := channel.slots + 1))
                          else old(Now())
    {
      hide DiagnosticRing.Valid, Handed;
      var channel := if inside then internal else ingress;
      if !channel.open {
        return DroppedClosed;
      }
      if channel.Used() == Capacity(inside) {
        return DroppedFull;
      }
      channel := channel.(slots := channel.slots + 1);
      if inside {
        internal := channel;
      } else {
        ingress := channel;
      }
      outcome := Taken;
    }

    /** The draft cannot be prepared: the slot goes back. */
    method Abandon(inside: bool)
      requires Valid() && Now().Of(inside).slots > 0
      modifies this`ingress, this`internal
      ensures Valid() && Now() == old(Now()).With(inside, Moved(old(Now()).Of(inside), false))
    {
      hide DiagnosticRing.Valid, Handed;
      if inside {
        internal := Moved(internal, false);
      } else {
        ingress := Moved(ingress, false);
      }
    }

    /** Reserve a sequence for the slot, or give the slot back when none is left. */
    method ReserveSequence(inside: bool) returns (ok: bool)
      requires Valid() && Now().Of(inside).slots > 0
      modifies this`ingress, this`internal, this`remaining
      ensures Valid() && (ok <==> old(remaining) > 0)
      ensures Now() == old(Now()).With(inside, Moved(old(Now()).Of(inside), ok)).(
                         remaining := if ok then old(remaining) - 1 else old(remaining))
    {
      hide DiagnosticRing.Valid, Handed;
      ok := remaining > 0;
      if ok {
        remaining := remaining - 1;
      }
      if inside {
        internal := Moved(internal, ok);
      } else {
        ingress := Moved(ingress, ok);
      }
    }

    /** Send the template through the slot: it is accepted. */
    method Send(inside: bool, template: Template)
      requires Valid() && Now().Of(inside).reserved > 0
      modifies this`ingress, this`internal
      ensures Valid() && Now() == old(Now()).With(inside, Filled(old(Now()).Of(inside), template))
    {
      hide DiagnosticRing.Valid, Handed;
      if inside {
        internal := Filled(internal, template);
      } else {
        ingress := Filled(ingress, template);
      }
    }

    // The owner.

    /** Skip every sequence up to the recovered one; refused when that would take sequences already reserved. */
    method ElevateNextSequence(last: nat) returns (ok: bool)
      requires Valid() && last <= U64_MAX
      modifies this`next, this`remaining, this`recovered
      ensures Valid() && (ok <==> old(next) == 0 || last < old(next) || last - old(next) + 1 <= old(remaining))
      ensures Now() == if ok then Elevated(old(Now()), last) else old(Now())
      ensures ok ==>
                recovered >= last && (next == 0 || last < next) && (next == 0 || (old(next) != 0 && old(next) <= next))
    {
      hide DiagnosticRing.Valid;
      var recoveredNext := if last == U64_MAX then 0 else last + 1;
      var current := next;
      if current == 0 || recoveredNext == current || (recoveredNext != 0 && recoveredNext < current) {
        recovered := if last > recovered then last else recovered;
        return true;
      }
      var skipped := if recoveredNext == 0 then U64_MAX - current + 1 else recoveredNext - current;
      if remaining < skipped {
        return false;
      }
      remaining := remaining - skipped;
      next := recoveredNext;
      recovered := last;
      ok := true;
    }

    /** Give the template the next sequence and put it in the ring, which takes it. */
    method FinalizeAndInsert(inside: bool, template: Template) returns (outcome: InsertOutcome)
      requires next != 0 && next <= U64_MAX && Handed(inserted, next) && ring.all == Events(inserted)
      requires ring.Valid() && ring.budget >= MAX_PREPARED_EVENT_BYTES && (ring.last.Some? ==> ring.last.value < next)
      modifies this`next, this`inserted, ring
      ensures outcome == Inserted
      ensures inserted == old(inserted) + [Stored(inside, Event(old(next), template.id, template.length))]
      ensures Handed(inserted, next) && next == if old(next) == U64_MAX then 0 else old(next) + 1
      ensures ring.Valid() && ring.last == Some(old(next)) && ring.all == Events(inserted)
    {
      hide DiagnosticRing.Valid, Handed;
      var event := Event(next, template.id, template.length);
      HandedMore(inserted, next, Stored(inside, event));
      EventsMore(inserted, Stored(inside, event));
      next := if next == 0 || next == U64_MAX then 0 else next + 1;
      outcome := ring.Insert(event);
      if outcome == Inserted {
        inserted := inserted + [Stored(inside, event)];
      }
    }

    /** Receive from a channel: a template is finalized; a closed channel that is empty and unused is over. */
    method Receive(inside: bool) returns (received: bool)
      requires Valid()
      modifies this`next, this`inserted, this`ingress, this`internal, this`ingressOpen, this`closeReplies,
               this`closeReplied, ring
      ensures Valid() && (received <==> old(Now()).Of(inside).queue != [])
      ensures Now() == if received then Received(old(Now()), inside)
                       else if inside then old(Now()) else Drained(old(Now()))
      ensures received ==> recovered < old(next)
    {
      hide DiagnosticRing.Valid, Handed, Events;
      var channel := if inside then internal else ingress;
      if channel.queue != [] {
        assert next != 0;
        var outcome := FinalizeAndInsert(inside, channel.queue[0]);
        if inside {
          internal := internal.(queue := internal.queue[1..]);
        } else {
          ingress := ingress.(queue := ingress.queue[1..]);
        }
        return true;
      }
      if !inside && !channel.open && channel.Used() == 0 && ingressOpen {
        ingressOpen := false;
        if closeReplies > 0 {
          closeReplies, closeReplied := 0, true;
        }
      }
      received := false;
    }

    /** The close command: the ingress takes nothing more, and the reply waits until it has drained. */
    method CloseIngress()
      requires Valid()
      modifies this`ingress, this`closeReplies, this`closeReplied
      ensures Valid() && Now() == Closing(old(Now()))
    {
      hide DiagnosticRing.Valid, Handed;
      ingress := ingress.(open := false);
      if ingressOpen {
        closeReplies := closeReplies + 1;
      } else {
        closeReplied := true;
      }
    }

    /** Shutdown closes both channels and keeps what they hold. */
    method CloseAll()
      requires Valid()
      modifies this`ingress, this`internal
      ensures Valid()
      ensures Now() == old(Now()).(ingress := old(ingress).(open := false), internal := old(internal).(open := false))
    {
      hide DiagnosticRing.Valid, Handed;
      ingress, internal := ingress.(open := false), internal.(open := false);
    }
  }

  /** A close command: answered at once only when the ingress is over, which means it holds nothing. */
  function Closing(s: State): State {
    var t := s.(ingress := s.ingress.(open := false));
    if s.ingressOpen then t.(closeReplies := s.closeReplies + 1) else t.(closeReplied := true)
  }

  lemma EventsMore(inserted: seq<Stored>, stored: Stored)
    ensures Events(inserted + [stored]) == Events(inserted) + [stored.event]
  {
  }

  // Whole runs.

  datatype Step =
    | TakeSlot(inside: bool)
    | GiveBack(inside: bool)
    | TakeSequence(inside: bool)
    | SendTemplate(inside: bool, template: Template)
    | Elevate(last: nat)
    | ReceiveNext(inside: bool)
    | CloseIngress
    | CloseAll

  /** What a step does and answers; one that is not enabled does nothing. */
  ghost predicate Next(s: State, t: State, step: Step, ok: bool) {
    match step
    case TakeSlot(inside) =>
      var channel := s.Of(inside);
      && (ok <==> channel.open && channel.Used() < Capacity(inside))
      && t == if ok then s.With(inside, channel.(slots := channel.slots + 1)) else s
    case GiveBack(inside) =>
      (ok <==> s.Of(inside).slots > 0) && t == if ok then s.With(inside, Moved(s.Of(inside), false)) else s
    case TakeSequence(inside) =>
      if s.Of(inside).slots == 0 then !ok && t == s
      else
        && (ok <==> s.remaining > 0)
        && t == s.With(inside, Moved(s.Of(inside), ok)).(remaining := if ok then s.remaining - 1 else s.remaining)
    case SendTemplate(inside, template) =>
      (ok <==> s.Of(inside).reserved > 0) && t == if ok then s.With(inside, Filled(s.Of(inside), template)) else s
    case Elevate(last) =>
      && (ok <==> s.next == 0 || last < s.next || last - s.next + 1 <= s.remaining)
      && t == if ok then Elevated(s, last) else s
    case ReceiveNext(inside) =>
      && (ok <==> s.Of(inside).queue != [])
      && t == if ok then Received(s, inside) else if inside then s else Drained(s)
    case CloseIngress => ok && t == Closing(s)
    case CloseAll => ok && t == s.(ingress := s.ingress.(open := false), internal := s.internal.(open := false))
  }

  ghost predicate Run(trace: seq<State>, schedule: seq<Step>, answers: seq<bool>) {
    && |trace| == |schedule| + 1 && |answers| == |schedule| && trace[0] == Start()
    && forall n :: 0 <= n < |schedule| ==> Next(trace[n], trace[n + 1], schedule[n], answers[n])
  }

  /** The templates accepted through a channel, in the order they were sent. */
  function Sent(schedule: seq<Step>, answers: seq<bool>, inside: bool): seq<Template>
    requires |answers| == |schedule|
  {
    if schedule == [] then []
    else
      var n := |schedule| - 1;
      var step := schedule[n];
      Sent(schedule[..n], answers[..n], inside)
      + if step.SendTemplate? && step.inside == inside && answers[n] then [step.template] else []
  }

  /** The templates of a channel that have a sequence, in the order they got it. */
  function Finished(inserted: seq<Stored>, inside: bool): seq<TemplateData> {
    if inserted == [] then []
    else
      var last := inserted[|inserted| - 1];
      Finished(inserted[..|inserted| - 1], inside)
      + if last.inside == inside then [Template(last.event.id, last.event.length)] else []
  }

  /** Every accepted template has exactly one sequence or waits for one, in the order of its channel. */
  lemma {:induction false} NothingIsLost(trace: seq<State>, schedule: seq<Step>, answers: seq<bool>, inside: bool)
    requires Run(trace, schedule, answers)
    ensures Sent(schedule, answers, inside)
            == Finished(trace[|schedule|].inserted, inside) + trace[|schedule|].Of(inside).queue
    decreases |schedule|
  {
    if schedule == [] {
      return;
    }
    hide Run, Next, Finished;
    var n := |schedule| - 1;
    RunPrefix(trace, schedule, answers);
    NothingIsLost(trace[..n + 1], schedule[..n], answers[..n], inside);
    StepLosesNothing(trace[n], trace[n + 1], schedule[n], answers[n], inside);
  }

  lemma RunPrefix(trace: seq<State>, schedule: seq<Step>, answers: seq<bool>)
    requires Run(trace, schedule, answers) && schedule != []
    ensures var n := |schedule| - 1;
            && |trace| == n + 2 && |answers| == n + 1 && trace[..n + 1][n] == trace[n]
            && Run(trace[..n + 1], schedule[..n], answers[..n]) && Next(trace[n], trace[n + 1], schedule[n], answers[n])
  {
    hide Next;
  }

  lemma StepLosesNothing(s: State, t: State, step: Step, ok: bool, inside: bool)
    requires Next(s, t, step, ok)
    ensures Finished(s.inserted, inside) + s.Of(inside).queue
            + (if step.SendTemplate? && step.inside == inside && ok then [step.template] else [])
            == Finished(t.inserted, inside) + t.Of(inside).queue
  {
    hide Finished;
    if step.ReceiveNext? && ok {
      var channel := s.Of(step.inside);
      FinishedMore(s.inserted, t.inserted[|s.inserted|], inside);
      assert t.inserted == s.inserted + [t.inserted[|s.inserted|]];
      if step.inside == inside {
        assert channel.queue == [channel.queue[0]] + channel.queue[1..];
      }
    }
  }

  lemma FinishedMore(inserted: seq<Stored>, stored: Stored, inside: bool)
    ensures Finished(inserted + [stored], inside)
            == Finished(inserted, inside)
               + if stored.inside == inside then [Template(stored.event.id, stored.event.length)] else []
  {
    assert (inserted + [stored])[..|inserted|] == inserted;
  }

  /** What was handed out between two states is above `last`. */
  ghost predicate AboveSince(s: State, t: State, last: nat) {
    && s.inserted <= t.inserted
    && forall i :: |s.inserted| <= i < |t.inserted| ==> t.inserted[i].event.sequence > last
  }

  /** A sequence handed out after a recovery reported `last` is above it. */
  lemma {:induction false} LaterIsAbove(trace: seq<State>, schedule: seq<Step>, answers: seq<bool>, n: nat, m: nat)
    requires Run(trace, schedule, answers) && forall k :: 0 <= k <= |schedule| ==> Balanced(trace[k])
    requires n < m <= |schedule| && schedule[n].Elevate? && answers[n]
    ensures trace[m].recovered >= schedule[n].last && AboveSince(trace[n], trace[m], schedule[n].last)
    decreases m
  {
    hide Handed;
    assert Next(trace[m - 1], trace[m], schedule[m - 1], answers[m - 1]);
    if m > n + 1 {
      LaterIsAbove(trace, schedule, answers, n, m - 1);
      assert Balanced(trace[m - 1]);
      ReceivedAbove(trace[m - 1], trace[m], schedule[m - 1], answers[m - 1]);
    }
  }

  lemma ReceivedAbove(s: State, t: State, step: Step, ok: bool)
    requires Balanced(s) && Next(s, t, step, ok)
    ensures t.recovered >= s.recovered && AboveSince(s, t, s.recovered)
  {
    hide Handed;
  }

  /**
   Every interleaving of producers and the owner, with recoveries at any point. Sequences left are unreserved or owed
   to one template; those handed out are nonzero, never wrap, strictly increase and are above every sequence recovered
   before; every accepted template has one or will get one, in order; and once a close of the ingress has been
   answered, everything it accepted has one.
   */
  method EveryInterleaving(budget: nat, schedule: seq<Step>) returns (trace: seq<State>, answers: seq<bool>)
    requires MAX_PREPARED_EVENT_BYTES <= budget <= MAX_RING_BYTES
    requires forall step :: step in schedule && step.Elevate? ==> step.last <= U64_MAX
    ensures Run(trace, schedule, answers)
    ensures forall n :: 0 <= n <= |schedule| ==> Balanced(trace[n])
    ensures forall inside :: Sent(schedule, answers, inside)
                             == Finished(trace[|schedule|].inserted, inside) + trace[|schedule|].Of(inside).queue
    ensures trace[|schedule|].closeReplied ==>
              Sent(schedule, answers, false) == Finished(trace[|schedule|].inserted, false)
    ensures forall n :: 0 <= n < |schedule| && schedule[n].Elevate? && answers[n] ==>
              AboveSince(trace[n], trace[|schedule|], schedule[n].last)
  {
    hide RecorderState.Valid, Handed, Next, Balanced, Finished, Sent;
    var recorder := new RecorderState(budget);
    trace, answers := [recorder.Now()], [];
    ValidBalances(recorder);
    for n := 0 to |schedule|
      invariant fresh(recorder) && fresh(recorder.ring) && recorder.Valid()
      invariant |trace| == n + 1 && |answers| == n && trace[n] == recorder.Now() && trace[0] == Start()
      invariant forall k :: 0 <= k < n ==> Next(trace[k], trace[k + 1], schedule[k], answers[k])
      invariant forall k :: 0 <= k <= n ==> Balanced(trace[k])
    {
      assert schedule[n] in schedule;
      var ok := OneStep(recorder, schedule[n]);
      ValidBalances(recorder);
      trace, answers := trace + [recorder.Now()], answers + [ok];
    }
    NothingIsLost(trace, schedule, answers, true);
    NothingIsLost(trace, schedule, answers, false);
    AnsweredIsEmpty(trace[|schedule|]);
    forall n | 0 <= n < |schedule| && schedule[n].Elevate? && answers[n]
      ensures AboveSince(trace[n], trace[|schedule|], schedule[n].last)
    {
      LaterIsAbove(trace, schedule, answers, n, |schedule|);
    }
  }

  method OneStep(recorder: RecorderState, step: Step) returns (ok: bool)
    requires recorder.Valid() && (step.Elevate? ==> step.last <= U64_MAX)
    modifies recorder, recorder.ring
    ensures recorder.Valid() && Next(old(recorder.Now()), recorder.Now(), step, ok)
  {
    hide DiagnosticRing.Valid, Handed, Events;
    ok := true;
    match step
    case TakeSlot(inside) =>
      var outcome := recorder.TryReserve(inside);
      ok := outcome == Taken;
    case GiveBack(inside) =>
      ok := recorder.Now().Of(inside).slots > 0;
      if ok {
        recorder.Abandon(inside);
      }
    case TakeSequence(inside) =>
      ok := false;
      if recorder.Now().Of(inside).slots > 0 {
        ok := recorder.ReserveSequence(inside);
      }
    case SendTemplate(inside, template) =>
      ok := recorder.Now().Of(inside).reserved > 0;
      if ok {
        recorder.Send(inside, template);
      }
    case Elevate(last) =>
      ok := recorder.ElevateNextSequence(last);
    case ReceiveNext(inside) =>
      ok := recorder.Receive(inside);
    case CloseIngress =>
      recorder.CloseIngress();
    case CloseAll =>
      recorder.CloseAll();
  }

  lemma ValidBalances(recorder: RecorderState)
    requires recorder.Valid()
    ensures Balanced(recorder.Now())
  {
  }

  lemma AnsweredIsEmpty(s: State)
    requires Balanced(s)
    ensures s.closeReplied ==> s.ingress.queue == []
  {
  }
}
