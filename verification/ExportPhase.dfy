/**
 The phase machine of a diagnostics export and the one-permit gate in front of it. Threads share only the
 atomic phase and the permit slot of an export, so a step of the model is one atomic access by the thread
 that holds one of the two handles; steps of all exports and handles interleave freely.
 */
module ExportPhase {
  import opened Prelude

  datatype Phase = Ready | Running | Cancelled | Committing | Finished

  /** Where the holder of the request handle is: using it, or inside `cancel_owner`. */
  datatype Owner =
    | Held(split: bool)
    | Dropping
    | Loaded(seen: Phase)
    | Releasing
    | Gone

  /**
   Where the worker is: no lease yet, working, past a won commit, past storing Finished, or inside
   `cancel_worker`.
   */
  datatype Worker =
    | Absent
    | Working
    | Committed
    | Stored
    | Retiring
    | Inspected(seen: Phase)
    | Yielding
    | Left

  /** One export: the shared phase and permit slot, both handles, and which outcomes a compare-exchange ever won. */
  datatype Export = Export(phase: Phase, permit: bool, owner: Owner, worker: Worker, cancelled: bool, committed: bool)

  datatype Action =
    | StartWorker
    | Split
    | DropOwner
    | OwnerLoad
    | OwnerExchange
    | OwnerRelease
    | BeginCommit
    | StoreFinished
    | FinishBody
    | ReleaseFinished
    | DropWorker
    | WorkerLoad
    | WorkerExchange
    | WorkerRelease

  const FRESH := Export(Ready, true, Held(false), Absent, false, false)

  /** What the ownership of the handles allows the threads of an export to do next. */
  predicate Enabled(e: Export, a: Action) {
    match a
    case StartWorker => e.owner == Held(false)
    case Split => e.owner == Held(false)
    case DropOwner => e.owner.Held?
    case OwnerLoad => e.owner.Dropping?
    case OwnerExchange => e.owner.Loaded?
    case OwnerRelease => e.owner.Releasing?
    case BeginCommit => e.worker.Working?
    case StoreFinished => e.worker.Committed?
    case FinishBody => e.worker.Working? && e.owner == Held(true)
    case ReleaseFinished => e.worker.Stored?
    case DropWorker => e.worker.Working? || e.worker.Committed?
    case WorkerLoad => e.worker.Retiring?
    case WorkerExchange => e.worker.Inspected?
    case WorkerRelease => e.worker.Yielding?
  }

  /** One load, compare-exchange, store or release. */
  function Next(e: Export, a: Action): Export
    requires Enabled(e, a)
  {
    match a
    case StartWorker =>
      if e.phase == Ready then e.(phase := Running, worker := Working) else e
    case Split =>
      if e.phase == Ready then e.(phase := Running, worker := Working, owner := Held(true))
      else e.(owner := Dropping)
    case DropOwner => e.(owner := Dropping)
    case OwnerLoad =>
      if e.phase == Ready || e.phase == Running then e.(owner := Loaded(e.phase)) else e.(owner := Gone)
    case OwnerExchange =>
      if e.phase != e.owner.seen then e.(owner := Dropping)
      else if e.owner.seen == Ready then e.(phase := Cancelled, owner := Releasing, cancelled := true)
      else e.(phase := Cancelled, owner := Gone, cancelled := true)
    case OwnerRelease => e.(permit := false, owner := Gone)
    case BeginCommit =>
      if e.phase == Running then e.(phase := Committing, worker := Committed, committed := true)
      else e.(worker := Retiring)
    case StoreFinished => e.(phase := Finished, worker := Stored)
    case FinishBody => e.(phase := Finished, worker := Stored, committed := true)
    case ReleaseFinished => e.(permit := false, worker := Retiring)
    case DropWorker => e.(worker := Retiring)
    case WorkerLoad =>
      if e.phase == Running || e.phase == Committing then e.(worker := Inspected(e.phase))
      else if e.phase == Cancelled then e.(worker := Yielding)
      else e.(worker := Left)
    case WorkerExchange =>
      if e.worker.seen == Committing then
        if e.phase == Committing then e.(phase := Finished, worker := Yielding) else e.(worker := Left)
      else if e.phase != e.worker.seen then e.(worker := Retiring)
      else e.(phase := Cancelled, worker := Yielding, cancelled := true)
    case WorkerRelease => e.(permit := false, worker := Left)
  }

  /** A lease whose work has not been closed off by storing Finished or by giving the permit back. */
  predicate LiveWorker(e: Export) {
    e.worker.Working? || e.worker.Committed? || e.worker.Inspected? || e.worker.Yielding?
    || (e.worker.Retiring? && e.phase != Finished)
  }

  predicate HandlesGone(e: Export) {
    e.owner.Gone? && (e.worker.Absent? || e.worker.Left?)
  }

  /**
   Once the request is dropped the export is decided, and cancelled unless the commit had won; while it is held, a
   worker at work is not cancelled; and what is decided shows in the phase.
   */
  predicate Answers(e: Export) {
    && (e.owner.Gone? ==> e.cancelled || e.committed)
    && (e.owner.Held? && e.worker.Working? ==> e.phase == Running)
    && (e.cancelled <==> e.phase == Cancelled) && (e.committed <==> e.phase == Committing || e.phase == Finished)
  }

  /** What holds of an export between any two steps. */
  ghost predicate Inv(e: Export) {
    && !(e.cancelled && e.committed)
    && (e.owner.Releasing? ==> e.phase == Cancelled && e.worker.Absent?)
    && (e.owner.Gone? ==> e.phase != Ready && e.phase != Running)
    && (e.owner == Held(true) ==> e.phase != Ready)
    && (e.owner.Loaded? ==> e.owner.seen == Ready || e.owner.seen == Running)
    && match e.phase
       case Ready =>
         e.permit && e.worker.Absent? && !e.cancelled && !e.committed && (e.owner.Loaded? ==> e.owner.seen == Ready)
       case Running =>
         && e.permit && !e.cancelled && !e.committed
         && (e.worker.Working? || e.worker.Retiring? || e.worker == Inspected(Running))
         && (e.owner.Loaded? ==> e.owner.seen == Running)
       case Cancelled =>
         && e.cancelled
         && (e.worker.Absent? || e.worker.Working? || e.worker.Retiring? || e.worker == Inspected(Running)
             || e.worker.Yielding? || e.worker.Left?)
         && (e.worker.Absent? ==> (e.permit <==> e.owner.Releasing?) && (e.owner.Releasing? || e.owner.Gone?))
         && (!e.worker.Absent? ==> (e.permit <==> !e.worker.Left?))
         && (e.worker.Working? ==> !e.owner.Held?)
       case Committing =>
         e.permit && e.committed && (e.worker.Committed? || e.worker.Retiring? || e.worker == Inspected(Committing))
       case Finished =>
         && e.committed
         && (e.worker.Stored? || e.worker.Retiring? || e.worker.Yielding? || e.worker.Left?)
         && (e.permit <==> e.worker.Stored? || e.worker.Yielding?)
  }

  function Rank(p: Phase): nat {
    match p
    case Ready => 0
    case Running => 1
    case Cancelled => 2
    case Committing => 2
    case Finished => 3
  }

  function OwnerWork(o: Owner, phase: Phase): nat {
    match o
    case Held(_) => 9
    case Dropping => 2 * (3 - Rank(phase)) + 2
    case Loaded(seen) => 2 * (3 - Rank(seen)) + 1
    case Releasing => 1
    case Gone => 0
  }

  function WorkerWork(w: Worker, phase: Phase): nat {
    match w
    case Absent => 13
    case Working => 12
    case Committed => 11
    case Stored => 10
    case Retiring => 2 * (3 - Rank(phase)) + 3
    case Inspected(seen) => 2 * (3 - Rank(seen)) + 2
    case Yielding => 1
    case Left => 0
  }

  /** A bound on the steps an export still has in it. */
  function Work(e: Export): nat {
    3 - Rank(e.phase) + OwnerWork(e.owner, e.phase) + WorkerWork(e.worker, e.phase)
  }

  /** Every step keeps the invariant, never takes the permit back and never moves the phase backwards. */
  lemma StepKeeps(e: Export, a: Action)
    requires Inv(e) && Enabled(e, a)
    ensures Inv(Next(e, a))
    ensures Next(e, a).permit ==> e.permit
    ensures Next(e, a).phase != e.phase ==> Rank(Next(e, a).phase) > Rank(e.phase)
    ensures (e.cancelled ==> Next(e, a).cancelled) && (e.committed ==> Next(e, a).committed)
  {
  }

  predicate OwnerAction(a: Action) {
    a.StartWorker? || a.Split? || a.DropOwner? || a.OwnerLoad? || a.OwnerExchange? || a.OwnerRelease?
  }

  lemma OwnerStepsRunOut(e: Export, a: Action)
    requires Inv(e) && Enabled(e, a) && OwnerAction(a)
    ensures Work(Next(e, a)) < Work(e) || (a.StartWorker? && e.phase != Ready && Next(e, a) == e)
    ensures a.OwnerExchange? && Next(e, a).phase == e.phase ==> Rank(e.phase) > Rank(e.owner.seen)
  {
  }

  lemma WorkerStepsRunOut(e: Export, a: Action)
    requires Inv(e) && Enabled(e, a) && !OwnerAction(a)
    ensures Work(Next(e, a)) < Work(e)
    ensures a.WorkerExchange? && Next(e, a).phase == e.phase ==> Rank(e.phase) > Rank(e.worker.seen)
  {
  }

  /**
   Every step uses up work, except a refused start, which changes nothing. So the retry loops end: an exchange
   fails only because the phase moved on since it was read, which happens at most three times.
   */
  lemma StepsRunOut(e: Export, a: Action)
    requires Inv(e) && Enabled(e, a)
    ensures Work(Next(e, a)) < Work(e) || (a.StartWorker? && e.phase != Ready && Next(e, a) == e)
    ensures a.OwnerExchange? && Next(e, a).phase == e.phase ==> Rank(e.phase) > Rank(e.owner.seen)
    ensures a.WorkerExchange? && Next(e, a).phase == e.phase ==> Rank(e.phase) > Rank(e.worker.seen)
  {
    hide Work, Next, Inv, Enabled;
    if OwnerAction(a) {
      OwnerStepsRunOut(e, a);
    } else {
      WorkerStepsRunOut(e, a);
    }
  }

  /** While the request handle is held, a working worker is still Running: its commit, or its finished body, wins. */
  lemma HeldExportsCommit(e: Export)
    requires Inv(e) && e.owner.Held? && e.worker.Working?
    ensures e.phase == Running
    ensures Next(e, BeginCommit).phase == Committing && Next(e, BeginCommit).committed
  {
  }

  /** Whoever still has a handle can move; once both are gone exactly one outcome has won and the permit is back. */
  lemma EveryExportEnds(e: Export)
    requires Inv(e)
    ensures HandlesGone(e) <==> !exists a :: Enabled(e, a)
    ensures HandlesGone(e) ==>
              !e.permit && (e.cancelled <==> !e.committed) && e.phase == if e.cancelled then Cancelled else Finished
  {
    if !HandlesGone(e) {
      if !e.owner.Gone? {
        assert Enabled(e, DropOwner) || Enabled(e, OwnerLoad) || Enabled(e, OwnerExchange) || Enabled(e, OwnerRelease);
      } else {
        assert Enabled(e, DropWorker) || Enabled(e, ReleaseFinished) || Enabled(e, WorkerLoad)
            || Enabled(e, WorkerExchange) || Enabled(e, WorkerRelease);
      }
    }
  }

  /** How many exports hold a permit. */
  function Permits(exports: seq<Export>): nat {
    if exports == [] then 0 else Permits(exports[..|exports| - 1]) + if exports[|exports| - 1].permit then 1 else 0
  }

  function TotalWork(exports: seq<Export>): nat {
    if exports == [] then 0 else TotalWork(exports[..|exports| - 1]) + Work(exports[|exports| - 1])
  }

  lemma {:induction false} Replaced(exports: seq<Export>, i: nat, e: Export)
    requires i < |exports|
    ensures Permits(exports[i := e]) ==
            Permits(exports) - (if exports[i].permit then 1 else 0) + (if e.permit then 1 else 0)
    ensures TotalWork(exports[i := e]) == TotalWork(exports) - Work(exports[i]) + Work(e)
  {
    var n := |exports| - 1;
    if i < n {
      Replaced(exports[..n], i, e);
      assert exports[i := e][..n] == exports[..n][i := e];
    } else {
      assert exports[i := e][..n] == exports[..n];
    }
  }

  lemma {:induction false} EachHolderCounts(exports: seq<Export>, i: nat, j: nat)
    requires i < j < |exports| && exports[i].permit && exports[j].permit
    ensures Permits(exports) >= 2
  {
    Replaced(exports, i, exports[i].(permit := false));
    var rest := exports[i := exports[i].(permit := false)];
    Replaced(rest, j, rest[j].(permit := false));
  }

  /** The gate: a semaphore of one permit and every export it ever admitted. */
  class Coordinator {
    var available: nat
    var exports: seq<Export>

    ghost predicate Valid()
      reads this
    {
      available + Permits(exports) == 1 && forall e :: e in exports ==> Inv(e)
    }

    constructor ()
      ensures Valid() && exports == [] && available == 1
    {
      available, exports := 1, [];
    }

    /** Admit an export if the permit is free; None is the Busy answer. */
    method TryBegin() returns (admitted: Option<nat>)
      requires Valid()
      modifies this
      ensures Valid()
      ensures admitted.Some? <==> forall i :: 0 <= i < |old(exports)| ==> !old(exports)[i].permit
      ensures admitted.Some? ==> admitted.value == |old(exports)| && exports == old(exports) + [FRESH]
      ensures admitted.None? ==> exports == old(exports) && available == old(available)
    {
      if available == 0 {
        SomeHolder(exports);
        return None;
      }
      NoHolder(exports);
      admitted := Some(|exports|);
      available, exports := available - 1, exports + [FRESH];
      assert exports[..|exports| - 1] == old(exports);
    }

    /** One step of one export; giving up its permit returns it to the semaphore. */
    method Act(i: nat, a: Action)
      requires Valid() && i < |exports| && Enabled(exports[i], a)
      modifies this
      ensures Valid() && exports == old(exports)[i := Next(old(exports)[i], a)]
      ensures TotalWork(exports) < TotalWork(old(exports)) || exports == old(exports)
    {
      var before, after := exports[i], Next(exports[i], a);
      StepKeeps(before, a);
      StepsRunOut(before, a);
      Replaced(exports, i, after);
      if before.permit && !after.permit {
        available := available + 1;
      }
      exports := exports[i := after];
    }
  }

  lemma {:induction false} NoHolder(exports: seq<Export>)
    requires Permits(exports) == 0
    ensures forall i :: 0 <= i < |exports| ==> !exports[i].permit
  {
    if exports != [] {
      NoHolder(exports[..|exports| - 1]);
    }
  }

  lemma {:induction false} SomeHolder(exports: seq<Export>)
    requires Permits(exports) > 0
    ensures exists i :: 0 <= i < |exports| && exports[i].permit
  {
    if !exports[|exports| - 1].permit {
      SomeHolder(exports[..|exports| - 1]);
      var i :| 0 <= i < |exports| - 1 && exports[..|exports| - 1][i].permit;
      assert exports[i].permit;
    } else {
      assert exports[|exports| - 1].permit;
    }
  }

  // Whole runs.

  /** A turn of the schedule: someone asks for an export, or a holder of a handle of export `i` takes a step. */
  datatype Turn = Begin | Take(i: nat, action: Action)

  predicate Idle(exports: seq<Export>) {
    forall i :: 0 <= i < |exports| ==> !exports[i].permit
  }

  /**
   The exports after a schedule: a request is refused while a permit is out, and a step that is not enabled is
   skipped.
   */
  function After(schedule: seq<Turn>): seq<Export> {
    if schedule == [] then []
    else
      var before := After(schedule[..|schedule| - 1]);
      match schedule[|schedule| - 1]
      case Begin => if Idle(before) then before + [FRESH] else before
      case Take(i, action) =>
        if i < |before| && Enabled(before[i], action) then before[i := Next(before[i], action)] else before
  }

  /** How many turns of the schedule changed an export. */
  function Moves(schedule: seq<Turn>): nat {
    if schedule == [] then 0
    else
      var n := |schedule| - 1;
      Moves(schedule[..n]) + if schedule[n].Take? && After(schedule[..n]) != After(schedule) then 1 else 0
  }

  /**
   Every interleaving of beginning exports and of the steps of all their handles: one export at most has a live
   worker and that export holds the permit; an export without handles holds none; cancelling and committing never
   both win, and dropping the request decides; and the steps taken are bounded by the number of exports.
   */
  method EveryInterleaving(schedule: seq<Turn>) returns (exports: seq<Export>, available: nat, steps: nat)
    ensures exports == After(schedule) && steps == Moves(schedule)
    ensures forall i, j :: 0 <= i < j < |exports| ==> !(LiveWorker(exports[i]) && LiveWorker(exports[j]))
    ensures forall e :: e in exports ==> (LiveWorker(e) ==> e.permit) && (HandlesGone(e) ==> !e.permit)
    ensures forall e :: e in exports ==> !(e.cancelled && e.committed) && Answers(e)
    ensures available == if Idle(exports) then 1 else 0
    ensures steps <= Work(FRESH) * |exports|
  {
    hide After, Moves, Next, Enabled, Work, Inv, Idle, TotalWork, Permits, LiveWorker, HandlesGone;
    var gate := new Coordinator();
    steps := 0;
    NothingYet(schedule);
    for k := 0 to |schedule|
      invariant fresh(gate) && gate.Valid() && gate.exports == After(schedule[..k]) && steps == Moves(schedule[..k])
      invariant steps + TotalWork(gate.exports) <= Work(FRESH) * |gate.exports|
    {
      var before := gate.exports;
      TurnTaken(schedule, k);
      match schedule[k] {
        case Begin =>
          var admitted := gate.TryBegin();
          OneMore(before);
        case Take(i, action) =>
          if i < |gate.exports| && Enabled(gate.exports[i], action) {
            gate.Act(i, action);
            if gate.exports != before {
              steps := steps + 1;
            }
          }
      }
    }
    assert schedule[..|schedule|] == schedule;
    exports, available := gate.exports, gate.available;
    GateFacts(exports, available);
  }

  lemma NothingYet(schedule: seq<Turn>)
    ensures After(schedule[..0]) == [] && Moves(schedule[..0]) == 0 && TotalWork([]) == 0
  {
  }

  lemma TurnTaken(schedule: seq<Turn>, k: nat)
    requires k < |schedule|
    ensures var before, after := After(schedule[..k]), After(schedule[..k + 1]);
            && after == (match schedule[k]
                         case Begin => if Idle(before) then before + [FRESH] else before
                         case Take(i, action) =>
                           if i < |before| && Enabled(before[i], action) then before[i := Next(before[i], action)]
                           else before)
            && Moves(schedule[..k + 1]) == Moves(schedule[..k]) + if schedule[k].Take? && before != after then 1 else 0
  {
    hide Next, Enabled, Idle;
    assert schedule[..k + 1][..k] == schedule[..k];
  }

  lemma OneMore(exports: seq<Export>)
    ensures TotalWork(exports + [FRESH]) == TotalWork(exports) + Work(FRESH)
    ensures Work(FRESH) * |exports + [FRESH]| == Work(FRESH) * |exports| + Work(FRESH)
    ensures Idle(exports) <==> forall i :: 0 <= i < |exports| ==> !exports[i].permit
  {
    hide Work;
    assert (exports + [FRESH])[..|exports|] == exports;
  }

  /** What the gate and the invariant of each export say about all of them together. */
  lemma GateFacts(exports: seq<Export>, available: nat)
    requires available + Permits(exports) == 1 && forall e :: e in exports ==> Inv(e)
    ensures forall i, j :: 0 <= i < j < |exports| ==> !(LiveWorker(exports[i]) && LiveWorker(exports[j]))
    ensures forall e :: e in exports ==> (LiveWorker(e) ==> e.permit) && (HandlesGone(e) ==> !e.permit)
    ensures forall e :: e in exports ==> !(e.cancelled && e.committed) && Answers(e)
    ensures available == if Idle(exports) then 1 else 0
  {
    ExportFacts(exports);
    hide Inv, LiveWorker, HandlesGone, Permits;
    forall i, j | 0 <= i < j < |exports|
      ensures !(LiveWorker(exports[i]) && LiveWorker(exports[j]))
    {
      assert exports[i] in exports && exports[j] in exports;
      if exports[i].permit && exports[j].permit {
        EachHolderCounts(exports, i, j);
      }
    }
    if available == 1 {
      NoHolder(exports);
    } else {
      SomeHolder(exports);
    }
  }

  lemma ExportFacts(exports: seq<Export>)
    requires forall e :: e in exports ==> Inv(e)
    ensures forall e :: e in exports ==> (LiveWorker(e) ==> e.permit) && (HandlesGone(e) ==> !e.permit)
    ensures forall e :: e in exports ==> !(e.cancelled && e.committed) && Answers(e)
  {
  }
}
