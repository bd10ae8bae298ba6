/**
The liveness upload slot: `waitForLivenessUploadTurn`, `releaseLivenessUploadSlot` and
`cancelLivenessUploadWaiters` of `VerificationSession+UploadState.swift`, a first-in first-out mutex
whose release hands the slot to the next waiter.  All three run on one actor, so each is one step.
*/
module UploadSlot {
  import opened Wrappers

  // A waiting task, named by its continuation.
  type Ticket = nat

  datatype Resumption = Granted | CancelledByReset

  datatype Slot = Slot(inFlight: bool, waiters: seq<Ticket>)

  // ---- The three operations on the slot's two fields ----

  class LivenessUpload {
    var livenessUploadInFlight: bool
    var livenessUploadWaiters: seq<Ticket>

    constructor ()
      ensures Value() == Slot(false, [])
    {
      livenessUploadInFlight, livenessUploadWaiters := false, [];
    }

    ghost function Value(): Slot
      reads this
    {
      Slot(livenessUploadInFlight, livenessUploadWaiters)
    }

    /** True when the task may go on at once; otherwise its continuation is queued. */
    method WaitForTurn(ticket: Ticket) returns (immediately: bool)
      modifies this
      ensures immediately == !old(livenessUploadInFlight) && livenessUploadInFlight
      ensures livenessUploadWaiters == old(livenessUploadWaiters) + if immediately then [] else [ticket]
      ensures Value() == Step(old(Value()), Acquire(ticket))
    {
      if !livenessUploadInFlight {
        livenessUploadInFlight := true;
        return true;
      }
      livenessUploadWaiters := livenessUploadWaiters + [ticket];
      immediately := false;
    }

    /** The waiter, if any, that the slot is handed to. */
    method Release() returns (next: Option<Ticket>)
      modifies this
      ensures match next
              case None => old(livenessUploadWaiters) == [] == livenessUploadWaiters && !livenessUploadInFlight
              case Some(t) =>
                && [t] + livenessUploadWaiters == old(livenessUploadWaiters)
                && livenessUploadInFlight == old(livenessUploadInFlight)
      ensures forall t :: Value() == Step(old(Value()), Return(t))
    {
      if livenessUploadWaiters == [] {
        livenessUploadInFlight := false;
        return None;
      }
      next := Some(livenessUploadWaiters[0]);
      livenessUploadWaiters := livenessUploadWaiters[1..];
    }

    /** The waiters, in order, that are resumed with a cancellation error. */
    method CancelWaiters() returns (resumed: seq<Ticket>)
      modifies this
      ensures resumed == old(livenessUploadWaiters)
      ensures Value() == Slot(false, []) == Step(old(Value()), CancelAll)
    {
      var waiters := livenessUploadWaiters;
      livenessUploadWaiters := [];
      livenessUploadInFlight := false;
      resumed := [];
      for i := 0 to |waiters|
        invariant resumed == waiters[..i]
      {
        resumed := resumed + [waiters[i]];
      }
    }
  }

  // ---- Runs ----

  // A task asks for the slot, a holder gives it back, or a reset cancels all waiters.
  datatype Event = Acquire(ticket: Ticket) | Return(holder: Ticket) | CancelAll

  function Step(s: Slot, e: Event): Slot {
    match e
    case Acquire(t) => if s.inFlight then Slot(true, s.waiters + [t]) else Slot(true, s.waiters)
    case Return(_) => if s.waiters == [] then Slot(false, []) else Slot(s.inFlight, s.waiters[1..])
    case CancelAll => Slot(false, [])
  }

  // The slot with the history of a run: who asked, who was queued, and in which order and how
  // every queued continuation was resumed.  `holders` have been let through and not yet released.
  datatype World = World(slot: Slot, asked: set<Ticket>, holders: set<Ticket>, queued: seq<Ticket>,
                         resumed: seq<(Ticket, Resumption)>, cancels: nat)

  const START := World(Slot(false, []), {}, {}, [], [], 0)

  /** Tickets are new, and only a task that was let through runs the deferred release. */
  predicate Enabled(w: World, e: Event) {
    match e
    case Acquire(t) => t !in w.asked
    case Return(t) => t in w.holders
    case CancelAll => true
  }

  function Tag(tickets: seq<Ticket>, how: Resumption): (r: seq<(Ticket, Resumption)>)
    ensures |r| == |tickets| && forall i | 0 <= i < |r| :: r[i] == (tickets[i], how)
  {
    seq(|tickets|, i requires 0 <= i < |tickets| => (tickets[i], how))
  }

  function Next(w: World, e: Event): World {
    var slot := Step(w.slot, e);
    match e
    case Acquire(t) =>
      if w.slot.inFlight then w.(slot := slot, asked := w.asked + {t}, queued := w.queued + [t])
      else w.(slot := slot, asked := w.asked + {t}, holders := w.holders + {t})
    case Return(t) =>
      if w.slot.waiters == [] then w.(slot := slot, holders := w.holders - {t})
      else
        var next := w.slot.waiters[0];
        w.(slot := slot, holders := w.holders - {t} + {next}, resumed := w.resumed + Tag([next], Granted))
    case CancelAll =>
      w.(slot := slot, resumed := w.resumed + Tag(w.slot.waiters, CancelledByReset), cancels := w.cancels + 1)
  }

  /** The world after a run from the start; a step that is not enabled does not happen. */
  function After(run: seq<Event>): World {
    if run == [] then START
    else
      var w := After(run[..|run| - 1]);
      var e := run[|run| - 1];
      if Enabled(w, e) then Next(w, e) else w
  }

  function Names(resumed: seq<(Ticket, Resumption)>): (r: seq<Ticket>)
    ensures |r| == |resumed| && forall i | 0 <= i < |r| :: r[i] == resumed[i].0
  {
    seq(|resumed|, i requires 0 <= i < |resumed| => resumed[i].0)
  }

  ghost predicate Invariant(w: World) {
    && (w.slot.waiters != [] ==> w.slot.inFlight)
    && w.queued == Names(w.resumed) + w.slot.waiters
    && Distinct(w.queued)
    && (forall t <- w.queued :: t in w.asked)
    && w.holders <= w.asked && (forall t <- w.slot.waiters :: t !in w.holders)
    && |w.holders| <= (if w.slot.inFlight then 1 else 0) + w.cancels
    && (w.cancels == 0 ==> |w.holders| == if w.slot.inFlight then 1 else 0)
  }

  lemma AcquireKeepsInvariant(w: World, t: Ticket)
    requires Invariant(w) && t !in w.asked
    ensures Invariant(Next(w, Acquire(t)))
  {
    assert t !in w.queued && t !in w.holders;
  }

  lemma ReturnKeepsInvariant(w: World, t: Ticket)
    requires Invariant(w) && t in w.holders
    ensures Invariant(Next(w, Return(t)))
  {
    var w' := Next(w, Return(t));
    assert |w.holders - {t}| == |w.holders| - 1;
    if w.slot.waiters != [] {
      var next := w.slot.waiters[0];
      assert Names(w'.resumed) == Names(w.resumed) + [next];
      assert w'.queued == Names(w'.resumed) + w'.slot.waiters;
      assert next in w.queued;
      QueueTailDistinct(w);
    }
  }

  lemma CancelKeepsInvariant(w: World)
    requires Invariant(w)
    ensures Invariant(Next(w, CancelAll))
  {
    var w' := Next(w, CancelAll);
    assert Names(w'.resumed) == Names(w.resumed) + w.slot.waiters;
    assert w'.queued == Names(w'.resumed) + w'.slot.waiters;
  }

  lemma StepKeepsInvariant(w: World, e: Event)
    requires Invariant(w) && Enabled(w, e)
    ensures Invariant(Next(w, e))
  {
    hide Invariant, Next;
    match e
    case Acquire(t) => AcquireKeepsInvariant(w, t);
    case Return(t) => ReturnKeepsInvariant(w, t);
    case CancelAll => CancelKeepsInvariant(w);
  }

  lemma QueueTailDistinct(w: World)
    requires w.slot.waiters != [] && w.queued == Names(w.resumed) + w.slot.waiters && Distinct(w.queued)
    ensures w.slot.waiters[0] !in w.slot.waiters[1..]
  {
    var k := |w.resumed|;
    assert w.queued[k] == w.slot.waiters[0];
    forall i | 1 <= i < |w.slot.waiters| ensures w.slot.waiters[i] != w.slot.waiters[0] {
      assert w.queued[k + i] == w.slot.waiters[i];
    }
  }

  lemma {:induction false} Reachable(run: seq<Event>)
    ensures Invariant(After(run))
  {
    if run != [] {
      Reachable(run[..|run| - 1]);
      var w, e := After(run[..|run| - 1]), run[|run| - 1];
      if Enabled(w, e) {
        StepKeepsInvariant(w, e);
      }
    }
  }

  /**
  In every run: waiters exist only behind a holder of the slot; the queued continuations are
  resumed in the order they queued, none twice and none dropped; and there are never more holders
  than the slot accounts for plus one for each cancellation.
  */
  lemma SlotSafety(run: seq<Event>)
    ensures var w := After(run);
            && (w.slot.waiters != [] ==> w.slot.inFlight)
            && Names(w.resumed) + w.slot.waiters == w.queued && Distinct(w.queued)
            && |w.holders| <= (if w.slot.inFlight then 1 else 0) + w.cancels
  {
    Reachable(run);
  }

  /** Without cancellation it is a mutex: exactly one holder while in flight, none otherwise. */
  lemma {:induction false} MutualExclusion(run: seq<Event>)
    requires CancelAll !in run
    ensures var w := After(run);
            |w.holders| == (if w.slot.inFlight then 1 else 0)
            && forall r <- w.resumed :: r.1 == Granted
  {
    Reachable(run);
    NoCancel(run);
  }

  lemma {:induction false} NoCancel(run: seq<Event>)
    requires CancelAll !in run
    ensures After(run).cancels == 0 && forall r <- After(run).resumed :: r.1 == Granted
  {
    if run != [] {
      assert run[|run| - 1] in run;
      NoCancel(run[..|run| - 1]);
    }
  }

  /** No holder is unaccounted for: then, until the next cancellation, there is at most one. */
  predicate Exclusive(w: World) {
    |w.holders| == if w.slot.inFlight then 1 else 0
  }

  lemma ExclusiveSteps(w: World, e: Event)
    requires Invariant(w) && Enabled(w, e) && Exclusive(w)
    ensures Exclusive(Next(w, e)) <==> (e == CancelAll ==> w.holders == {})
  {
    match e
    case Acquire(t) =>
    case Return(t) =>
      assert |w.holders - {t}| == |w.holders| - 1;
    case CancelAll =>
      assert |w.holders| == 0 <==> w.holders == {};
  }

  /** Some task has gone on while an earlier one still holds the slot. */
  ghost predicate CanOverlap(w: World) {
    exists t: Ticket :: Enabled(w, Acquire(t)) && |Next(w, Acquire(t)).holders| > 1
  }

  lemma FreshTicket(asked: set<Ticket>) returns (t: Ticket)
    ensures t !in asked
  {
    if asked == {} {
      t := 0;
    } else {
      var m := Largest(asked);
      t := m + 1;
    }
  }

  lemma {:induction false} Largest(s: set<Ticket>) returns (m: Ticket)
    requires s != {}
    ensures forall t <- s :: t <= m
  {
    var x :| x in s;
    if s == {x} {
      m := x;
    } else {
      var y := Largest(s - {x});
      m := if x < y then y else x;
      assert forall t <- s :: t == x || t in s - {x};
    }
  }

  /**
  Exactly when a cancellation breaks the mutex: from an exclusive state, the next task to ask after
  it runs beside another holder if and only if the slot was held at the cancellation.
  */
  lemma CancelBreaksExclusionIffHeld(w: World)
    requires Invariant(w) && Exclusive(w)
    ensures CanOverlap(Next(w, CancelAll)) <==> w.holders != {}
  {
    var w' := Next(w, CancelAll);
    assert w'.holders == w.holders && !w'.slot.inFlight && w'.asked == w.asked;
    if w.holders != {} {
      var t := FreshTicket(w.asked);
      var w'' := Next(w', Acquire(t));
      assert w''.holders == w.holders + {t};
      assert |w.holders| >= 1;
      assert Enabled(w', Acquire(t)) && |w''.holders| > 1;
    } else {
      forall t: Ticket | Enabled(w', Acquire(t)) ensures |Next(w', Acquire(t)).holders| <= 1 {
        assert Next(w', Acquire(t)).holders == {t};
      }
    }
  }

  /** Such a run: the first task still holds the slot when the second one is let through. */
  lemma CancelWhileHeld()
    ensures var w := After([Acquire(1), CancelAll, Acquire(2)]);
            w.holders == {1, 2} && w.slot.inFlight
  {
    var a, b, c := [Acquire(1)], [Acquire(1), CancelAll], [Acquire(1), CancelAll, Acquire(2)];
    assert a[..0] == [] && b[..1] == a && c[..2] == b;
    assert After(a) == World(Slot(true, []), {1}, {1}, [], [], 0);
    assert After(b) == World(Slot(false, []), {1}, {1}, [], [], 1);
  }
}
