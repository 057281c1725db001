/*
 * The debouncer that throttles how often the ranking network is stored.
 *
 * Its semaphore serialises everything that touches its state, so the model
 * is a state machine with two atomic events: a request (a call to `debounce`
 * whose `request` thread has acquired the semaphore) and the firing of the
 * armed timer (the sleeping thread waking up and acquiring the semaphore).
 * Running the operation on the executor happens inside the event that
 * triggers it, since the semaphore stays held until the operation is done.
 *
 * Promises are named by the id of the request that created them; `resolved`
 * records how each was completed and `executed` which operations ran, in
 * order. Clock readings (`System.nanoTime()`) are parameters: `now` when the
 * event starts and `done` when the operation has finished.
 */
module Debouncing {
  import opened Wrappers
  import JavaArith
  import Seqs

  datatype Debouncer = Debouncer(
    interval: int,                // nanoseconds
    pending: Option<nat>,         // the promise and operation of the latest request
    scheduled: bool,              // `executionScheduled`
    lastExecution: int,           // nanoseconds
    dueAt: int,                   // when the armed timer wakes up
    timers: nat,                  // timers armed and not yet fired
    resolved: map<nat, bool>,     // completed promises and their value
    executed: seq<nat>,           // operations run, oldest first
    requested: seq<nat>)          // requests made, oldest first

  /** `new Debouncer(executor, interval)`: the interval in milliseconds, kept in nanoseconds. */
  function Create(intervalMillis: int): (d: Debouncer)
    requires JavaArith.IsLong(intervalMillis)
    ensures JavaArith.IsLong(intervalMillis * JavaArith.NanosPerMilli) ==>
      d.interval == intervalMillis * JavaArith.NanosPerMilli
    ensures JavaArith.IsLong(d.interval)
    ensures !d.scheduled && d.timers == 0 && d.lastExecution == 0 && d.pending.None?
    ensures Inv(d)
  {
    Debouncer(JavaArith.MillisToNanos(intervalMillis), None, false, 0, 0, 0, map[], [], [])
  }

  /** `CompletableFuture.complete`: only the first completion of a promise counts. */
  function Complete(resolved: map<nat, bool>, id: nat, value: bool): (r: map<nat, bool>)
    ensures id in r && (id in resolved ==> r[id] == resolved[id]) && (id !in resolved ==> r[id] == value)
    ensures forall x :: x in resolved ==> x in r && r[x] == resolved[x]
    ensures forall x :: x in r ==> x in resolved || x == id
  {
    if id in resolved then resolved else resolved[id := value]
  }

  /**
   * The consistency of the state between events: at most one timer, armed
   * exactly while an execution is scheduled; every request but the pending
   * one has its promise completed, and the pending one exactly when nothing
   * is scheduled; a promise is completed with `true` exactly when its
   * operation ran; nothing runs twice.
   */
  predicate Inv(d: Debouncer) {
    && JavaArith.IsLong(d.interval)
    && JavaArith.IsLong(d.lastExecution)
    && d.timers == (if d.scheduled then 1 else 0)
    && (d.scheduled ==> d.pending.Some?)
    && Seqs.Distinct(d.requested)
    && Seqs.Distinct(d.executed)
    && (d.pending.None? <==> |d.requested| == 0)
    && (d.pending.Some? ==> d.pending.value == d.requested[|d.requested| - 1])
    && (forall i :: 0 <= i < |d.requested| - 1 ==> d.requested[i] in d.resolved)
    && (d.pending.Some? ==> (d.pending.value in d.resolved <==> !d.scheduled))
    && (forall x :: x in d.resolved ==> x in d.requested)
    && (forall x :: x in d.resolved ==> (d.resolved[x] <==> x in d.executed))
    && (forall i :: 0 <= i < |d.executed| ==> d.executed[i] in d.resolved)
  }

  /** `execute()`: run the pending operation, complete its promise with `true`, note when it finished. */
  function Execute(d: Debouncer, done: int): (r: Debouncer)
    requires d.pending.Some?
  {
    var id := d.pending.value;
    d.(executed := d.executed + [id],
       resolved := Complete(d.resolved, id, true),
       lastExecution := JavaArith.WrapLong(done),
       scheduled := false)
  }

  /** The wait `request` computes: the rest of the interval, truncated to milliseconds, in `long` arithmetic. */
  function MillisToWait(d: Debouncer, now: int): (ms: int)
  {
    JavaArith.NanosToMillis(JavaArith.WrapLong(d.interval - JavaArith.WrapLong(now - d.lastExecution)))
  }

  /** The arithmetic of the wait does not overflow a `long`. */
  predicate NoWrap(d: Debouncer, now: int) {
    JavaArith.IsLong(now - d.lastExecution) && JavaArith.IsLong(d.interval - (now - d.lastExecution))
  }

  /** Without overflow, the wait is positive exactly when less than the interval minus a millisecond has passed. */
  lemma MillisToWaitPositive(d: Debouncer, now: int)
    requires NoWrap(d, now)
    ensures MillisToWait(d, now) > 0 <==> now - d.lastExecution <= d.interval - JavaArith.NanosPerMilli
    ensures MillisToWait(d, now) > 0 ==>
      now + MillisToWait(d, now) * JavaArith.NanosPerMilli - d.lastExecution > d.interval - JavaArith.NanosPerMilli
  {
  }

  /**
   * `request(runnable, promise)`: a superseded pending promise completes with
   * `false`; the new request becomes the pending one; if nothing was
   * scheduled, it runs at once when the interval has (nearly) passed and
   * otherwise arms a timer for the rest of it.
   */
  function Request(d: Debouncer, id: nat, now: int, done: int): (r: Debouncer)
    requires Inv(d) && id !in d.requested
    ensures Inv(r)
    ensures r.pending == Some(id) && r.requested == d.requested + [id] && r.interval == d.interval
    ensures d.scheduled ==> r.resolved == d.resolved[d.pending.value := false]
    ensures d.scheduled ==> r.scheduled && r.timers == 1 && r.dueAt == d.dueAt && r.executed == d.executed
    ensures d.scheduled ==> r.lastExecution == d.lastExecution
    ensures !d.scheduled && MillisToWait(d, now) <= 0 ==>
      && !r.scheduled && r.timers == 0
      && r.executed == d.executed + [id] && r.resolved == d.resolved[id := true]
      && r.lastExecution == JavaArith.WrapLong(done)
    ensures !d.scheduled && MillisToWait(d, now) > 0 ==>
      && r.scheduled && r.timers == 1 && r.executed == d.executed && r.resolved == d.resolved
      && r.dueAt == now + MillisToWait(d, now) * JavaArith.NanosPerMilli
      && r.lastExecution == d.lastExecution
  {
    if d.scheduled then Supersede(d, id)
    else
      var wait := MillisToWait(d, now);
      if wait <= 0 then
        Execute(Install(d, id), done)
      else
        Install(d, id).(scheduled := true, timers := d.timers + 1, dueAt := now + wait * JavaArith.NanosPerMilli)
  }

  /** The new request becomes the pending one. */
  function Install(d: Debouncer, id: nat): (r: Debouncer)
    requires Inv(d) && id !in d.requested && !d.scheduled
    ensures r.pending == Some(id) && r.requested == d.requested + [id]
    ensures Inv(r.(resolved := r.resolved[id := true], executed := r.executed + [id]))
    ensures Inv(r.(scheduled := true, timers := 1))
  {
    d.(pending := Some(id), requested := d.requested + [id])
  }

  /** A request while an execution is scheduled: the pending promise completes with `false` and the new one waits for the armed timer. */
  function Supersede(d: Debouncer, id: nat): (r: Debouncer)
    requires Inv(d) && id !in d.requested && d.scheduled
    ensures Inv(r)
    ensures r.pending == Some(id) && r.requested == d.requested + [id]
  {
    var superseded := d.(resolved := Complete(d.resolved, d.pending.value, false));
    superseded.(pending := Some(id), requested := d.requested + [id])
  }

  /**
   * The armed timer wakes up (`Thread.sleep(millis)` has passed) and runs
   * whatever operation is pending by then.
   */
  function Fire(d: Debouncer, now: int, done: int): (r: Debouncer)
    requires Inv(d) && d.timers > 0 && now >= d.dueAt
    ensures Inv(r)
    ensures !r.scheduled && r.timers == 0 && r.interval == d.interval
    ensures r.pending == d.pending && r.requested == d.requested
    ensures r.executed == d.executed + [d.pending.value]
    ensures r.resolved == d.resolved[d.pending.value := true]
    ensures r.lastExecution == JavaArith.WrapLong(done)
  {
    Execute(d.(timers := d.timers - 1), done)
  }

  // ---------------------------------------------------------------------------
  // Properties across events
  // ---------------------------------------------------------------------------

  /** A completed promise keeps its value: every promise is completed at most once. */
  lemma RequestKeepsCompletions(d: Debouncer, id: nat, now: int, done: int)
    requires Inv(d) && id !in d.requested
    ensures forall x :: x in d.resolved ==>
      x in Request(d, id, now, done).resolved && Request(d, id, now, done).resolved[x] == d.resolved[x]
  {
  }

  lemma FireKeepsCompletions(d: Debouncer, now: int, done: int)
    requires Inv(d) && d.timers > 0 && now >= d.dueAt
    ensures forall x :: x in d.resolved ==> x in Fire(d, now, done).resolved && Fire(d, now, done).resolved[x] == d.resolved[x]
  {
  }

  /** With no timer armed every request so far has its promise completed: nothing is left waiting. */
  lemma IdleMeansSettled(d: Debouncer)
    requires Inv(d) && d.timers == 0
    ensures forall i :: 0 <= i < |d.requested| ==> d.requested[i] in d.resolved
  {
  }

  /** The execution is due no sooner than the interval minus a millisecond after the last one finished. */
  predicate Spaced(d: Debouncer) {
    d.scheduled ==> d.dueAt - d.lastExecution > d.interval - JavaArith.NanosPerMilli
  }

  /**
   * Requests never bring an execution closer than the interval minus one
   * millisecond (the truncation to whole milliseconds) after the previous one
   * finished, as long as the clock arithmetic does not overflow.
   */
  lemma RequestSpacing(d: Debouncer, id: nat, now: int, done: int)
    requires Inv(d) && id !in d.requested && Spaced(d) && NoWrap(d, now)
    ensures Spaced(Request(d, id, now, done))
    ensures |Request(d, id, now, done).executed| > |d.executed| ==>
      now - d.lastExecution > d.interval - JavaArith.NanosPerMilli
  {
    if !d.scheduled {
      MillisToWaitPositive(d, now);
    }
  }

  lemma FireSpacing(d: Debouncer, now: int, done: int)
    requires Inv(d) && d.timers > 0 && now >= d.dueAt && Spaced(d)
    ensures now - d.lastExecution > d.interval - JavaArith.NanosPerMilli
    ensures Spaced(Fire(d, now, done))
  {
  }

  /**
   * Three requests in quick succession with a 50 ms interval, then the
   * timer: the first runs at once, the second is superseded by the third,
   * and the third runs when the timer fires.
   */
  lemma SkipIntermediateExample()
    ensures
      var t := 1_000_000_000_000;
      var ms := JavaArith.NanosPerMilli;
      var d0 := Create(50);
      var d1 := Request(d0, 1, t, t);
      var d2 := Request(d1, 2, t + ms, t + ms);
      var d3 := Request(d2, 3, t + 2 * ms, t + 2 * ms);
      && d2.timers == 1 && d2.dueAt == t + 50 * ms
      && d3.timers == 1
      && var d4 := Fire(d3, t + 50 * ms, t + 50 * ms);
      && d4.resolved == map[1 := true, 2 := false, 3 := true]
      && d4.executed == [1, 3]
  {
    var t := 1_000_000_000_000;
    var ms := JavaArith.NanosPerMilli;
    var d0 := Create(50);
    assert d0.interval == 50 * ms;
    assert MillisToWait(d0, t) <= 0;
    var d1 := Request(d0, 1, t, t);
    assert d1.lastExecution == t;
    assert MillisToWait(d1, t + ms) == 49;
    var d2 := Request(d1, 2, t + ms, t + ms);
    var d3 := Request(d2, 3, t + 2 * ms, t + 2 * ms);
    var d4 := Fire(d3, t + 50 * ms, t + 50 * ms);
  }
}
