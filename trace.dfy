/** Sequences of calls into the observed-state cache interleaved with clock
    ticks, for properties that relate several calls. */
module Trace {
  import opened Clock
  import opened ObservedState

  /** One step: a call of either write, or the clock moving forward. */
  datatype Event<T> = Update(ler: T) | UpdateIfDifferent(ler: T) | Tick(d: nat)

  /** The cache together with the clock's reading. */
  datatype World<T> = World(obs: Observation<T>, now: Time)

  /** The effect of one event. A write reads the clock and leaves it alone. */
  ghost function Step<T>(w: World<T>, e: Event<T>): (w': World<T>)
  {
    match e
    case Update(ler) => World(Refresh(w.obs, ler, w.now), w.now)
    case UpdateIfDifferent(ler) => World(RefreshIfDifferent(w.obs, ler, w.now), w.now)
    case Tick(d) => World(w.obs, w.now + d)
  }

  /** The effect of a sequence of events, first event first. */
  ghost function Run<T>(w: World<T>, es: seq<Event<T>>): (w': World<T>)
    decreases |es|
  {
    if es == [] then w else Run(Step(w, es[0]), es[1..])
  }

  /** How far the clock moves over `es`. */
  ghost function Ticks<T>(es: seq<Event<T>>): (n: nat)
    decreases |es|
  {
    if es == [] then 0 else (if es[0].Tick? then es[0].d else 0) + Ticks(es[1..])
  }

  /** Running `es` then `e` is stepping `e` after running `es`. */
  lemma {:induction false} RunSnoc<T>(w: World<T>, es: seq<Event<T>>, e: Event<T>)
    ensures Run(w, es + [e]) == Step(Run(w, es), e)
    decreases |es|
  {
    if es == [] {
      assert [] + [e] == [e];
    } else {
      assert (es + [e])[1..] == es[1..] + [e];
      RunSnoc(Step(w, es[0]), es[1..], e);
    }
  }

  /** Only ticks move the clock, by exactly their total. */
  lemma {:induction false} RunAdvancesClock<T>(w: World<T>, es: seq<Event<T>>)
    ensures Run(w, es).now == w.now + Ticks(es)
    decreases |es|
  {
    if es != [] {
      RunAdvancesClock(Step(w, es[0]), es[1..]);
    }
  }

  /** The observation is never taken after the clock's reading, so the
      elapsed time the cache reports is never negative. */
  lemma {:induction false} RunKeepsObservationInPast<T>(w: World<T>, es: seq<Event<T>>)
    requires w.obs.time <= w.now
    ensures Run(w, es).obs.time <= Run(w, es).now
    ensures Elapsed(Run(w, es).obs, Run(w, es).now) >= 0
    decreases |es|
  {
    if es != [] {
      RunKeepsObservationInPast(Step(w, es[0]), es[1..]);
    }
  }

  /** Observing the cached record again and again, through the conditional
      write, while the clock moves: the cache does not change, and the elapsed
      time grows by exactly the time that passed. A holder whose record never
      changes therefore goes stale. */
  lemma {:induction false} RepeatedObservationGoesStale<T>(w: World<T>, es: seq<Event<T>>)
    requires forall i :: 0 <= i < |es| ==> es[i].Tick? || es[i] == UpdateIfDifferent(w.obs.record)
    ensures Run(w, es).obs == w.obs
    ensures Elapsed(Run(w, es).obs, Run(w, es).now) == Elapsed(w.obs, w.now) + Ticks(es)
    decreases |es|
  {
    if es != [] {
      var w' := Step(w, es[0]);
      assert w'.obs == w.obs;
      assert forall i :: 0 <= i < |es[1..]| ==> es[1..][i] == es[i + 1];
      RepeatedObservationGoesStale(w', es[1..]);
    }
  }

  /** The unconditional write always restarts the staleness count: right after
      it the elapsed time is 0 and the clock reads the total of the ticks. */
  lemma UpdateRestartsStaleness<T>(w: World<T>, es: seq<Event<T>>, ler: T)
    ensures Run(w, es + [Update(ler)]).obs == Observation(ler, w.now + Ticks(es))
    ensures Elapsed(Run(w, es + [Update(ler)]).obs, Run(w, es + [Update(ler)]).now) == 0
  {
    RunSnoc(w, es, Update(ler));
    RunAdvancesClock(w, es);
  }

  /** Whether `e` is a write carrying `r`. */
  ghost predicate Writes<T>(e: Event<T>, r: T)
  {
    (e.Update? || e.UpdateIfDifferent?) && e.ler == r
  }

  /** Records are never made up: the cached record is either the one the run
      started with or one that some write in the run carried. */
  lemma {:induction false} RecordComesFromWrite<T>(w: World<T>, es: seq<Event<T>>)
    ensures Run(w, es).obs.record == w.obs.record
         || exists i :: 0 <= i < |es| && Writes(es[i], Run(w, es).obs.record)
    decreases |es|
  {
    if es != [] {
      var w' := Step(w, es[0]);
      var r := Run(w, es).obs.record;
      RecordComesFromWrite(w', es[1..]);
      if r == w'.obs.record {
        if r != w.obs.record {
          assert Writes(es[0], r);
        }
      } else {
        var i :| 0 <= i < |es[1..]| && Writes(es[1..][i], r);
        assert Writes(es[i + 1], r);
      }
    }
  }
}
