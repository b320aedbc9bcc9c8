/** The leader elector's cache of the last election record it observed,
    together with the clock reading at the moment that record was stored. */
module ObservedState {
  import opened Clock

  /** The abstract value of the cache: the record and its observation time. */
  datatype Observation<T> = Observation(record: T, time: Time)

  /** How long ago the cached observation was taken, read at `now`. */
  function Elapsed<T>(s: Observation<T>, now: Time): (d: Duration)
  {
    now - s.time
  }

  /** The unconditional write: the incoming record replaces the cached one
      and the observation time is the current reading, whatever was there. */
  function Refresh<T>(s: Observation<T>, ler: T, now: Time): (t: Observation<T>)
    ensures t.record == ler
    ensures Elapsed(t, now) == 0
  {
    Observation(ler, now)
  }

  /** The conditional write: both fields change together, and only when the
      incoming record differs structurally from the cached one. */
  function RefreshIfDifferent<T(==)>(s: Observation<T>, ler: T, now: Time): (t: Observation<T>)
    ensures t.record == ler
    ensures t == s <==> s.record == ler
    ensures t != s ==> t == Refresh(s, ler, now)
  {
    if s.record == ler then s else Refresh(s, ler, now)
  }

  /** Two conditional writes of the same record leave what one leaves, whatever
      the clock did in between. */
  lemma RefreshIfDifferentIdempotent<T>(s: Observation<T>, ler: T, now1: Time, now2: Time)
    ensures RefreshIfDifferent(RefreshIfDifferent(s, ler, now1), ler, now2)
         == RefreshIfDifferent(s, ler, now1)
  {
  }

  /** Re-observing the cached record: the unconditional write restarts the
      staleness count, the conditional one keeps the old observation time. */
  lemma EqualRecordContrast<T>(s: Observation<T>, ler: T, now: Time)
    requires s.record == ler
    ensures Refresh(s, ler, now).time == now
    ensures RefreshIfDifferent(s, ler, now).time == s.time
    ensures Elapsed(RefreshIfDifferent(s, ler, now), now) == now - s.time
  {
  }

  /** The observed-state cache. The reader/writer lock of `leaderElectorState` is not
      modelled: each method is one atomic step. */
  class LeaderElectorState<T(==)> {
    var observedRecord: T
    var observedTime: Time
    /** The injected clock, shared with the rest of the election client. */
    const clock: FakeClock

    /** The cache as a value. */
    ghost function State(): Observation<T>
      reads this
    {
      Observation(observedRecord, observedTime)
    }

    /** The observation was not taken after the clock's current reading. */
    ghost predicate Valid()
      reads this, clock
    {
      observedTime <= clock.now
    }

    /** A fresh cache holds the zero record with the zero observation time. */
    constructor (zero: T, clock: FakeClock)
      ensures this.clock == clock
      ensures observedRecord == zero && observedTime == 0
      ensures Valid()
    {
      this.clock := clock;
      observedRecord := zero;
      observedTime := 0;
    }

    /** Stores `ler` and stamps it with the current reading, unconditionally. */
    method UpdateRecord(ler: T)
      modifies this
      ensures observedRecord == ler && observedTime == clock.now
      ensures State() == Refresh(old(State()), ler, clock.now)
      ensures Valid()
    {
      observedRecord := ler;
      observedTime := clock.Now();
    }

    /** Stores `ler` with the current reading only if it differs from the
        cached record; an equal record leaves both fields as they were, so a
        record that never changes goes stale. */
    method UpdateRecordIfDifferent(ler: T)
      modifies this
      ensures old(observedRecord) == ler ==>
                observedRecord == old(observedRecord) && observedTime == old(observedTime)
      ensures old(observedRecord) != ler ==>
                observedRecord == ler && observedTime == clock.now
      ensures State() == RefreshIfDifferent(old(State()), ler, clock.now)
      ensures old(Valid()) ==> Valid()
    {
      if observedRecord != ler {
        observedRecord := ler;
        observedTime := clock.Now();
      }
    }

    /** The observation time of the cached record. */
    method CurrentTime() returns (t: Time)
      ensures t == observedTime
    {
      t := observedTime;
    }

    /** The time since the cached record was stored, read from the clock. */
    method ElapsedTime() returns (d: Duration)
      ensures d == clock.now - observedTime
      ensures Valid() ==> d >= 0
    {
      d := clock.Since(observedTime);
    }

    /** The cached record. */
    method CurrentRecord() returns (r: T)
      ensures r == observedRecord
    {
      r := observedRecord;
    }
  }
}
