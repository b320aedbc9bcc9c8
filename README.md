# Leader election: the observed-state cache

The Kubernetes leader-election client keeps a small cache of the last election record it
observed from the coordination backend (`leaderElectorState`). The cache also keeps the clock
reading taken when that record was stored. The election loop later asks the cache how long ago
that was. If the time is long enough, it concludes that the current holder stopped renewing its
lease.

The cache has two writes:

- `updateRecord` always stores the incoming record and stamps it with the current reading.
- `updateRecordIfDifferent` does the same, but only when the incoming record differs
  structurally from the cached one. An unchanged record therefore keeps its old timestamp and
  goes stale.

It has three reads: `currentRecord`, `currentTime` and `elapsedTime`. The last one is the clock's
current reading minus the stored timestamp.

The model has four modules:

- `Clock` (`clock.dfy`): an injectable fake clock, `FakeClock`, with a natural-number reading
  `now` and `Advance(d)`. Reading 0 is the zero instant, the value an unset timestamp holds.
- `ObservedState` (`state.dfy`): the class `LeaderElectorState<T>`. Its fields are
  `observedRecord`, `observedTime` and the shared `clock`. Each of its methods is one atomic step.
  The same module has the abstract value of the cache, `Observation(record, time)`. It also has
  the two pure transition functions that specify the writes, `Refresh` and `RefreshIfDifferent`,
  and lemmas about them.
- `Trace` (`trace.dfy`): writes and clock ticks in sequence (`Event`, `Step`, `Run`), and
  lemmas about any number of calls. These cover staleness under repeated observation, how far the
  clock moves, the elapsed time never being negative, and where the cached record comes from.
- `ElectionRecord` (`record.dfy`): a concrete election record has holder identity, lease
  duration, acquire and renew times, and a transition count. Equality compares every field.
  `StalenessScenario` is a client of the class: holder A is observed at time 0 and again,
  unchanged, at time 5, when the elapsed time is 5. Then holder B replaces A and the elapsed time
  is 0. A later unconditional write refreshes the timestamp.

## Model

| member | source | states |
|---|---|---|
| `ObservedState.LeaderElectorState.constructor` | staging/src/k8s.io/client-go/tools/leaderelection/state.go:28-35 | a new cache holds the zero record with the zero observation time and uses the injected clock |
| `ObservedState.LeaderElectorState.UpdateRecord` | staging/src/k8s.io/client-go/tools/leaderelection/state.go:37-42 | whatever was cached, the record becomes `ler` and the time becomes the clock's current reading; the clock is not moved |
| `ObservedState.LeaderElectorState.UpdateRecordIfDifferent` | staging/src/k8s.io/client-go/tools/leaderelection/state.go:44-51 | an equal record leaves both fields exactly as they were, even if the clock has advanced; a different record sets the record to `ler` and the time to the current reading |
| `ObservedState.LeaderElectorState.CurrentTime` | staging/src/k8s.io/client-go/tools/leaderelection/state.go:53-57 | returns the stored observation time and changes nothing |
| `ObservedState.LeaderElectorState.ElapsedTime` | staging/src/k8s.io/client-go/tools/leaderelection/state.go:59-63 | returns the clock's current reading minus the observation time, changes nothing, and is never negative while the observation is not in the future |
| `ObservedState.LeaderElectorState.CurrentRecord` | staging/src/k8s.io/client-go/tools/leaderelection/state.go:65-69 | returns the stored record and changes nothing |
| `ObservedState.Refresh` | staging/src/k8s.io/client-go/tools/leaderelection/state.go:40-41 | after the unconditional write the record is the incoming one and the elapsed time at that instant is 0 |
| `ObservedState.RefreshIfDifferent` | staging/src/k8s.io/client-go/tools/leaderelection/state.go:47-50 | after the conditional write the record is always the incoming one; the cache is unchanged if and only if the incoming record equals the cached one; otherwise both fields take the new values together |
| `ObservedState.RefreshIfDifferentIdempotent` | staging/src/k8s.io/client-go/tools/leaderelection/state.go:44-51 | two conditional writes of the same record leave the same cache as one, whatever the clock read at each |
| `ObservedState.EqualRecordContrast` | staging/src/k8s.io/client-go/tools/leaderelection/state.go:37-51 | for a record equal to the cached one, the unconditional write moves the time to the current reading and the conditional write keeps the old time |
| `Trace.RunAdvancesClock` | staging/src/k8s.io/client-go/tools/leaderelection/state.go:37-51 | writes only read the clock: over any sequence of calls the clock moves by exactly the sum of the ticks |
| `Trace.RunKeepsObservationInPast` | staging/src/k8s.io/client-go/tools/leaderelection/state.go:37-63 | starting from an observation that is not in the future, no sequence of writes and ticks produces one: the elapsed time stays non-negative |
| `Trace.RepeatedObservationGoesStale` | staging/src/k8s.io/client-go/tools/leaderelection/state.go:44-63 | if every call re-observes the cached record through the conditional write, the cache never changes and the elapsed time grows by exactly the time that passed |
| `Trace.UpdateRestartsStaleness` | staging/src/k8s.io/client-go/tools/leaderelection/state.go:37-42 | after any history, an unconditional write leaves the incoming record stamped with the clock's current reading, so the elapsed time is 0 |
| `Trace.RecordComesFromWrite` | staging/src/k8s.io/client-go/tools/leaderelection/state.go:37-51 | after any sequence of calls, the cached record is the initial one or the record carried by one of the writes; records are replaced whole and never synthesised |

## Left out

- `resourcelock/safelock.go` (`SafeLock` with `Get`, `Create`, `Update`, `RecordEvent`,
  `Describe`, `Identity`): each operation takes a mutex and forwards the call unchanged to a
  wrapped lock whose implementations are not part of this model. Its only behaviour is mutual
  exclusion, which is concurrency.
- The `sync.RWMutex` of `leaderElectorState` and its lock calls: every method is modelled as one
  atomic step, which is what the lock guarantees. Interleavings are not modelled.
- The real clock and Go's `time.Time`: wall-clock and monotonic readings, locations, and
  nanosecond precision are replaced by a natural-number fake clock. The fake clock only moves
  forward (`Advance` takes a `nat`). Go's real clock stamps readings with a monotonic component,
  which `Since` subtracts, so setting the wall clock back does not make the elapsed time
  negative. An injected clock whose `Now` can move backwards does not get that protection. A fake
  clock set to an earlier time, or a reading without a monotonic component, are two examples.
  Such a clock could make the elapsed time negative, and that case is not modelled.
- `ObservedState.LeaderElectorState.ElapsedTime`: the difference is an unbounded integer. The
  saturation of Go's `time.Time.Sub` at the limits of a 64-bit nanosecond `time.Duration` is
  not modelled.
- `reflect.DeepEqual` is replaced by Dafny's structural equality on the record type. Go's
  comparison also looks at the internals of the record's timestamps, such as location and
  monotonic reading, so two records for the same instants may compare as different there. The
  model does not capture this.
- The definition of `LeaderElectionRecord` is not part of this model. The concrete record in
  `record.dfy` carries the fields of a Kubernetes leader-election record: holder identity, lease
  duration, acquire and renew times, and a transition count. Nothing is proved about any field
  beyond equality.
- The election loop that calls these methods, and the lease-expiry decision based on the elapsed
  time, are outside the modelled files.
