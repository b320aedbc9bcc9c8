/** The election record the cache holds, and a client run of the cache over
    it. The cache needs nothing of the record but structural equality. */
module ElectionRecord {
  import opened Clock
  import opened ObservedState

  /** Who holds leadership, for how long, since when, and how many times it
      changed hands. Equality compares every field. */
  datatype LeaderElectionRecord = LeaderElectionRecord(
    holderIdentity: string,
    leaseDurationSeconds: int,
    acquireTime: Time,
    renewTime: Time,
    leaderTransitions: int)

  /** The zero record a new cache starts from. */
  const ZeroRecord := LeaderElectionRecord("", 0, 0, 0, 0)

  /** A record naming `holder` and otherwise zero. */
  function HeldBy(holder: string): (r: LeaderElectionRecord)
    ensures r.holderIdentity == holder
  {
    ZeroRecord.(holderIdentity := holder)
  }

  /** Holder A observed at time 0, observed again unchanged at time 5, then
      replaced by holder B; then B re-stored unconditionally at time 8. */
  method StalenessScenario(holderA: string, holderB: string)
    requires holderA != holderB
  {
    var a, b := HeldBy(holderA), HeldBy(holderB);
    var clock := new FakeClock(0);
    var les := new LeaderElectorState(ZeroRecord, clock);

    les.UpdateRecordIfDifferent(a);
    var r := les.CurrentRecord();
    var e := les.ElapsedTime();
    assert r.holderIdentity == holderA && e == 0;

    clock.Advance(5);
    les.UpdateRecordIfDifferent(a);
    e := les.ElapsedTime();
    assert e == 5;

    les.UpdateRecordIfDifferent(b);
    r := les.CurrentRecord();
    e := les.ElapsedTime();
    assert r.holderIdentity == holderB && e == 0;

    clock.Advance(3);
    les.UpdateRecord(b);
    var t := les.CurrentTime();
    e := les.ElapsedTime();
    assert t == 8 && e == 0;
  }
}
