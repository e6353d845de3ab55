/** Bringing a database to the latest version: a loop of steps inside one transaction that commits all or nothing. */
module Migration {
  import opened Wrappers
  import opened KeySpace
  import opened FlatDB
  import B = BadgerSpec

  /** A step works on the transaction; it is expected to raise the version. */
  type Step = Flat -> Result<Flat, string>

  datatype Plan = Plan(startVersion: int, latestVersion: int, steps: seq<Step>)

  datatype Cause = Unreadable | TooNew | TooOld | StepFailed(message: string) | NotIncremented

  /** `Panicked` is an index out of the range of the steps; like an error, it ends the transaction without a commit. */
  datatype Outcome = Done(db: Flat) | Failed(cause: Cause, at: int) | Panicked

  function GetVersion(db: Flat): Result<int, Cause> {
    if Key(Version) !in db then Ok(0)
    else if db[Key(Version)].VVersion? then Ok(db[Key(Version)].version)
    else Err(Unreadable)
  }

  function SetVersion(db: Flat, v: int): Flat {
    db[Key(Version) := VVersion(v)]
  }

  /** Running the steps from version `v` on. Every round raises the version, so the rounds end. */
  function Upgrade(plan: Plan, db: Flat, v: int): Outcome
    decreases plan.latestVersion - v
  {
    if v >= plan.latestVersion then Done(db)
    else if !(0 <= v - plan.startVersion < |plan.steps|) then Panicked
    else
      match plan.steps[v - plan.startVersion](db)
      case Err(e) => Failed(StepFailed(e), v)
      case Ok(next) =>
        match GetVersion(next)
        case Err(e) => Failed(e, v)
        case Ok(w) => if w <= v then Failed(NotIncremented, v) else Upgrade(plan, next, w)
  }

  function Migrated(plan: Plan, db: Flat): Outcome {
    match GetVersion(db)
    case Err(e) => Failed(e, 0)
    case Ok(v) =>
      if v == plan.latestVersion then Done(db)
      else if plan.latestVersion < v then Failed(TooNew, v)
      else if plan.startVersion > v then Failed(TooOld, v)
      else Upgrade(plan, db, v)
  }

  class Database {
    var flat: Flat

    constructor ()
      ensures flat == map[]
    {
      flat := map[];
    }

    /** The steps run on the transaction `txn`; only success commits it. */
    method Migrate(plan: Plan) returns (r: Outcome)
      modifies this
      ensures r == Migrated(plan, old(flat))
      ensures flat == if r.Done? then r.db else old(flat)
    {
      var txn := flat;
      var current := GetVersion(txn);
      if current.Err? {
        return Failed(current.error, 0);
      }
      var v := current.value;
      if v == plan.latestVersion {
        return Done(txn);
      }
      if plan.latestVersion < v {
        return Failed(TooNew, v);
      }
      if plan.startVersion > v {
        return Failed(TooOld, v);
      }
      while v < plan.latestVersion
        invariant flat == old(flat)
        invariant Upgrade(plan, txn, v) == Migrated(plan, old(flat))
        decreases plan.latestVersion - v
      {
        if !(0 <= v - plan.startVersion < |plan.steps|) {
          return Panicked;
        }
        var step := plan.steps[v - plan.startVersion](txn);
        if step.Err? {
          return Failed(StepFailed(step.error), v);
        }
        var next := GetVersion(step.value);
        if next.Err? {
          return Failed(next.error, v);
        }
        if next.value <= v {
          return Failed(NotIncremented, v);
        }
        txn, v := step.value, next.value;
      }
      flat := txn;
      r := Done(txn);
    }
  }

  /** A successful migration ends at the latest version or beyond it, and never at a lower one than it began with. */
  lemma {:induction false} UpgradeReachesLatest(plan: Plan, db: Flat, v: int)
    requires GetVersion(db) == Ok(v) && Upgrade(plan, db, v).Done?
    ensures var r := GetVersion(Upgrade(plan, db, v).db); r.Ok? && r.value >= v && r.value >= plan.latestVersion
    decreases plan.latestVersion - v
  {
    if v < plan.latestVersion {
      var next := plan.steps[v - plan.startVersion](db).value;
      UpgradeReachesLatest(plan, next, GetVersion(next).value);
    }
  }

  lemma MigrationReachesLatest(plan: Plan, db: Flat)
    requires Migrated(plan, db).Done?
    ensures var r := GetVersion(Migrated(plan, db).db); r.Ok? && r.value >= plan.latestVersion
  {
    var v := GetVersion(db).value;
    if v != plan.latestVersion {
      UpgradeReachesLatest(plan, db, v);
    }
  }

  /** The version that the next step leaves behind, if there is such a step and it succeeds with a readable version. */
  function NextVersion(plan: Plan, db: Flat, v: int): Option<int> {
    if !(0 <= v - plan.startVersion < |plan.steps|) then None else
      match plan.steps[v - plan.startVersion](db)
      case Err(_) => None
      case Ok(next) => match GetVersion(next) case Err(_) => None case Ok(w) => Some(w)
  }

  /** No step goes beyond the latest version. */
  ghost predicate NoStepOvershoots(plan: Plan) {
    forall db, v :: GetVersion(db) == Ok(v) && plan.startVersion <= v < plan.latestVersion ==>
                      NextVersion(plan, db, v).GetOr(v) <= plan.latestVersion
  }

  lemma {:induction false} UpgradeEndsAtLatest(plan: Plan, db: Flat, v: int)
    requires NoStepOvershoots(plan) && GetVersion(db) == Ok(v) && plan.startVersion <= v <= plan.latestVersion
    requires Upgrade(plan, db, v).Done?
    ensures GetVersion(Upgrade(plan, db, v).db) == Ok(plan.latestVersion)
    decreases plan.latestVersion - v
  {
    if v < plan.latestVersion {
      var next := plan.steps[v - plan.startVersion](db).value;
      assert NextVersion(plan, db, v) == Some(GetVersion(next).value);
      UpgradeEndsAtLatest(plan, next, GetVersion(next).value);
    }
  }

  /** Every successful migration ends at the latest version exactly if and only if no single step overshoots it. */
  lemma EndsAtLatestExactly(plan: Plan)
    ensures (forall db :: Migrated(plan, db).Done? ==> GetVersion(Migrated(plan, db).db) == Ok(plan.latestVersion))
       <==> NoStepOvershoots(plan)
  {
    if NoStepOvershoots(plan) {
      forall db | Migrated(plan, db).Done? ensures GetVersion(Migrated(plan, db).db) == Ok(plan.latestVersion) {
        if GetVersion(db) != Ok(plan.latestVersion) {
          UpgradeEndsAtLatest(plan, db, GetVersion(db).value);
        }
      }
    } else {
      var db, v :| GetVersion(db) == Ok(v) && plan.startVersion <= v < plan.latestVersion
                   && !(NextVersion(plan, db, v).GetOr(v) <= plan.latestVersion);
      var next := plan.steps[v - plan.startVersion](db).value;
      assert Migrated(plan, db) == Upgrade(plan, next, GetVersion(next).value) == Done(next);
    }
  }

  lemma {:induction false} EnoughStepsNeverPanic(plan: Plan, db: Flat, v: int)
    requires plan.startVersion <= v && plan.latestVersion - plan.startVersion <= |plan.steps|
    ensures !Upgrade(plan, db, v).Panicked?
    decreases plan.latestVersion - v
  {
    if v < plan.latestVersion && NextVersion(plan, db, v).GetOr(v) > v {
      EnoughStepsNeverPanic(plan, plan.steps[v - plan.startVersion](db).value, NextVersion(plan, db, v).value);
    }
  }

  /** A step index is out of range on some database if and only if there are fewer steps than versions to climb. */
  lemma PanicsExactly(plan: Plan)
    ensures (exists db :: Migrated(plan, db).Panicked?) <==> |plan.steps| < plan.latestVersion - plan.startVersion
  {
    if |plan.steps| < plan.latestVersion - plan.startVersion {
      var db := SetVersion(map[], plan.startVersion + |plan.steps|);
      assert Migrated(plan, db).Panicked?;
    } else {
      forall db | GetVersion(db).Ok? && plan.startVersion <= GetVersion(db).value
        ensures !Migrated(plan, db).Panicked? {
        EnoughStepsNeverPanic(plan, db, GetVersion(db).value);
      }
    }
  }

  /** The step from version `v` could be met with a database on which it behaves as the failure says. */
  ghost predicate Explained(plan: Plan, cause: Cause, v: int) {
    exists db :: GetVersion(db) == Ok(v) && plan.startVersion <= v < plan.latestVersion
                 && v - plan.startVersion < |plan.steps| && Fails(plan.steps[v - plan.startVersion](db), cause, v)
  }

  predicate Fails(r: Result<Flat, string>, cause: Cause, v: int) {
    match cause
    case StepFailed(e) => r == Err(e)
    case NotIncremented => r.Ok? && GetVersion(r.value).Ok? && GetVersion(r.value).value <= v
    case Unreadable => r.Ok? && GetVersion(r.value) == Err(Unreadable)
    case _ => false
  }

  /** Every failure during the upgrade names what went wrong, and in the step from which version. */
  lemma {:induction false} FailuresAreExplained(plan: Plan, db: Flat, v: int)
    requires GetVersion(db) == Ok(v) && plan.startVersion <= v && Upgrade(plan, db, v).Failed?
    ensures Explained(plan, Upgrade(plan, db, v).cause, Upgrade(plan, db, v).at)
    decreases plan.latestVersion - v
  {
    var step := plan.steps[v - plan.startVersion](db);
    if step.Ok? && GetVersion(step.value).Ok? && GetVersion(step.value).value > v {
      FailuresAreExplained(plan, step.value, GetVersion(step.value).value);
    } else {
      assert Fails(step, Upgrade(plan, db, v).cause, v);
    }
  }

  /** What a migration refuses to begin: an unreadable version, one that is too new, and one that is too old. */
  lemma RefusedAtOnce(plan: Plan, db: Flat)
    ensures GetVersion(db).Err? ==> Migrated(plan, db) == Failed(Unreadable, 0)
    ensures GetVersion(db).Ok? ==>
              var v := GetVersion(db).value;
              && (v == plan.latestVersion ==> Migrated(plan, db) == Done(db))
              && (v > plan.latestVersion ==> Migrated(plan, db) == Failed(TooNew, v))
              && (v < plan.latestVersion && v < plan.startVersion ==> Migrated(plan, db) == Failed(TooOld, v))
              && (plan.startVersion <= v < plan.latestVersion && Migrated(plan, db).Failed? ==>
                    Explained(plan, Migrated(plan, db).cause, Migrated(plan, db).at))
  {
    var v := GetVersion(db);
    if v.Ok? && plan.startVersion <= v.value < plan.latestVersion && Migrated(plan, db).Failed? {
      FailuresAreExplained(plan, db, GetVersion(db).value);
    }
  }

  // The shipped steps.

  const DB_VERSION := 2

  function CheckVersion(db: Flat, v: int): Result<(), string> {
    match GetVersion(db)
    case Err(_) => Err("unreadable version")
    case Ok(w) => if w != v then Err("wrong version for migration") else Ok(())
  }

  function Step0(db: Flat): Result<Flat, string> {
    match CheckVersion(db, 0) case Err(e) => Err(e) case Ok(_) => Ok(SetVersion(db, 1))
  }

  /** Deletes every key under the nonce prefix. */
  function Step1(db: Flat): Result<Flat, string> {
    match CheckVersion(db, 1) case Err(e) => Err(e) case Ok(_) => Ok(SetVersion(db - Scan(db, Nonce), 2))
  }

  const SHIPPED := Plan(0, DB_VERSION, [Step0, Step1])

  /** The second step as the iterator loop that it is. */
  method DeleteNonces(db: Flat) returns (r: Flat)
    ensures r == db - Scan(db, Nonce)
  {
    r := db;
    var rest := Scan(db, Nonce);
    while rest != {}
      invariant rest <= Scan(db, Nonce)
      invariant r == db - (Scan(db, Nonce) - rest)
      decreases |rest|
    {
      var key :| key in rest;
      r := r - {key};
      rest := rest - {key};
    }
  }

  /** The nonce table is emptied; every other cell keeps its value. */
  lemma NoncesGoOthersStay(db: Flat, v: int, c: Cell)
    ensures var after := View(SetVersion(db - Scan(db, Nonce), v));
            && (c.Row? && c.table == Nonce ==> c !in after)
            && (c.Row? && c.table != Nonce ==>
                  (c in after <==> c in View(db)) && (c in after ==> after[c] == View(db)[c]))
            && (c == Version ==> c in after && after[c] == VVersion(v))
  {
    var kept := db - Scan(db, Nonce);
    PutCell(kept, Version, VVersion(v));
    ViewAt(db, c);
    ViewAt(kept, c);
    if c.Row? {
      assert Prefix(c.table) <= Key(c);
      if Prefix(Nonce) <= Key(c) {
        PrefixesDiffer(Nonce, c.table, Key(c));
      }
    }
  }

  /** From version 0 or 1 the shipped steps end at version 2 exactly, without nonces and with everything else. */
  lemma ShippedUpgrade(db: Flat)
    requires GetVersion(db) == Ok(0) || GetVersion(db) == Ok(1)
    ensures Migrated(SHIPPED, db) == Done(SetVersion(db - Scan(db, Nonce), 2))
  {
    var v := GetVersion(db).value;
    var k := Key(Version);
    assert !(Prefix(Nonce) <= k) by {
      if Prefix(Nonce) <= k {
        PrefixesDiffer(Nonce, Nonce, k);
      }
    }
    var db1 := if v == 0 then SetVersion(db, 1) else db;
    assert Scan(db1, Nonce) == Scan(db, Nonce) by {
      assert forall j :: Prefix(Nonce) <= j && j in db1 ==> j in db;
    }
    assert GetVersion(db1) == Ok(1);
    var db2 := SetVersion(db1 - Scan(db1, Nonce), 2);
    assert db2 == SetVersion(db - Scan(db, Nonce), 2);
    assert SHIPPED.steps[1](db1) == Ok(db2) && SHIPPED.steps[0](db) == Step0(db);
    assert GetVersion(db2) == Ok(2);
    assert Upgrade(SHIPPED, db2, 2) == Done(db2);
    assert Upgrade(SHIPPED, db1, 1) == Upgrade(SHIPPED, db2, 2);
    if v == 0 {
      assert Upgrade(SHIPPED, db, 0) == Upgrade(SHIPPED, db1, 1);
    }
  }

  /** For every database: what the shipped migration does, by the version it finds. It never panics. */
  lemma ShippedMigration(db: Flat)
    ensures Migrated(SHIPPED, db)
         == match GetVersion(db)
            case Err(e) => Failed(e, 0)
            case Ok(v) =>
              if v == 2 then Done(db)
              else if v > 2 then Failed(TooNew, v)
              else if v < 0 then Failed(TooOld, v)
              else Done(SetVersion(db - Scan(db, Nonce), 2))
  {
    if GetVersion(db) == Ok(0) || GetVersion(db) == Ok(1) {
      ShippedUpgrade(db);
    }
  }

  /** Migrating a second time changes nothing. */
  lemma SecondMigrationIsNoOp(db: Flat)
    requires Migrated(SHIPPED, db).Done?
    ensures var once := Migrated(SHIPPED, db).db;
            GetVersion(once) == Ok(2) && Migrated(SHIPPED, once) == Done(once)
  {
    ShippedMigration(db);
  }

  /** `after` is `before` without its nonces and with version 2. */
  ghost predicate NoncesCleared(before: Cells, after: Cells) {
    && Version in after && after[Version] == VVersion(2)
    && (forall id :: Row(Nonce, id) !in after)
    && (forall t, id :: t != Nonce ==> (Row(t, id) in after <==> Row(t, id) in before))
    && (forall t, id :: t != Nonce && Row(t, id) in after ==> after[Row(t, id)] == before[Row(t, id)])
  }

  lemma ClearedTables(before: Cells, after: Cells, db: B.DB)
    requires NoncesCleared(before, after) && Holds(before, db)
    ensures Holds(after, db.(nonces := map[], version := Some(2)))
  {
  }

  lemma ShippedClears(flat: Flat)
    ensures NoncesCleared(View(flat), View(SetVersion(flat - Scan(flat, Nonce), 2)))
  {
    var before, after := View(flat), View(SetVersion(flat - Scan(flat, Nonce), 2));
    NoncesGoOthersStay(flat, 2, Version);
    forall t, id
      ensures t == Nonce ==> Row(t, id) !in after
      ensures t != Nonce ==> (Row(t, id) in after <==> Row(t, id) in before)
      ensures t != Nonce && Row(t, id) in after ==> after[Row(t, id)] == before[Row(t, id)] {
      NoncesGoOthersStay(flat, 2, Row(t, id));
    }
  }

  /** On the store's tables: migrating from version 0 or 1 empties the nonces, sets the version, and that is all. */
  lemma MigratedTables(flat: Flat, db: B.DB)
    requires Holds(View(flat), db) && (db.version.GetOr(0) == 0 || db.version.GetOr(0) == 1)
    ensures Migrated(SHIPPED, flat).Done?
    ensures Holds(View(Migrated(SHIPPED, flat).db), db.(nonces := map[], version := Some(2)))
  {
    ViewAt(flat, Version);
    ShippedMigration(flat);
    ShippedClears(flat);
    ClearedTables(View(flat), View(Migrated(SHIPPED, flat).db), db);
  }
}
