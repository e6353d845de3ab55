/**
 * The memory store remembers the highest nonce of every ID for ever; the badger store lets each saved nonce expire.
 * Forgetting is harmless exactly when no accepted nonce lies in the future of the clock that accepted it.
 */
module NonceExpiry {
  import opened StoreTypes
  import M = MemorySpec
  import B = BadgerSpec

  /** The database drops expired nonces at a time of its choosing; memory drops nothing. */
  function Forget(db: B.DB, ids: set<string>): B.DB {
    db.(nonces := db.nonces - ids)
  }

  /** A nonce may vanish once its time-to-live has passed. `grain` is the rounding of the expiry instant, if any. */
  predicate MayForget(db: B.DB, ids: set<string>, now: Time, grain: nat) {
    forall id :: id in ids && id in db.nonces ==> db.nonces[id].savedAt + EXPIRE_NONCE - grain <= now
  }

  /** Remembered nonces are the same; a forgotten one is too old to be accepted at `clock` or later. */
  ghost predicate NoncesAgree(m: M.Mem, db: B.DB, clock: Time, grain: nat) {
    && (forall id :: id in db.nonces ==>
          id in m.nonces && m.nonces[id] == db.nonces[id].nonce && db.nonces[id].nonce <= db.nonces[id].savedAt - grain)
    && (forall id :: id in m.nonces && id !in db.nonces ==> m.nonces[id] <= clock - EXPIRE_NONCE)
  }

  /** With nonces from the past, the two stores give the same verdict and go on agreeing. */
  lemma CheckAgrees(m: M.Mem, db: B.DB, id: string, nonce: int, now: Time, clock: Time, grain: nat)
    requires NoncesAgree(m, db, clock, grain) && clock <= now && EXPIRE_NONCE <= now
    requires M.CheckAndSaveNonce(m, id, nonce, now).1.Ok? ==> nonce <= now - grain
    ensures M.CheckAndSaveNonce(m, id, nonce, now).1 == B.CheckAndSaveNonce(db, id, nonce, now).1
    ensures NoncesAgree(M.CheckAndSaveNonce(m, id, nonce, now).0, B.CheckAndSaveNonce(db, id, nonce, now).0, now, grain)
  {
  }

  lemma ForgetAgrees(m: M.Mem, db: B.DB, ids: set<string>, now: Time, clock: Time, grain: nat)
    requires NoncesAgree(m, db, clock, grain) && clock <= now && MayForget(db, ids, now, grain)
    ensures NoncesAgree(m, Forget(db, ids), now, grain)
  {
  }

  /**
   * The condition is exact: whenever a nonce ahead of the clock is accepted, the same nonce can be replayed later.
   * The badger store, having forgotten it in time, accepts it again, while the memory store refuses.
   */
  lemma FutureNonceIsAcceptedTwice(m: M.Mem, db: B.DB, id: string, nonce: int, now: Time, grain: nat)
    requires M.CheckAndSaveNonce(m, id, nonce, now).1.Ok? && B.CheckAndSaveNonce(db, id, nonce, now).1.Ok?
    requires nonce > now - grain && grain <= EXPIRE_NONCE
    ensures var m1 := M.CheckAndSaveNonce(m, id, nonce, now).0;
            var db1 := B.CheckAndSaveNonce(db, id, nonce, now).0;
            var later := now + EXPIRE_NONCE - grain;
            && now <= later && MayForget(db1, {id}, later, grain)
            && B.CheckAndSaveNonce(Forget(db1, {id}), id, nonce, later).1.Ok?
            && M.CheckAndSaveNonce(m1, id, nonce, later).1.Err?
  {
  }

  /** An accepted nonce can never be replayed after a timely expiry, if and only if it was not ahead of the clock. */
  lemma ReplayIsRefusedExactly(db: B.DB, id: string, nonce: int, now: Time, grain: nat)
    requires B.CheckAndSaveNonce(db, id, nonce, now).1.Ok? && grain <= EXPIRE_NONCE
    ensures var db1 := B.CheckAndSaveNonce(db, id, nonce, now).0;
            (forall later :: now <= later && MayForget(db1, {id}, later, grain) ==>
                               B.CheckAndSaveNonce(Forget(db1, {id}), id, nonce, later).1.Err?)
            <==> nonce <= now - grain
  {
    var db1 := B.CheckAndSaveNonce(db, id, nonce, now).0;
    var first := now + EXPIRE_NONCE - grain;
    assert MayForget(db1, {id}, first, grain);
    forall later | MayForget(db1, {id}, later, grain) ensures first <= later {
      assert id in {id} && db1.nonces[id].savedAt == now;
    }
  }
}
