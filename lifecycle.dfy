/** Properties that span creation and the expiry sweep. */
module Lifecycle {
  import Models
  import SecretRouter
  import CeleryService

  /** A row created at time `created` is removed by a sweep at `sweepAt`
      exactly when it was given a TTL and `created + ttl < sweepAt`; a row
      created without a TTL is never swept. */
  lemma SweptExactlyWhenDeadlinePassed(table: map<int, Models.Secret>, id: int,
                                       req: Models.CreateSecret, created: int, sweepAt: int)
    ensures var after := CeleryService.Survivors(table[id := SecretRouter.CreatedRow(id, req, created)], sweepAt);
      id !in after <==> req.ttlSeconds.Some? && created + req.ttlSeconds.value < sweepAt
  {
  }

  /** Two sweeps at the same time: the second deletes nothing, logs nothing
      and reports zero. */
  method SweepTwice(db: Models.SecretsDb, now: int)
    returns (firstReport: string, secondReport: string, ghost firstDeleted: seq<Models.Secret>,
             ghost secondDeleted: seq<Models.Secret>)
    requires db.Valid()
    modifies db
    ensures db.Valid()
    ensures CeleryService.IsSelectionOf(firstDeleted, old(db.secrets), now)
    ensures secondDeleted == []
    ensures db.secrets == CeleryService.Survivors(old(db.secrets), now)
    ensures db.logs == old(db.logs) + CeleryService.AutoDeleteLogs(firstDeleted, now)
    ensures db.nextId == old(db.nextId)
    ensures firstReport == CeleryService.Report(|firstDeleted|)
    ensures secondReport == CeleryService.Report(0)
  {
    firstReport, firstDeleted := CeleryService.CleanupExpiredSecrets(db, now);
    CeleryService.SweepIdempotent(old(db.secrets), now);
    secondReport, secondDeleted := CeleryService.CleanupExpiredSecrets(db, now);
    CeleryService.EmptySelection(secondDeleted, CeleryService.Survivors(old(db.secrets), now), now);
    assert CeleryService.AutoDeleteLogs(secondDeleted, now) == [];
  }
}
