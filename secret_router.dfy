/** `POST /secrets/`: stores the submitted secret as one new row and hands
    back the row's id, in decimal, as the access key. Nothing is encrypted,
    cached or logged on this path. */
module SecretRouter {
  import opened Optional
  import Models
  import Decimal

  /** The JSON body of the 201 response. */
  datatype CreateResponse = CreateResponse(secretKey: string)

  /** The column values `create_secret` sends for `req` when the clock reads
      `now`: the three submitted fields verbatim, and a deadline exactly when
      a TTL was submitted (zero and negative TTLs included). */
  function InsertValues(req: Models.CreateSecret, now: int): (data: Models.InsertData)
    ensures data.secret == req.secret
    ensures data.passphrase == req.passphrase
    ensures data.ttlSeconds == req.ttlSeconds
    ensures data.expiresAt.Some? <==> req.ttlSeconds.Some?
    ensures req.ttlSeconds.Some? ==> data.expiresAt.value == now + req.ttlSeconds.value
  {
    var base := Models.InsertData(req.secret, req.passphrase, req.ttlSeconds, None);
    match req.ttlSeconds
    case None => base
    case Some(ttl) => base.(expiresAt := Some(now + ttl))
  }

  /** The row a creation at time `now` leaves under id `id`. */
  function CreatedRow(id: int, req: Models.CreateSecret, now: int): Models.Secret
  {
    Models.StoredRow(id, InsertValues(req, now), now)
  }

  /** A negative TTL is accepted and yields a deadline already in the past. */
  lemma NegativeTtlExpiresBeforeCreation(id: int, req: Models.CreateSecret, now: int)
    requires req.ttlSeconds.Some? && req.ttlSeconds.value < 0
    ensures CreatedRow(id, req, now).expiresAt.Some?
    ensures CreatedRow(id, req, now).expiresAt.value < now
  {
  }

  /** `create_secret`: one insert, one commit, the new id as the key. */
  method CreateSecret(db: Models.SecretsDb, req: Models.CreateSecret, now: int)
    returns (response: CreateResponse)
    requires db.Valid()
    modifies db
    ensures db.Valid()
    ensures old(db.nextId) !in old(db.secrets)
    ensures db.secrets == old(db.secrets)[old(db.nextId) := CreatedRow(old(db.nextId), req, now)]
    ensures response.secretKey == Decimal.ToDecimal(old(db.nextId))
    ensures db.nextId == old(db.nextId) + 1
    ensures db.logs == old(db.logs)
  {
    var insertData := Models.InsertData(req.secret, req.passphrase, req.ttlSeconds, None);
    if req.ttlSeconds.Some? {
      insertData := insertData.(expiresAt := Some(now + req.ttlSeconds.value));
    }
    var secretId := db.Insert(insertData, now);
    response := CreateResponse(Decimal.ToDecimal(secretId));
  }

  /** Two creations against the same database return different keys. */
  method CreateTwice(db: Models.SecretsDb, first: Models.CreateSecret, second: Models.CreateSecret, now: int)
    returns (firstKey: string, secondKey: string)
    requires db.Valid()
    modifies db
    ensures db.Valid()
    ensures var n := old(db.nextId);
      db.secrets == old(db.secrets)[n := CreatedRow(n, first, now)][n + 1 := CreatedRow(n + 1, second, now)]
    ensures db.nextId == old(db.nextId) + 2
    ensures db.logs == old(db.logs)
    ensures firstKey == Decimal.ToDecimal(old(db.nextId))
    ensures secondKey == Decimal.ToDecimal(old(db.nextId) + 1)
    ensures firstKey != secondKey
  {
    var r1 := CreateSecret(db, first, now);
    var r2 := CreateSecret(db, second, now);
    firstKey, secondKey := r1.secretKey, r2.secretKey;
    Decimal.ToDecimalInjective(db.nextId - 2, db.nextId - 1);
  }
}
