/** The two tables of the vault and the request schema: rows of `secrets`,
    rows of `secret_logs`, and the body of a create request. Times are whole
    seconds; nullable columns are `Option`s. */
module Models {
  import opened Optional

  /** A row of the `secrets` table. */
  datatype Secret = Secret(
    id: int,
    secret: string,
    passphrase: Option<string>,
    createdAt: int,
    expiresAt: Option<int>,
    ttlSeconds: Option<int>,
    secretKey: Option<string>)

  /** A row of the `secret_logs` table (its own serial id is the position in
      the log sequence). */
  datatype SecretLog = SecretLog(
    secretId: int,
    action: string,
    ipAddress: Option<string>,
    userAgent: Option<string>,
    ttlSeconds: Option<int>,
    timestamp: int,
    additionalInfo: Option<string>)

  /** The body of `POST /secrets/`: no bound on `ttlSeconds`, so zero and
      negative values are accepted. */
  datatype CreateSecret = CreateSecret(
    secret: string,
    passphrase: Option<string> := None,
    ttlSeconds: Option<int> := None)

  /** The column values handed to `INSERT INTO secrets`; `createdAt`, `id`
      and `secretKey` are not among them. */
  datatype InsertData = InsertData(
    secret: string,
    passphrase: Option<string>,
    ttlSeconds: Option<int>,
    expiresAt: Option<int>)

  /** The row the database stores for `data` under serial `id` at time
      `now` (the server default for `created_at`). */
  function StoredRow(id: int, data: InsertData, now: int): (row: Secret)
    ensures row.id == id && row.createdAt == now
    ensures row.secret == data.secret && row.passphrase == data.passphrase
    ensures row.ttlSeconds == data.ttlSeconds && row.expiresAt == data.expiresAt
    ensures row.secretKey.None?
  {
    Secret(id, data.secret, data.passphrase, now, data.expiresAt, data.ttlSeconds, None)
  }

  /** The database as the session sees it: the `secrets` table keyed by id,
      the serial that hands out the next id, and the append-only
      `secret_logs` table. */
  class SecretsDb {
    var secrets: map<int, Secret>
    var nextId: int
    var logs: seq<SecretLog>

    /** Every row is filed under its own id, and ids come from the serial,
        which starts at 1 and only moves forward. */
    ghost predicate Valid()
      reads this
    {
      && nextId >= 1
      && forall id :: id in secrets ==> secrets[id].id == id && 1 <= id < nextId
    }

    constructor ()
      ensures Valid()
      ensures secrets == map[] && nextId == 1 && logs == []
    {
      secrets := map[];
      nextId := 1;
      logs := [];
    }

    /** `INSERT ... RETURNING id`: takes the next serial value, stores the
        row under it and returns it. */
    method Insert(data: InsertData, now: int) returns (id: int)
      requires Valid()
      modifies this
      ensures Valid()
      ensures id == old(nextId) && id >= 1 && id !in old(secrets)
      ensures nextId == id + 1
      ensures secrets == old(secrets)[id := StoredRow(id, data, now)]
      ensures logs == old(logs)
    {
      id := nextId;
      secrets := secrets[id := StoredRow(id, data, now)];
      nextId := nextId + 1;
    }

    /** `db.add(entry)` for a log row. */
    method AddLog(entry: SecretLog)
      modifies this
      ensures logs == old(logs) + [entry]
      ensures secrets == old(secrets) && nextId == old(nextId)
    {
      logs := logs + [entry];
    }

    /** `db.delete(row)`: removes the row with that id, if any. */
    method Delete(row: Secret)
      requires Valid()
      modifies this
      ensures Valid()
      ensures secrets == old(secrets) - {row.id}
      ensures logs == old(logs) && nextId == old(nextId)
    {
      secrets := secrets - {row.id};
    }
  }
}
