/** The periodic `cleanup_expired_secrets` task: in one transaction it selects
    every row whose deadline lies strictly before `now`, logs one
    `auto_delete` entry per selected row, deletes those rows and reports how
    many it deleted. */
module CeleryService {
  import opened Optional
  import opened Models
  import Decimal

  const AutoDeleteAction: string := "auto_delete"
  const AutoDeleteInfo: string := "Secret expired and automatically deleted"

  /** The `WHERE expires_at < now` filter; a NULL deadline never matches. */
  predicate IsExpired(row: Secret, now: int)
    ensures row.expiresAt.None? ==> !IsExpired(row, now)
    ensures row.expiresAt == Some(now) ==> !IsExpired(row, now)
    ensures row.expiresAt.Some? && row.expiresAt.value < now ==> IsExpired(row, now)
  {
    row.expiresAt.Some? && row.expiresAt.value < now
  }

  /** The ids the filter selects. */
  function ExpiredIds(table: map<int, Secret>, now: int): set<int> {
    set id | id in table && IsExpired(table[id], now)
  }

  /** The table once the selected rows are gone. */
  function Survivors(table: map<int, Secret>, now: int): (kept: map<int, Secret>)
    ensures forall id :: id in kept <==> id in table && !IsExpired(table[id], now)
    ensures forall id :: id in kept ==> kept[id] == table[id]
  {
    table - ExpiredIds(table, now)
  }

  /** The log row written for a deleted row. */
  function AutoDeleteLog(row: Secret, now: int): (entry: SecretLog)
    ensures entry.secretId == row.id && entry.action == AutoDeleteAction
    ensures entry.ipAddress.None? && entry.userAgent.None?
    ensures entry.ttlSeconds == row.ttlSeconds && entry.timestamp == now
    ensures entry.additionalInfo == Some(AutoDeleteInfo)
  {
    SecretLog(row.id, AutoDeleteAction, None, None, row.ttlSeconds, now, Some(AutoDeleteInfo))
  }

  /** The log rows written for `rows`, in their order. */
  function AutoDeleteLogs(rows: seq<Secret>, now: int): (entries: seq<SecretLog>)
    ensures |entries| == |rows|
    ensures forall i :: 0 <= i < |rows| ==> entries[i] == AutoDeleteLog(rows[i], now)
  {
    if rows == [] then [] else AutoDeleteLogs(rows[..|rows| - 1], now) + [AutoDeleteLog(rows[|rows| - 1], now)]
  }

  function IdsOf(rows: seq<Secret>): set<int> {
    set i | 0 <= i < |rows| :: rows[i].id
  }

  lemma IdsOfAppend(rows: seq<Secret>, row: Secret)
    ensures IdsOf(rows + [row]) == IdsOf(rows) + {row.id}
  {
    var longer := rows + [row];
    forall id | id in IdsOf(longer) ensures id in IdsOf(rows) + {row.id} {
      var i :| 0 <= i < |longer| && longer[i].id == id;
      if i < |rows| { assert rows[i] == longer[i]; }
    }
    forall id | id in IdsOf(rows) ensures id in IdsOf(longer) {
      var i :| 0 <= i < |rows| && rows[i].id == id;
      assert longer[i] == rows[i];
    }
    assert longer[|rows|] == row;
  }

  predicate DistinctIds(rows: seq<Secret>) {
    forall i, j :: 0 <= i < j < |rows| ==> rows[i].id != rows[j].id
  }

  /** `rows` is a possible result of the select over `table`: each selected
      row once, as stored, and nothing else. The order is the database's. */
  predicate IsSelectionOf(rows: seq<Secret>, table: map<int, Secret>, now: int) {
    && (forall i :: 0 <= i < |rows| ==> rows[i].id in table && table[rows[i].id] == rows[i])
    && DistinctIds(rows)
    && IdsOf(rows) == ExpiredIds(table, now)
  }

  /** A list of rows with distinct ids has as many ids as rows. */
  lemma {:induction false} DistinctIdsCount(rows: seq<Secret>)
    requires DistinctIds(rows)
    ensures |IdsOf(rows)| == |rows|
  {
    if rows != [] {
      var init := rows[..|rows| - 1];
      DistinctIdsCount(init);
      assert rows == init + [rows[|rows| - 1]];
      IdsOfAppend(init, rows[|rows| - 1]);
      assert rows[|rows| - 1].id !in IdsOf(init);
    }
  }

  /** The selection has exactly one row per expired id. */
  lemma SelectionSize(rows: seq<Secret>, table: map<int, Secret>, now: int)
    requires IsSelectionOf(rows, table, now)
    ensures |rows| == |ExpiredIds(table, now)|
  {
    DistinctIdsCount(rows);
  }

  /** Nothing expired, nothing selected. */
  lemma EmptySelection(rows: seq<Secret>, table: map<int, Secret>, now: int)
    requires IsSelectionOf(rows, table, now)
    requires ExpiredIds(table, now) == {}
    ensures rows == []
  {
    SelectionSize(rows, table, now);
  }

  /** The select: a scan of the table keeping the rows the filter matches.
      The scan visits ids in ascending order (a primary-key scan); callers
      rely only on `IsSelectionOf`, which leaves the order open. */
  method SelectExpired(db: SecretsDb, now: int) returns (rows: seq<Secret>)
    requires db.Valid()
    ensures IsSelectionOf(rows, db.secrets, now)
  {
    var table := db.secrets;
    rows := [];
    for id := 1 to db.nextId
      invariant forall i :: 0 <= i < |rows| ==> rows[i].id in table && table[rows[i].id] == rows[i]
      invariant forall i :: 0 <= i < |rows| ==> rows[i].id < id
      invariant DistinctIds(rows)
      invariant IdsOf(rows) == set k | k in table && k < id && IsExpired(table[k], now)
    {
      if id in table && IsExpired(table[id], now) {
        IdsOfAppend(rows, table[id]);
        rows := rows + [table[id]];
      }
    }
  }

  const ReportPrefix: string := "Удалено "
  const ReportSuffix: string := " просроченных секретов"

  /** The task's return string: the fixed words around the count, which can
      be read back from between them. */
  function Report(count: nat): (message: string)
    ensures |message| > |ReportPrefix| + |ReportSuffix|
    ensures message[..|ReportPrefix|] == ReportPrefix
    ensures message[|message| - |ReportSuffix|..] == ReportSuffix
    ensures var digits := message[|ReportPrefix|..|message| - |ReportSuffix|];
      && (forall i :: 0 <= i < |digits| ==> Decimal.IsDigit(digits[i]))
      && (|digits| > 1 ==> digits[0] != '0')
      && Decimal.ParseDecimal(digits) == count
  {
    var digits := Decimal.ToDecimal(count);
    Decimal.ParseToDecimal(count);
    var message := ReportPrefix + digits + ReportSuffix;
    assert message[|ReportPrefix|..|message| - |ReportSuffix|] == digits;
    message
  }

  /** `cleanup_expired_secrets`, as one transaction. `deleted` is the list
      the task iterated over, in order. */
  method CleanupExpiredSecrets(db: SecretsDb, now: int)
    returns (message: string, ghost deleted: seq<Secret>)
    requires db.Valid()
    modifies db
    ensures db.Valid()
    ensures IsSelectionOf(deleted, old(db.secrets), now)
    ensures db.secrets == Survivors(old(db.secrets), now)
    ensures db.logs == old(db.logs) + AutoDeleteLogs(deleted, now)
    ensures db.nextId == old(db.nextId)
    ensures |deleted| == |ExpiredIds(old(db.secrets), now)|
    ensures message == Report(|deleted|)
  {
    var expiredSecrets := SelectExpired(db, now);
    for i := 0 to |expiredSecrets|
      invariant db.Valid()
      invariant db.secrets == old(db.secrets) - IdsOf(expiredSecrets[..i])
      invariant db.logs == old(db.logs) + AutoDeleteLogs(expiredSecrets[..i], now)
      invariant db.nextId == old(db.nextId)
    {
      var secret := expiredSecrets[i];
      db.AddLog(AutoDeleteLog(secret, now));
      db.Delete(secret);
      assert expiredSecrets[..i + 1] == expiredSecrets[..i] + [secret];
      IdsOfAppend(expiredSecrets[..i], secret);
    }
    assert expiredSecrets[..|expiredSecrets|] == expiredSecrets;
    SelectionSize(expiredSecrets, old(db.secrets), now);
    deleted := expiredSecrets;
    message := Report(|expiredSecrets|);
  }

  /** A second sweep at the same time finds nothing. */
  lemma SweepIdempotent(table: map<int, Secret>, now: int)
    ensures ExpiredIds(Survivors(table, now), now) == {}
    ensures Survivors(Survivors(table, now), now) == Survivors(table, now)
  {
  }
}
