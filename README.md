# One-time secret vault: creation, expiry sweep, cache policy, encryption guards

This project models the core of a small FastAPI service that stores secrets
for one-time retrieval. The state is three structures:

- the `secrets` table, a map from row id to `Secret` row, together with the
  serial that assigns the next id;
- the append-only `secret_logs` table, a sequence of `SecretLog` rows;
- the Redis key-value store, a map from key to a cached payload and the time
  at which Redis drops it.

Four pieces of code act on them, and each is one module here:

- `SecretRouter` (`POST /secrets/`): builds the insert values, adds a deadline
  only when a TTL is given, inserts one row and returns the new id in decimal
  as the access key.
- `CeleryService` (`cleanup_expired_secrets`): selects every row whose
  deadline is strictly before `now`, writes one `auto_delete` log row per
  selected row, deletes the selected rows in the same transaction and reports
  how many it deleted.
- `RedisService`: the cache TTL with a 300-second floor, the `secret:<id>` key
  scheme shared by put, get and delete, client errors swallowed, and the
  startup ping with at most five tries.
- `EncryptionService`: `encrypt` and `decrypt` around a fixed symmetric
  cipher. Empty and absent inputs pass through, and a rejected token decrypts
  to `None`.

Supporting modules:

- `Optional`: nullable values.
- `Models`: the row types, the request schema, and the `SecretsDb` class. That
  class holds the table, the serial and the log, and offers the session
  primitives insert, add-log and delete.
- `Decimal`: Python's `str(n)` for ids and its inverse.
- `Lifecycle`: properties that span creation and the sweep.

Time is a whole number of seconds, passed in as `now`. The cipher is a value
with two function fields; `RoundTrips(cipher)` is the property Fernet
promises, and it appears as a hypothesis of the lemma that needs it. A Redis
client failure is an input `clientFails`.

What the code does not do:

- The access key is `str(id)`, not a random token.
- The router stores the secret and the passphrase as submitted. It calls
  neither the cipher nor the cache, and writes no `create` log row.
- `decrypt` returns `None` on a bad token instead of raising.
- The sweep does not evict anything from the cache.
- There is no read endpoint and no passphrase-gated delete in the code.

## Model

| member | source | states |
|---|---|---|
| `Decimal.ToDecimal` | app/routers/secret.py:39-41 | the key is a non-empty string of decimal digits with no leading zero |
| `Decimal.ParseToDecimal` | app/routers/secret.py:40 | parsing the key back gives the row id: `int(str(id)) == id` |
| `Decimal.ToDecimalInjective` | app/routers/secret.py:33-40 | distinct row ids give distinct access keys |
| `Models.StoredRow` | app/models/secret.py:13-44 | the stored row carries the given id, the submitted columns unchanged, `created_at` set from the clock at insert time (the server default), and no `secret_key` |
| `Models.SecretsDb.Insert` | app/routers/secret.py:32-35 | the insert takes the next serial id, which is not in the table, stores exactly one new row under it with `created_at = now`, and leaves every other row and the log unchanged |
| `Models.SecretsDb.AddLog` | app/services/celery_service.py:30 | adding a log row appends it at the end and changes nothing else |
| `Models.SecretsDb.Delete` | app/services/celery_service.py:32 | deleting a row removes exactly that id from the table and changes nothing else |
| `SecretRouter.InsertValues` | app/routers/secret.py:23-30 | secret, passphrase and TTL are stored as submitted, with no encryption and a `None` passphrase kept as `None`; `expires_at` is present if and only if a TTL was given, zero included, and then equals `now + ttl_seconds` |
| `SecretRouter.NegativeTtlExpiresBeforeCreation` | app/routers/secret.py:29-30 | a negative TTL is accepted and gives a deadline earlier than the creation time |
| `SecretRouter.CreateSecret` | app/routers/secret.py:17-41 | one call inserts exactly one row under a fresh id, leaves the existing rows and the log unchanged, and returns that id in decimal as `secret_key` |
| `SecretRouter.CreateTwice` | app/routers/secret.py:32-41 | two creations insert their rows under the consecutive ids `n` and `n + 1`, leave the other rows and the log unchanged, advance the serial by two, and return `str(n)` and `str(n + 1)`, which differ |
| `CeleryService.IsExpired` | app/services/celery_service.py:17 | a row is selected when it has a deadline strictly before `now`; a NULL deadline, or one equal to `now`, is not selected |
| `CeleryService.AutoDeleteLog` | app/services/celery_service.py:21-29 | the log row for a deleted row has its id, action `auto_delete`, no IP address or user agent, the row's TTL, `timestamp = now`, and the fixed note |
| `CeleryService.Survivors` | app/services/celery_service.py:16-32 | after the sweep, the table holds exactly the rows whose `expires_at` is `None` or at least `now` (the comparison is strict), each unchanged |
| `CeleryService.AutoDeleteLogs` | app/services/celery_service.py:20-30 | one log row per deleted row, in selection order, each with `secret_id = row.id`, action `auto_delete`, the row's TTL, `timestamp = now`, and no IP address or user agent |
| `CeleryService.DistinctIdsCount` | app/services/celery_service.py:36 | a selection with no repeated id has as many ids as rows |
| `CeleryService.SelectionSize` | app/services/celery_service.py:16-36 | the number of selected rows equals the number of expired rows in the table |
| `CeleryService.EmptySelection` | app/services/celery_service.py:16-18 | when no row has expired, the select returns nothing |
| `CeleryService.SelectExpired` | app/services/celery_service.py:16-18 | the select returns each row with `expires_at < now` exactly once, as stored, and no other row |
| `CeleryService.CleanupExpiredSecrets` | app/services/celery_service.py:10-36 | the sweep leaves exactly the unexpired rows, appends exactly one `auto_delete` row per deleted row after the existing log, keeps the serial, and reports the number of rows deleted |
| `CeleryService.Report` | app/services/celery_service.py:36 | the returned message is the fixed Russian words around the count as Python's `str(n)`, digits with no leading zero, and the count can be read back from it |
| `CeleryService.SweepIdempotent` | app/services/celery_service.py:16-32 | after a sweep at `now` nothing is expired at `now`, and sweeping again changes nothing |
| `RedisService.CacheTtl` | app/services/redis_service.py:24-34 | the cache TTL is never below 300; a TTL of at least 300 is kept; `None`, `0` and anything up to 300 give exactly 300 |
| `RedisService.CacheKey` | app/services/redis_service.py:37 | the key is `secret:` followed by the id, unchanged |
| `RedisService.Lookup` | app/services/redis_service.py:46-49 | a `GET` hits exactly when the key is present and its expiry time is still ahead, and then returns the stored value |
| `RedisService.Stored` | app/services/redis_service.py:34-37 | a `SET ... EX` adds or overwrites only the id's key, with the given data and an expiry exactly the clamped TTL ahead, so at least 300 seconds; every other key keeps its entry |
| `RedisService.Evicted` | app/services/redis_service.py:58 | a `DEL` removes only the id's key; every other key keeps its entry |
| `RedisService.CacheKeyInjective` | app/services/redis_service.py:37-58 | the `secret:<id>` scheme gives different ids different keys |
| `RedisService.LookupAfterStore` | app/services/redis_service.py:37-48 | a get after `cache_secret(id, d)` returns `d` until that entry's TTL lapses, and nothing afterwards |
| `RedisService.StoredAtLeastFloor` | app/services/redis_service.py:24-37 | a cached copy is readable for at least 300 seconds, whatever the secret's own TTL |
| `RedisService.StoreKeepsOthers` | app/services/redis_service.py:37 | caching one id leaves every other id's lookups unchanged |
| `RedisService.LookupAfterEvict` | app/services/redis_service.py:46-58 | after `delete_cached_secret(id)` a get for that id misses, and other ids are unchanged |
| `RedisService.LookupAbsent` | app/services/redis_service.py:46-49 | a get of an absent key returns `None` |
| `RedisService.RedisClient.CacheSecret` | app/services/redis_service.py:31-40 | on success the key `secret:<id>` holds the data with the clamped TTL; a client error is swallowed and changes nothing |
| `RedisService.RedisClient.GetCachedSecret` | app/services/redis_service.py:43-52 | returns the live cached value for the id's key, `None` on a miss, and `None` when the client fails |
| `RedisService.RedisClient.DeleteCachedSecret` | app/services/redis_service.py:55-61 | on success removes exactly the id's key; a client error is swallowed and changes nothing |
| `RedisService.Ping` | app/services/redis_service.py:64-80 | at most 5 tries; returns the first answer at once; sleeps only between tries, so at most 4 times; `False` when all 5 tries fail |
| `EncryptionService.Encrypt` | app/services/encryption_service.py:19-24 | `None` and `""` come back unchanged; any other text is replaced by its cipher token |
| `EncryptionService.Decrypt` | app/services/encryption_service.py:27-36 | `None` and `""` come back unchanged; any other token gives what the cipher gives, which is `None` when the cipher rejects it |
| `EncryptionService.EncryptKeepsPresence` | app/services/encryption_service.py:21-24 | an absent passphrase stays absent after encryption, and a present one stays present |
| `EncryptionService.EmptyRoundTrip` | app/services/encryption_service.py:21-30 | `decrypt(encrypt(x)) == x` for empty or absent `x`, with no assumption on the cipher |
| `EncryptionService.RoundTrip` | app/services/encryption_service.py:21-33 | `decrypt(encrypt(x)) == x` for every `x` when the cipher round-trips |
| `EncryptionService.RejectedTokenIsNone` | app/services/encryption_service.py:32-36 | a non-empty token the cipher rejects decrypts to `None`; no exception escapes |
| `Lifecycle.SweptExactlyWhenDeadlinePassed` | app/services/celery_service.py:17 | a row created at `c` with TTL `t` is removed by a sweep at `T` exactly when `c + t < T`; a row created without a TTL is never swept |
| `Lifecycle.SweepTwice` | app/services/celery_service.py:16-34 | after two sweeps at the same time, the table holds the unexpired rows, the log is the old log followed by the first sweep's `auto_delete` rows, and the serial is unchanged; the second sweep selects nothing and reports zero |

## Left out

- SecretRouter.CreateSecret: does not model the limits of the collaborators. The `ttl_seconds` and `id` columns are 32-bit integers, `passphrase` is `VARCHAR(255)` (app/models/secret.py:19-23), and `timedelta`/`datetime` overflow for huge TTLs. A TTL out of range, a passphrase longer than 255 characters or a huge TTL makes the database or Python raise, and nothing is inserted. The model uses unbounded integers and strings and always inserts.
- SecretRouter.CreateSecret: never writes the `secret_key` column, so the model stores `None` there. The column is NOT NULL in the ORM model itself (`Mapped[str]` at app/models/secret.py:39) and in migration `7c138b4f4204`. So a database built from either would reject every insert the router makes. That constraint is not modelled.
- `created_at` comes from the database clock and `expires_at` from the application clock. The model uses one `now` for both, in whole seconds rather than microseconds.
- The select has no `ORDER BY`, so its order is the database's. `CeleryService.SelectExpired` scans ids in ascending order. The sweep's contract, through `IsSelectionOf`, admits any order, and the log follows the order the select returned.
- The serial ids of `secret_logs` rows are not modelled; a log row's position in the sequence stands for them.
- CeleryService.CleanupExpiredSecrets: models the intended transaction, not the program as written. As written, the task always fails at app/services/celery_service.py:13, because an async session has no synchronous `with` protocol. The calls at lines 16, 32 and 34 are coroutines that are never awaited. So the task as written never selects, logs or deletes anything. The model is the one atomic select-log-delete-commit that the code evidently means. A failed commit and its rollback are not modelled.
- The Celery broker and its schedule, FastAPI routing, dependency injection, the no-cache response headers, and the application lifespan are transport concerns and are not modelled.
- The Redis network client, its configuration, the `print` logging, the 2-second `asyncio.sleep` and `close` are I/O. The model keeps the map semantics and counts the pings and waits.
- RedisService.Ping: the outer `except` can only be reached by a failure of `print` or `sleep`, which are not modelled. A ping answer is taken to be a boolean.
- RedisService.RedisClient.CacheSecret: a client error after the server applied the write would leave the entry in place. The model treats every client error as "nothing happened".
- RedisService.RedisClient.DeleteCachedSecret: a client error can occur after the server applied the `DEL`, for example when the 10-second socket timeout fires on the reply. The key is then gone although the call failed. The model treats every client error as "nothing happened".
- JSON encoding is taken to be exact: the store holds the dict itself. A `json.dumps` failure on a non-serialisable dict cannot arise with a dict of strings.
- Fernet is abstract, so its token format, its random IV and timestamp, and its key check are not modelled. In the model `encryptToken` is a fixed function. Loading `ENCRYPTION_KEY` from the environment, and failing when it is missing, are not modelled. Neither are the UTF-8 `encode`/`decode` steps around the cipher.
- The cipher key cannot change in the model because `Encrypt` and `Decrypt` are functions of a `Cipher` value. No operation can modify it.
- The code has no read endpoint, no passphrase-gated delete, no cache write-through on create, no create-time log row and no cache eviction in the sweep, so none of these is modelled.
