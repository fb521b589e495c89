# Parcel store: a verified Dafny model

This project models the parcel repository `ParcelStore` of a small Go
persistence layer for shipped parcels. The repository keeps one relational
table, `parcel`. Each row has a `number` (the primary key the database
assigns), a `client`, a `status`, an `address` and a creation timestamp
(`createdAt`). The repository runs one SQL statement per operation. Two of
its mutations are allowed only while the row's status is the literal
`"registered"`: the address update and the delete. When a row does not
match the filter, the statement changes nothing and the operation still
reports success.

The SQL engine is modelled abstractly by what its statements do:

- `parcels.dfy`, module `Parcels`. The `Parcel` record. The table as a map
  from number to row. One pure function per statement: `Inserted`,
  `StatusUpdated`, `AddressUpdated`, `Deleted` and the client filter
  `ClientKeys`. `Mutable` is the `number = :number AND status = 'registered'`
  guard. The file also holds lemmas about single statements and about the
  client scan.
- `history.dfy`, module `History`. Histories of successful statements,
  built from the same functions. Over any history, numbers are never
  reused, and a row keeps its number, client and creation time while it
  exists.
- `store.dfy`, module `Store`. Class `Database` is the database handle. It
  holds the table and the AUTOINCREMENT counter `nextNumber`. Class
  `ParcelStore` holds the handle, as the Go struct holds its `*sql.DB`. It
  has one method per Go method. Each method takes `failure`, the error the
  engine reports for that statement, if any. On a failure the method
  returns that error and the table stays as it was. Without a failure, the
  method's new state is the matching statement function applied to the old
  table. `Get` and `GetByClient` change nothing.
- `store_tests.dfy`, module `StoreTests`. The Go tests as client programs
  of `ParcelStore`, plus the guard scenarios. They are verified using only
  the store's contracts.

The `Parcel` type and the constants `ParcelStatusRegistered` and
`ParcelStatusDelivered` are not in the modelled files. They are defined
from how they are used: the fields come from the scan at parcel.go:51, the
guard's literal from parcel.go:108, and the constants from
parcel_test.go:25 and parcel_test.go:102. The file that defines them is not
part of this model. `StatusRegistered` is taken to be `"registered"`, the
literal of the guard, because the address test (parcel_test.go:78-84)
expects a freshly added parcel to pass it. The value `"delivered"` of
`StatusDelivered` appears in no modelled file and is an assumption. Nothing
depends on it beyond its differing from `"registered"`: `DeleteOfDelivered`
and `SetAddressOfDelivered` use only that, and `LeavingRegisteredFreezes`
holds for every status other than `"registered"`.

The guard `Mutable` (parcel.go:108 and parcel.go:119), the client filter
`ClientKeys` (parcel.go:65) and the one-statement effect `History.Apply`
(parcel.go:15-123) are definitions without a contract of their own. What
they mean is stated by the rows of the statement functions and lemmas that
use them: `AddressUpdated`, `Deleted`, `GuardBlocksUnregistered`,
`ClientKeysAfterInsert`, `ScanMatchesClientKeys` and `ApplyStep`.

## Model

| member | source | states |
|---|---|---|
| `Parcels.Inserted` | parcel.go:19-26 | The insert adds exactly the engine's key. The row there carries the caller's client, status, address and createdAt under that key, whatever `p.number` was. Every other row is unchanged. |
| `Parcels.StatusUpdated` | parcel.go:93-99 | Same keys. Row `n`, if it exists, gets the new status whatever its old one was, and no other field changes. Every other row is unchanged. A missing `n` leaves the table as it is. |
| `Parcels.AddressUpdated` | parcel.go:105-111 | Same keys. Row `n` gets the new address only when it exists and its status is `"registered"`. Otherwise the table is unchanged. Other rows are never touched. |
| `Parcels.Deleted` | parcel.go:117-121 | Row `n` is removed only when its status is `"registered"`, and then only that key goes. Otherwise the table is unchanged. Every row that remains is as it was. |
| `Parcels.InsertFresh` | parcel.go:15-37 | The key handed out is positive and not in use. The table stays well formed. Reading the key back gives the caller's client, status, address and createdAt, with `number` equal to the key. |
| `Parcels.UpdatesKeepKeysAndIdentity` | parcel.go:90-123 | The status and address updates keep the set of keys, and the delete only shrinks it. None of them changes a row's number, client or creation time. |
| `Parcels.GuardBlocksUnregistered` | parcel.go:103-123 | For a row whose status is not `"registered"`, the address update and the delete leave the whole table unchanged. |
| `Parcels.LeavingRegisteredFreezes` | parcel.go:90-123 | After the status is set to any non-registered value, an address update or a delete of that row is a no-op. The row keeps all its other fields. |
| `Parcels.GuardedStatementsIdempotent` | parcel.go:103-123 | Repeating the address update, or repeating the delete, gives the same table as doing it once. |
| `Parcels.StatusOverwriteReversible` | parcel.go:90-101 | Setting any status and then the old one back restores the table exactly. The setter has no gate. |
| `Parcels.DeleteRemovesRow` | parcel.go:115-123 | A delete that passes the guard makes the number unreachable, and a lookup of it then finds nothing. Every other row survives unchanged. |
| `Parcels.ClientKeysAfterInsert` | parcel.go:62-67 | After an insert under a fresh key, the client filter selects the old keys, plus the new key exactly when the new row belongs to that client. |
| `Parcels.ScanMatchesClientKeys` | parcel.go:59-88 | A complete client scan lists one row per selected key. Its length is the number of that client's rows, and it is empty exactly when the client has none. |
| `Parcels.ScanUniqueUpToOrder` | parcel.go:62-67 | Any two complete scans for the same client hold the same rows with the same multiplicities. Only the order is left open. |
| `History.ApplyStep` | parcel.go:15-123 | Each statement keeps the table well formed and never lowers the counter. It keeps every surviving row's number, client and creation time. It changes the set of keys only if it is an insert or a delete. |
| `History.RunValid` | parcel.go:15-123 | Any history of statements keeps the table well formed and the counter monotone. |
| `History.DeletedNumberNeverReused` | parcel.go:19-26 | A number below the counter with no row never gets a row again, so a deleted parcel's number is never reused. |
| `History.IdentityKeptByRun` | parcel.go:90-123 | A row that exists before and after any history has the same number, client and creation time. |
| `History.OnlyDeleteRemoves` | parcel.go:115-123 | A history with no delete never removes a row. |
| `Store.ParcelStore.constructor` | parcel.go:11-13 | The store uses exactly the handle it is given, so stores over one handle share one table. |
| `Store.ParcelStore.Add` | parcel.go:15-37 | On an engine error: returns 0 and that error, and nothing changes. Otherwise: returns the counter's value, a positive number not in the table before. The table becomes `Inserted(old table, number, p)` and the counter moves one past that number. |
| `Store.ParcelStore.Get` | parcel.go:39-57 | On an engine error: the zero parcel and a store failure. With no row: the zero parcel and `ErrNoRows`. Otherwise: exactly the stored row, whose number is the one asked for. It modifies nothing. |
| `Store.ParcelStore.GetByClient` | parcel.go:59-88 | On an engine error: an empty result and the error. Otherwise: no error, and every row of the client, only those, each once (`IsScanOf`). A client with no rows gives an empty result. It modifies nothing. |
| `Store.ParcelStore.SetStatus` | parcel.go:90-101 | Without an engine error, the table becomes `StatusUpdated(old, number, status)` and success is reported, even when no row matched. The counter is unchanged. On an error the table is unchanged. |
| `Store.ParcelStore.SetAddress` | parcel.go:103-113 | Without an engine error, the table becomes `AddressUpdated(old, number, address)` and success is reported, also when the guard matched no row. On an error the table is unchanged. |
| `Store.ParcelStore.Delete` | parcel.go:115-123 | Without an engine error, the table becomes `Deleted(old, number)` and success is reported, also when the guard matched no row. On an error the table is unchanged. |
| `StoreTests.TestParcel` | parcel_test.go:22-29 | The test fixture: client 1000, status `"registered"`, address `"test"`, and the given creation time. |
| `StoreTests.AddGetDelete` | parcel_test.go:32-60 | The add returns no error and a non-zero number. The read returns no error and gives the fixture with that number. The delete returns no error. After the delete, a read reports `ErrNoRows`. |
| `StoreTests.SetAddressOfRegistered` | parcel_test.go:63-85 | The add of the fixture returns no error. The address update of the registered parcel returns no error, and the following read returns no error and shows the new address. |
| `StoreTests.SetStatusToDelivered` | parcel_test.go:88-110 | The add of the fixture returns no error. The status update returns no error, and the following read returns no error and shows `"delivered"`. |
| `StoreTests.AddAndGetByClient` | parcel_test.go:113-156 | The client had no rows before. Every add and the client query return no error. After adding N parcels for it, the query returns exactly N rows, each equal to the row added under its number, and every added row appears. |
| `StoreTests.DeleteOfDelivered` | parcel.go:117-121 | Deleting a delivered parcel reports success, but the row can still be read without error and is the fixture under its number with status `"delivered"`: number, client, address and creation time unchanged. |
| `StoreTests.SetAddressOfDelivered` | parcel.go:105-111 | An address update of a delivered parcel reports success, but the old address is still read back. |
| `StoreTests.StatusRoundTrip` | parcel.go:93-99 | Both status updates, registered to delivered and back, return no error. Each read shows the status just set, and the final row equals the first. |
| `StoreTests.DeleteThenAdd` | parcel.go:15-37 | After a registered parcel is deleted, the next insert gets a larger number, so the deleted number is not handed out again, and reading the deleted number reports `ErrNoRows`. |

## Left out

- The `database/sql` driver, connection handling and `rows.Close` (parcel.go:71) are foreign library calls. The handle is reduced to the table and its key counter.
- Store.ParcelStore.GetByClient: an engine error is modelled only for the query itself (parcel.go:62-70). A failing `rows.Scan` in the middle of the scan (parcel.go:76-79) and a failing `rows.Err()` (parcel.go:83-85) are not modelled; both return `nil` and the error.
- Store.ParcelStore.GetByClient: the model's cursor walks the rows in ascending number. Real engines may yield any order. The contract (`IsScanOf`) and `ScanUniqueUpToOrder` do not depend on the order.
- Store.ParcelStore.Add: the failure of `LastInsertId` (parcel.go:31-34) and the `int64` to `int` conversion (parcel.go:36) are not modelled. Numbers are unbounded integers taken from the AUTOINCREMENT counter.
- SQL text and named-parameter binding are not modelled. Only the meaning of each statement's VALUES, SET and WHERE clauses is.
- Concurrency is not modelled. Each method is one atomic state change, and the model has no interleaving between statements.
- Store.ParcelStore.Add: that numbers are never reused (`History.DeletedNumberNeverReused`, `StoreTests.DeleteThenAdd`) rests on the key being declared AUTOINCREMENT. The schema is not in the modelled files. A plain SQLite `INTEGER PRIMARY KEY` may hand out the largest deleted number again, and the model does not cover that case.
- Store.Database.constructor is a fresh, empty `parcel` table. Opening `tracker.db` and creating its schema are not in the modelled files.
- The test harness's random client ids (parcel_test.go:13-19, parcel_test.go:129) become a parameter, with the requirement that the client has no rows yet. `time.Now` and RFC 3339 formatting (parcel_test.go:27) become a `createdAt` parameter, an opaque string.
