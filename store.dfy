/** The parcel repository `ParcelStore` over a database handle. Each method
    runs one SQL statement; `failure` is the error the database engine
    reports for that statement, if any, which the repository passes on
    unchanged and which leaves the table as it was. */
module Store {
  import opened Parcels

  /** The database handle, reduced to what the repository touches: table
      `parcel` and the AUTOINCREMENT counter of its primary key. */
  class Database {
    var parcels: Table
    var nextNumber: int

    ghost predicate Valid()
      reads this
    {
      WellFormed(parcels, nextNumber)
    }

    /** A database whose `parcel` table is still empty. */
    constructor ()
      ensures Valid()
      ensures parcels == map[] && nextNumber == 1
    {
      parcels := map[];
      nextNumber := 1;
    }
  }

  class ParcelStore {
    const db: Database

    /** `NewParcelStore`: the store shares the handle it is given. */
    constructor (db: Database)
      ensures this.db == db
    {
      this.db := db;
    }

    /** `INSERT` a row with the caller's client, status, address and
        createdAt; the engine takes the number from its AUTOINCREMENT
        counter, and that number is returned. */
    method Add(p: Parcel, failure: Option<string>) returns (id: int, err: Option<Error>)
      requires db.Valid()
      modifies db
      ensures db.Valid()
      ensures failure.Some? ==>
        && id == 0 && err == Some(StoreFailure(failure.value))
        && db.parcels == old(db.parcels) && db.nextNumber == old(db.nextNumber)
      ensures failure.None? ==>
        && err == None
        && id == old(db.nextNumber) && id > 0 && id !in old(db.parcels)
        && db.parcels == Inserted(old(db.parcels), id, p)
        && db.nextNumber == old(db.nextNumber) + 1
    {
      if failure.Some? {
        return 0, Some(StoreFailure(failure.value));
      }
      id := db.nextNumber;
      db.parcels := Inserted(db.parcels, id, p);
      db.nextNumber := id + 1;
      err := None;
    }

    /** `SELECT` the row whose number is `number`. With no such row the
        error is `ErrNoRows`; on any error the parcel is Go's zero value. */
    method Get(number: int, failure: Option<string>) returns (p: Parcel, err: Option<Error>)
      requires db.Valid()
      ensures failure.Some? ==> p == EmptyParcel && err == Some(StoreFailure(failure.value))
      ensures failure.None? && number !in db.parcels ==> p == EmptyParcel && err == Some(ErrNoRows)
      ensures failure.None? && number in db.parcels ==>
        err == None && p == db.parcels[number] && p.number == number
    {
      if failure.Some? {
        return EmptyParcel, Some(StoreFailure(failure.value));
      }
      if number !in db.parcels {
        return EmptyParcel, Some(ErrNoRows);
      }
      p := db.parcels[number];
      err := None;
    }

    /** `SELECT` every row of `client`, collected one row at a time as the
        engine's cursor yields them. The model's cursor walks the table in
        ascending number; the contract does not depend on that order. No
        matching row is an empty result, not an error. */
    method GetByClient(client: int, failure: Option<string>) returns (res: seq<Parcel>, err: Option<Error>)
      requires db.Valid()
      ensures failure.Some? ==> res == [] && err == Some(StoreFailure(failure.value))
      ensures failure.None? ==> err == None && IsScanOf(db.parcels, client, res)
    {
      if failure.Some? {
        return [], Some(StoreFailure(failure.value));
      }
      res := [];
      var cursor := 1;
      while cursor < db.nextNumber
        invariant 1 <= cursor <= db.nextNumber
        invariant forall p :: p in res <==> IsClientRow(db.parcels, client, p) && p.number < cursor
        invariant forall i :: 0 <= i < |res| ==> res[i].number < cursor
        invariant NoDuplicateNumbers(res)
      {
        if cursor in db.parcels && db.parcels[cursor].client == client {
          var p := db.parcels[cursor];
          res := res + [p];
        }
        cursor := cursor + 1;
      }
      err := None;
    }

    /** `UPDATE` the status of row `number`, whatever it was. A missing
        row is not an error. */
    method SetStatus(number: int, status: string, failure: Option<string>) returns (err: Option<Error>)
      requires db.Valid()
      modifies db
      ensures db.Valid() && db.nextNumber == old(db.nextNumber)
      ensures failure.Some? ==> err == Some(StoreFailure(failure.value)) && db.parcels == old(db.parcels)
      ensures failure.None? ==> err == None && db.parcels == StatusUpdated(old(db.parcels), number, status)
    {
      if failure.Some? {
        return Some(StoreFailure(failure.value));
      }
      db.parcels := StatusUpdated(db.parcels, number, status);
      err := None;
    }

    /** `UPDATE` the address of row `number` if that row is registered.
        Matching no row is not an error. */
    method SetAddress(number: int, address: string, failure: Option<string>) returns (err: Option<Error>)
      requires db.Valid()
      modifies db
      ensures db.Valid() && db.nextNumber == old(db.nextNumber)
      ensures failure.Some? ==> err == Some(StoreFailure(failure.value)) && db.parcels == old(db.parcels)
      ensures failure.None? ==> err == None && db.parcels == AddressUpdated(old(db.parcels), number, address)
    {
      if failure.Some? {
        return Some(StoreFailure(failure.value));
      }
      db.parcels := AddressUpdated(db.parcels, number, address);
      err := None;
    }

    /** `DELETE` row `number` if that row is registered. Matching no row
        is not an error. */
    method Delete(number: int, failure: Option<string>) returns (err: Option<Error>)
      requires db.Valid()
      modifies db
      ensures db.Valid() && db.nextNumber == old(db.nextNumber)
      ensures failure.Some? ==> err == Some(StoreFailure(failure.value)) && db.parcels == old(db.parcels)
      ensures failure.None? ==> err == None && db.parcels == Deleted(old(db.parcels), number)
    {
      if failure.Some? {
        return Some(StoreFailure(failure.value));
      }
      db.parcels := Deleted(db.parcels, number);
      err := None;
    }
  }
}
