/** The parcel record and the `parcel` table as the repository sees it:
    the rows keyed by their primary key `number`, and what each SQL
    statement of the repository does to them. */
module Parcels {

  datatype Option<T> = None | Some(value: T)

  /** One row of table `parcel`. */
  datatype Parcel = Parcel(number: int, client: int, status: string, address: string, createdAt: string)

  /** The status values the repository and its callers use. The store
      accepts any string; only `StatusRegistered` is special to it. */
  const StatusRegistered: string := "registered"
  const StatusDelivered: string := "delivered"

  /** Go's zero value `Parcel{}`, which is what comes back beside an error. */
  const EmptyParcel: Parcel := Parcel(0, 0, "", "", "")

  /** The two kinds of failure a caller can tell apart: no row matched a
      point lookup (`sql.ErrNoRows`), or the engine itself failed. */
  datatype Error = ErrNoRows | StoreFailure(message: string)

  /** The contents of table `parcel`, by primary key. */
  type Table = map<int, Parcel>

  /** Every row is stored under its own number. */
  ghost predicate KeyedByNumber(t: Table) {
    forall k :: k in t ==> t[k].number == k
  }

  /** The engine's invariant for an AUTOINCREMENT key: all keys are
      positive and below the next key it will hand out. */
  ghost predicate WellFormed(t: Table, next: int) {
    && next >= 1
    && KeyedByNumber(t)
    && (forall k :: k in t ==> 1 <= k < next)
  }

  /** No row's `number`, `client` or `createdAt` differs between `t` and `t'`. */
  ghost predicate IdentityKept(t: Table, t': Table) {
    forall k :: k in t && k in t' ==>
      t'[k].number == t[k].number && t'[k].client == t[k].client && t'[k].createdAt == t[k].createdAt
  }

  // ---------------------------------------------------------------------
  // INSERT INTO parcel (client, status, address, created_at) VALUES (...)
  // ---------------------------------------------------------------------

  /** The table after inserting `p` under the key `key` chosen by the
      engine; the caller's `p.number` is not part of the statement. */
  function Inserted(t: Table, key: int, p: Parcel): (t': Table)
    ensures t'.Keys == t.Keys + {key}
    ensures t'[key] == Parcel(key, p.client, p.status, p.address, p.createdAt)
    ensures forall k :: k in t && k != key ==> t'[k] == t[k]
  {
    t[key := p.(number := key)]
  }

  // ---------------------------------------------------------------------
  // UPDATE parcel SET status = :status WHERE number = :number
  // ---------------------------------------------------------------------

  /** The table after the unconditional status update of row `n`. */
  function StatusUpdated(t: Table, n: int, s: string): (t': Table)
    ensures t'.Keys == t.Keys
    ensures n in t ==> t'[n] == t[n].(status := s)
    ensures forall k :: k in t && k != n ==> t'[k] == t[k]
  {
    if n in t then t[n := t[n].(status := s)] else t
  }

  /** The filter `number = :number AND status = 'registered'` shared by
      the address update and the delete. */
  predicate Mutable(t: Table, n: int) {
    n in t && t[n].status == StatusRegistered
  }

  // ---------------------------------------------------------------------
  // UPDATE parcel SET address = :address
  //   WHERE number = :number AND status = 'registered'
  // ---------------------------------------------------------------------

  /** The table after the guarded address update of row `n`. */
  function AddressUpdated(t: Table, n: int, a: string): (t': Table)
    ensures t'.Keys == t.Keys
    ensures Mutable(t, n) ==> t'[n] == t[n].(address := a)
    ensures !Mutable(t, n) ==> t' == t
    ensures forall k :: k in t && k != n ==> t'[k] == t[k]
  {
    if Mutable(t, n) then t[n := t[n].(address := a)] else t
  }

  // ---------------------------------------------------------------------
  // DELETE FROM parcel WHERE number = :number AND status = 'registered'
  // ---------------------------------------------------------------------

  /** The table after the guarded delete of row `n`. */
  function Deleted(t: Table, n: int): (t': Table)
    ensures Mutable(t, n) ==> t'.Keys == t.Keys - {n} && n !in t'
    ensures !Mutable(t, n) ==> t' == t
    ensures forall k :: k in t' ==> k in t && t'[k] == t[k]
  {
    if Mutable(t, n) then t - {n} else t
  }

  // ---------------------------------------------------------------------
  // SELECT ... FROM parcel WHERE client = :client
  // ---------------------------------------------------------------------

  /** The keys of the rows the client filter selects. */
  function ClientKeys(t: Table, c: int): set<int> {
    set k | k in t && t[k].client == c
  }

  /** `p` is, verbatim, a stored row of client `c`. */
  ghost predicate IsClientRow(t: Table, c: int, p: Parcel) {
    p.number in t && t[p.number] == p && p.client == c
  }

  predicate NoDuplicateNumbers(s: seq<Parcel>) {
    forall i, j :: 0 <= i < j < |s| ==> s[i].number != s[j].number
  }

  /** `res` is a complete answer to the client query, in some order:
      it holds every row of client `c`, nothing else, and each row once. */
  ghost predicate IsScanOf(t: Table, c: int, res: seq<Parcel>) {
    && (forall p :: p in res <==> IsClientRow(t, c, p))
    && NoDuplicateNumbers(res)
  }

  /** The numbers of the parcels in `s`. */
  function Numbers(s: seq<Parcel>): (ns: set<int>)
    ensures forall i :: 0 <= i < |s| ==> s[i].number in ns
    ensures forall k :: k in ns ==> exists i :: 0 <= i < |s| && s[i].number == k
    decreases |s|
  {
    if s == [] then {} else {s[0].number} + Numbers(s[1..])
  }

  // ---------------------------------------------------------------------
  // Properties of single statements
  // ---------------------------------------------------------------------

  /** The key AUTOINCREMENT hands out is positive and not yet in use, and
      inserting under it keeps the table well formed. Reading that key
      back gives the caller's client, status, address and createdAt. */
  lemma InsertFresh(t: Table, next: int, p: Parcel)
    requires WellFormed(t, next)
    ensures next > 0 && next !in t
    ensures WellFormed(Inserted(t, next, p), next + 1)
    ensures IdentityKept(t, Inserted(t, next, p))
    ensures var r := Inserted(t, next, p)[next];
      r.number == next && r.client == p.client && r.status == p.status
      && r.address == p.address && r.createdAt == p.createdAt
  {
  }

  /** Only the insert and the delete change which keys the table holds;
      no statement changes a row's number, client or creation time. */
  lemma UpdatesKeepKeysAndIdentity(t: Table, n: int, s: string, a: string)
    ensures StatusUpdated(t, n, s).Keys == t.Keys && IdentityKept(t, StatusUpdated(t, n, s))
    ensures AddressUpdated(t, n, a).Keys == t.Keys && IdentityKept(t, AddressUpdated(t, n, a))
    ensures Deleted(t, n).Keys <= t.Keys && IdentityKept(t, Deleted(t, n))
  {
  }

  /** A row that has left the registered state is frozen for the address
      update and the delete: both leave the whole table as it is. */
  lemma GuardBlocksUnregistered(t: Table, n: int, a: string)
    requires n in t && t[n].status != StatusRegistered
    ensures AddressUpdated(t, n, a) == t
    ensures Deleted(t, n) == t
  {
  }

  /** Moving a row to any non-registered status (e.g. delivered) makes a
      later address update or delete a no-op that keeps the row. */
  lemma LeavingRegisteredFreezes(t: Table, n: int, s: string, a: string)
    requires n in t && s != StatusRegistered
    ensures AddressUpdated(StatusUpdated(t, n, s), n, a) == StatusUpdated(t, n, s)
    ensures Deleted(StatusUpdated(t, n, s), n) == StatusUpdated(t, n, s)
    ensures StatusUpdated(t, n, s)[n] == t[n].(status := s)
  {
  }

  /** Repeating the address update or the delete changes nothing more. */
  lemma GuardedStatementsIdempotent(t: Table, n: int, a: string)
    ensures AddressUpdated(AddressUpdated(t, n, a), n, a) == AddressUpdated(t, n, a)
    ensures Deleted(Deleted(t, n), n) == Deleted(t, n)
  {
  }

  /** Overwriting the status is ungated: setting any status and then the
      old one back restores the table exactly. */
  lemma StatusOverwriteReversible(t: Table, n: int, s: string)
    requires n in t
    ensures StatusUpdated(StatusUpdated(t, n, s), n, t[n].status) == t
  {
  }

  /** A delete that passed the guard makes the row unreachable by key. */
  lemma DeleteRemovesRow(t: Table, n: int)
    requires Mutable(t, n)
    ensures n !in Deleted(t, n)
    ensures forall k :: k in t && k != n ==> k in Deleted(t, n) && Deleted(t, n)[k] == t[k]
  {
  }

  /** How the client filter sees an insert under a fresh key. */
  lemma ClientKeysAfterInsert(t: Table, key: int, p: Parcel, c: int)
    requires key !in t
    ensures ClientKeys(Inserted(t, key, p), c)
         == if p.client == c then ClientKeys(t, c) + {key} else ClientKeys(t, c)
  {
  }

  // ---------------------------------------------------------------------
  // Properties of the client scan
  // ---------------------------------------------------------------------

  /** A sequence with distinct numbers has as many numbers as elements. */
  lemma {:induction false} NumbersCardinality(s: seq<Parcel>)
    requires NoDuplicateNumbers(s)
    ensures |Numbers(s)| == |s|
  {
    if s != [] {
      var rest := s[1..];
      assert NoDuplicateNumbers(rest) by {
        forall i, j | 0 <= i < j < |rest| ensures rest[i].number != rest[j].number {
          assert rest[i] == s[i + 1] && rest[j] == s[j + 1];
        }
      }
      NumbersCardinality(rest);
      forall i | 0 <= i < |rest| ensures rest[i].number != s[0].number {
        assert rest[i] == s[i + 1];
      }
      assert s[0].number !in Numbers(rest);
    }
  }

  /** A complete client scan lists exactly the keys the client filter
      selects, one row per key: its length is their number, and it is
      empty exactly when the client has no rows. */
  lemma ScanMatchesClientKeys(t: Table, c: int, res: seq<Parcel>)
    requires KeyedByNumber(t)
    requires IsScanOf(t, c, res)
    ensures Numbers(res) == ClientKeys(t, c)
    ensures |res| == |ClientKeys(t, c)|
    ensures res == [] <==> ClientKeys(t, c) == {}
  {
    forall k | k in Numbers(res) ensures k in ClientKeys(t, c) {
      var i :| 0 <= i < |res| && res[i].number == k;
      assert res[i] in res;
    }
    forall k | k in ClientKeys(t, c) ensures k in Numbers(res) {
      assert IsClientRow(t, c, t[k]);
      var i :| 0 <= i < |res| && res[i] == t[k];
    }
    NumbersCardinality(res);
  }

  /** In a sequence with distinct numbers every element occurs once. */
  lemma {:induction false} DistinctOccursOnce(s: seq<Parcel>, p: Parcel)
    requires NoDuplicateNumbers(s)
    ensures multiset(s)[p] == if p in s then 1 else 0
  {
    if s != [] {
      var rest := s[1..];
      assert s == [s[0]] + rest;
      assert NoDuplicateNumbers(rest) by {
        forall i, j | 0 <= i < j < |rest| ensures rest[i].number != rest[j].number {
          assert rest[i] == s[i + 1] && rest[j] == s[j + 1];
        }
      }
      DistinctOccursOnce(rest, p);
      forall i | 0 <= i < |rest| ensures rest[i] != s[0] {
        assert rest[i] == s[i + 1];
      }
      assert s[0] !in rest;
    }
  }

  /** The client scan's order is unspecified, but nothing else is: any two
      complete scans of the same table hold the same rows. */
  lemma ScanUniqueUpToOrder(t: Table, c: int, r1: seq<Parcel>, r2: seq<Parcel>)
    requires IsScanOf(t, c, r1) && IsScanOf(t, c, r2)
    ensures multiset(r1) == multiset(r2)
  {
    forall p ensures multiset(r1)[p] == multiset(r2)[p] {
      DistinctOccursOnce(r1, p);
      DistinctOccursOnce(r2, p);
    }
  }
}
