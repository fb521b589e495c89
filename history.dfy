/** Sequences of successful repository statements against one table, and
    what holds of every such history: numbers are never reused, and a row
    keeps its number, client and creation time for as long as it exists. */
module History {
  import opened Parcels

  /** One successful statement of the repository. */
  datatype Statement =
    | Add(p: Parcel)
    | SetStatus(n: int, status: string)
    | SetAddress(n: int, address: string)
    | Delete(n: int)

  /** The table together with its AUTOINCREMENT counter. */
  datatype TableState = TableState(rows: Table, next: int)

  ghost predicate Valid(st: TableState) {
    WellFormed(st.rows, st.next)
  }

  /** The effect of one statement; an insert takes the counter's key. */
  function Apply(st: TableState, op: Statement): TableState {
    match op
    case Add(p) => TableState(Inserted(st.rows, st.next, p), st.next + 1)
    case SetStatus(n, s) => TableState(StatusUpdated(st.rows, n, s), st.next)
    case SetAddress(n, a) => TableState(AddressUpdated(st.rows, n, a), st.next)
    case Delete(n) => TableState(Deleted(st.rows, n), st.next)
  }

  /** The effect of a history of statements, first to last. */
  function Run(st: TableState, ops: seq<Statement>): TableState
    decreases |ops|
  {
    if ops == [] then st else Run(Apply(st, ops[0]), ops[1..])
  }

  /** One statement keeps the table well formed, never lowers the counter,
      keeps every surviving row's number, client and creation time, and
      changes the set of keys only if it is an insert or a delete. */
  lemma ApplyStep(st: TableState, op: Statement)
    requires Valid(st)
    ensures Valid(Apply(st, op))
    ensures Apply(st, op).next >= st.next
    ensures IdentityKept(st.rows, Apply(st, op).rows)
    ensures Apply(st, op).rows.Keys != st.rows.Keys ==> op.Add? || op.Delete?
  {
    InsertFresh(st.rows, st.next, if op.Add? then op.p else EmptyParcel);
  }

  /** Every history keeps the table well formed and the counter monotone. */
  lemma {:induction false} RunValid(st: TableState, ops: seq<Statement>)
    requires Valid(st)
    ensures Valid(Run(st, ops))
    ensures Run(st, ops).next >= st.next
    decreases |ops|
  {
    if ops != [] {
      ApplyStep(st, ops[0]);
      RunValid(Apply(st, ops[0]), ops[1..]);
    }
  }

  /** A key below the counter that is not in the table never comes back:
      the store does not reuse the number of a deleted parcel. */
  lemma {:induction false} DeletedNumberNeverReused(st: TableState, ops: seq<Statement>, k: int)
    requires Valid(st)
    requires k < st.next && k !in st.rows
    ensures k !in Run(st, ops).rows
    decreases |ops|
  {
    if ops != [] {
      ApplyStep(st, ops[0]);
      DeletedNumberNeverReused(Apply(st, ops[0]), ops[1..], k);
    }
  }

  /** A row present before and after any history has kept its number,
      client and creation time through it. */
  lemma {:induction false} IdentityKeptByRun(st: TableState, ops: seq<Statement>, k: int)
    requires Valid(st)
    requires k in st.rows && k in Run(st, ops).rows
    ensures Run(st, ops).rows[k].number == st.rows[k].number
    ensures Run(st, ops).rows[k].client == st.rows[k].client
    ensures Run(st, ops).rows[k].createdAt == st.rows[k].createdAt
    decreases |ops|
  {
    if ops != [] {
      var st1 := Apply(st, ops[0]);
      ApplyStep(st, ops[0]);
      if k in st1.rows {
        IdentityKeptByRun(st1, ops[1..], k);
      } else {
        DeletedNumberNeverReused(st1, ops[1..], k);
      }
    }
  }

  /** A history of inserts, status and address updates (no delete) never
      removes a row. */
  lemma {:induction false} OnlyDeleteRemoves(st: TableState, ops: seq<Statement>)
    requires forall i :: 0 <= i < |ops| ==> !ops[i].Delete?
    ensures st.rows.Keys <= Run(st, ops).rows.Keys
    decreases |ops|
  {
    if ops != [] {
      OnlyDeleteRemoves(Apply(st, ops[0]), ops[1..]);
    }
  }
}
