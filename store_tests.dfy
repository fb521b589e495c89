/** The repository's tests and the guard scenarios, written as client
    programs of `ParcelStore` and verified from its contracts alone. No
    statement fails in them (`failure` is always `None`). */
module StoreTests {
  import opened Parcels
  import opened Store

  /** The fixture every test starts from: a registered parcel of client
      1000 addressed to "test". */
  function TestParcel(createdAt: string): (p: Parcel)
    ensures p.client == 1000 && p.status == StatusRegistered && p.address == "test"
    ensures p.createdAt == createdAt
  {
    Parcel(0, 1000, StatusRegistered, "test", createdAt)
  }

  /** Add, read back, delete, and read again: each of the first three
      calls returns no error, and the read after the delete reports that no
      row matched. */
  method AddGetDelete(store: ParcelStore, createdAt: string)
    returns (id: int, addErr: Option<Error>, got: Parcel, getErr: Option<Error>,
             deleteErr: Option<Error>, afterDelete: Option<Error>)
    requires store.db.Valid()
    modifies store.db
    ensures store.db.Valid()
    ensures addErr == None && id != 0
    ensures getErr == None && got == Parcel(id, 1000, StatusRegistered, "test", createdAt)
    ensures deleteErr == None
    ensures afterDelete == Some(ErrNoRows)
  {
    id, addErr := store.Add(TestParcel(createdAt), None);
    got, getErr := store.Get(id, None);
    deleteErr := store.Delete(id, None);
    var gone: Parcel;
    gone, afterDelete := store.Get(id, None);
  }

  /** A registered parcel takes a new address. */
  method SetAddressOfRegistered(store: ParcelStore, createdAt: string, newAddress: string)
    returns (addErr: Option<Error>, setErr: Option<Error>, got: Parcel, getErr: Option<Error>)
    requires store.db.Valid()
    modifies store.db
    ensures store.db.Valid()
    ensures addErr == None
    ensures setErr == None
    ensures getErr == None && got.address == newAddress && got.status == StatusRegistered
  {
    var id: int;
    id, addErr := store.Add(TestParcel(createdAt), None);
    setErr := store.SetAddress(id, newAddress, None);
    got, getErr := store.Get(id, None);
  }

  /** A registered parcel is moved to delivered. */
  method SetStatusToDelivered(store: ParcelStore, createdAt: string)
    returns (addErr: Option<Error>, setErr: Option<Error>, got: Parcel, getErr: Option<Error>)
    requires store.db.Valid()
    modifies store.db
    ensures store.db.Valid()
    ensures addErr == None
    ensures setErr == None
    ensures getErr == None && got.status == StatusDelivered && got.address == "test"
  {
    var id: int;
    id, addErr := store.Add(TestParcel(createdAt), None);
    setErr := store.SetStatus(id, StatusDelivered, None);
    got, getErr := store.Get(id, None);
  }

  /** Parcels all given one client, which had no rows before, are exactly
      what the client query returns: every insert and the query return no
      error, and the query yields as many rows as were added, each equal to
      the row added under its number. */
  method AddAndGetByClient(store: ParcelStore, parcels: seq<Parcel>, client: int)
    returns (addErrs: seq<Option<Error>>, stored: seq<Parcel>, scanErr: Option<Error>,
             parcelMap: map<int, Parcel>)
    requires store.db.Valid()
    requires ClientKeys(store.db.parcels, client) == {}
    modifies store.db
    ensures store.db.Valid()
    ensures |addErrs| == |parcels| && forall j :: 0 <= j < |addErrs| ==> addErrs[j] == None
    ensures scanErr == None
    ensures |stored| == |parcels| == |parcelMap|
    ensures forall p :: p in stored ==> p.number in parcelMap && parcelMap[p.number] == p
    ensures forall k :: k in parcelMap ==> parcelMap[k] in stored
  {
    var ps := parcels;
    for i := 0 to |ps|
      invariant |ps| == |parcels|
      invariant forall j :: 0 <= j < i ==> ps[j].client == client
    {
      ps := ps[i := ps[i].(client := client)];
    }

    parcelMap := map[];
    addErrs := [];
    for i := 0 to |ps|
      invariant store.db.Valid()
      invariant |addErrs| == i && forall j :: 0 <= j < i ==> addErrs[j] == None
      invariant |ps| == |parcels|
      invariant forall j :: 0 <= j < |ps| ==> ps[j].client == client
      invariant parcelMap.Keys == ClientKeys(store.db.parcels, client)
      invariant |parcelMap| == i
      invariant forall k :: k in parcelMap ==> k in store.db.parcels && store.db.parcels[k] == parcelMap[k]
    {
      ghost var before := store.db.parcels;
      var id, err := store.Add(ps[i], None);
      addErrs := addErrs + [err];
      ClientKeysAfterInsert(before, id, ps[i], client);
      ps := ps[i := ps[i].(number := id)];
      parcelMap := parcelMap[id := ps[i]];
    }

    stored, scanErr := store.GetByClient(client, None);
    ScanMatchesClientKeys(store.db.parcels, client, stored);
    assert |parcelMap.Keys| == |parcelMap|;
    forall k | k in parcelMap ensures parcelMap[k] in stored {
      assert IsClientRow(store.db.parcels, client, store.db.parcels[k]);
    }
  }

  /** Once a parcel is delivered, deleting it reports success but the row
      is still there, unchanged. */
  method DeleteOfDelivered(store: ParcelStore, createdAt: string)
    returns (id: int, deleteErr: Option<Error>, got: Parcel, getErr: Option<Error>)
    requires store.db.Valid()
    modifies store.db
    ensures store.db.Valid()
    ensures deleteErr == None
    ensures getErr == None && got == Parcel(id, 1000, StatusDelivered, "test", createdAt)
  {
    var err: Option<Error>;
    id, err := store.Add(TestParcel(createdAt), None);
    err := store.SetStatus(id, StatusDelivered, None);
    deleteErr := store.Delete(id, None);
    got, getErr := store.Get(id, None);
  }

  /** Once a parcel is delivered, an address update reports success but
      the address stays what it was. */
  method SetAddressOfDelivered(store: ParcelStore, createdAt: string, newAddress: string)
    returns (setErr: Option<Error>, got: Parcel)
    requires store.db.Valid()
    modifies store.db
    ensures store.db.Valid()
    ensures setErr == None && got.address == "test"
  {
    var id: int;
    var err: Option<Error>;
    id, err := store.Add(TestParcel(createdAt), None);
    err := store.SetStatus(id, StatusDelivered, None);
    setErr := store.SetAddress(id, newAddress, None);
    got, err := store.Get(id, None);
  }

  /** The status setter is not gated: registered, then delivered, then
      registered again, each read back as set. */
  method StatusRoundTrip(store: ParcelStore, createdAt: string)
    returns (first: Parcel, toDelivered: Option<Error>, second: Parcel,
             toRegistered: Option<Error>, third: Parcel)
    requires store.db.Valid()
    modifies store.db
    ensures store.db.Valid()
    ensures first.status == StatusRegistered
    ensures toDelivered == None && second.status == StatusDelivered
    ensures toRegistered == None && third.status == StatusRegistered && third == first
  {
    var id: int;
    var err: Option<Error>;
    id, err := store.Add(TestParcel(createdAt), None);
    first, err := store.Get(id, None);
    toDelivered := store.SetStatus(id, StatusDelivered, None);
    second, err := store.Get(id, None);
    toRegistered := store.SetStatus(id, StatusRegistered, None);
    third, err := store.Get(id, None);
  }

  /** Deleting a registered parcel and adding another gives the new parcel
      a number the deleted one never had: numbers are not reused. */
  method DeleteThenAdd(store: ParcelStore, first: Parcel, second: Parcel)
    returns (id1: int, id2: int, got: Parcel, getErr: Option<Error>)
    requires store.db.Valid()
    requires first.status == StatusRegistered
    modifies store.db
    ensures store.db.Valid()
    ensures id1 != id2 && id1 < id2
    ensures getErr == Some(ErrNoRows)
  {
    var err: Option<Error>;
    id1, err := store.Add(first, None);
    err := store.Delete(id1, None);
    id2, err := store.Add(second, None);
    got, getErr := store.Get(id1, None);
  }
}
