/** File Search store management (core/store_manager.py). The external
    service's list of stores is a field of `StoreService`; creating a store
    appends to it, with the resource name the service assigns passed in. */
module StoreManager {
  import opened Common

  /** A file inside a store, as `list_files` reports it. */
  datatype RemoteFile = RemoteFile(name: string, displayName: string)

  /** A store as the service lists it. */
  datatype StoreRecord = StoreRecord(name: string, displayName: Option<string>, files: seq<RemoteFile>)

  /** The dictionary `list_stores` returns for one store. */
  datatype StoreInfo = StoreInfo(name: string, displayName: Option<string>)

  /** The first listed store whose display name is `displayName`. */
  function FindStore(stores: seq<StoreRecord>, displayName: string): (r: Option<nat>)
    ensures r.Some? ==> r.value < |stores| && stores[r.value].displayName == Some(displayName)
    ensures r.Some? ==> forall j :: 0 <= j < r.value ==> stores[j].displayName != Some(displayName)
    ensures r.None? ==> forall j :: 0 <= j < |stores| ==> stores[j].displayName != Some(displayName)
  {
    if stores == [] then None
    else if stores[0].displayName == Some(displayName) then Some(0)
    else match FindStore(stores[1..], displayName)
         case None => None
         case Some(k) => Some(k + 1)
  }

  /** After a store is created for a display name nobody had, looking the name
      up again finds the new store, and every other display name is found
      where it was before. */
  lemma FindAfterCreate(stores: seq<StoreRecord>, displayName: string, created: string, other: string)
    requires FindStore(stores, displayName).None?
    ensures FindStore(stores + [StoreRecord(created, Some(displayName), [])], displayName) == Some(|stores|)
    ensures other != displayName ==>
              FindStore(stores + [StoreRecord(created, Some(displayName), [])], other) == FindStore(stores, other)
  {
    var s := stores + [StoreRecord(created, Some(displayName), [])];
    var r := FindStore(s, displayName);
    assert s[|stores|].displayName == Some(displayName);
    if other != displayName {
      var b := FindStore(stores, other);
      if b.Some? {
        assert s[b.value] == stores[b.value];
      }
    }
  }

  /** The store list after `get_or_create_store(displayName)`: unchanged when
      a store of that name exists, otherwise with the store the service
      creates under `created` appended. */
  function WithStore(stores: seq<StoreRecord>, displayName: string, created: string): (r: seq<StoreRecord>)
    ensures |r| == if FindStore(stores, displayName).Some? then |stores| else |stores| + 1
    ensures r[..|stores|] == stores
    ensures FindStore(r, displayName).Some?
  {
    if FindStore(stores, displayName).Some? then stores
    else FindAfterCreate(stores, displayName, created, displayName);
         stores + [StoreRecord(created, Some(displayName), [])]
  }

  /** The store list after a document is uploaded into the store at `k`
      (`upload_to_file_search_store`): that store lists the document last,
      and nothing else changes. */
  function WithFile(stores: seq<StoreRecord>, k: nat, f: RemoteFile): (r: seq<StoreRecord>)
    requires k < |stores|
    ensures |r| == |stores|
    ensures r[k] == StoreRecord(stores[k].name, stores[k].displayName, stores[k].files + [f])
    ensures forall i :: 0 <= i < |stores| && i != k ==> r[i] == stores[i]
  {
    stores[k := stores[k].(files := stores[k].files + [f])]
  }

  /** An upload changes no store's display name, so every lookup by display
      name finds the same store afterwards. */
  lemma FindAfterUpload(stores: seq<StoreRecord>, k: nat, f: RemoteFile, displayName: string)
    requires k < |stores|
    ensures FindStore(WithFile(stores, k, f), displayName) == FindStore(stores, displayName)
  {
    var after := WithFile(stores, k, f);
    assert forall i :: 0 <= i < |stores| ==> after[i].displayName == stores[i].displayName;
  }

  class StoreService {
    var stores: seq<StoreRecord>

    constructor (initial: seq<StoreRecord>)
      ensures stores == initial
    {
      stores := initial;
    }

    /** `get_or_create_store`: the name of the first store with this display
        name; when there is none, a new store is created under the name the
        service assigns (`created`) and that name is returned. */
    method GetOrCreateStore(displayName: string, created: string) returns (name: string)
      modifies this
      ensures FindStore(old(stores), displayName).Some? ==>
                stores == old(stores) && name == old(stores)[FindStore(old(stores), displayName).value].name
      ensures FindStore(old(stores), displayName).None? ==>
                stores == old(stores) + [StoreRecord(created, Some(displayName), [])] && name == created
      ensures FindStore(stores, displayName).Some? && name == stores[FindStore(stores, displayName).value].name
    {
      var i := 0;
      while i < |stores|
        invariant 0 <= i <= |stores|
        invariant forall j :: 0 <= j < i ==> stores[j].displayName != Some(displayName)
      {
        if stores[i].displayName == Some(displayName) {
          assert FindStore(stores, displayName) == Some(i);
          return stores[i].name;
        }
        i := i + 1;
      }
      FindAfterCreate(stores, displayName, created, displayName);
      stores := stores + [StoreRecord(created, Some(displayName), [])];
      name := created;
    }

    /** The service's side of `upload_to_file_search_store`: the store at `k`
        gains the document `f`. */
    method UploadDocument(k: nat, f: RemoteFile)
      requires k < |stores|
      modifies this
      ensures stores == WithFile(old(stores), k, f)
    {
      stores := WithFile(stores, k, f);
    }

    /** `list_stores`: one entry per listed store, in listing order. */
    method ListStores() returns (list: seq<StoreInfo>)
      ensures |list| == |stores|
      ensures forall i :: 0 <= i < |stores| ==> list[i] == StoreInfo(stores[i].name, stores[i].displayName)
    {
      list := [];
      for i := 0 to |stores|
        invariant |list| == i
        invariant forall k :: 0 <= k < i ==> list[k] == StoreInfo(stores[k].name, stores[k].displayName)
      {
        list := list + [StoreInfo(stores[i].name, stores[i].displayName)];
      }
    }
  }

  /** Calling `get_or_create_store` twice with the same display name returns
      the same name and creates at most one store. */
  method GetOrCreateTwice(service: StoreService, displayName: string, created1: string, created2: string)
    returns (first: string, second: string)
    modifies service
    ensures first == second
    ensures |service.stores| <= |old(service.stores)| + 1
  {
    first := service.GetOrCreateStore(displayName, created1);
    second := service.GetOrCreateStore(displayName, created2);
  }
}
