/** Reconciling the `documents` table with the File Search stores
    (scripts/sync_stores.py). The stores' listing is an input: each listed
    store with its files, or `None` where `list_files` raised. The
    `all_files` dict is a sequence of values with distinct display names,
    in insertion order. */
module SyncStores {
  import opened Common
  import opened Schema
  import Sorting
  import VersionNaming
  import Config

  /** The marker in a display name that makes a store primary. */
  const PrimaryMarker: string := "원본"

  /** `uploaded_by` of the rows sync inserts. */
  const SyncUploader: string := "admin_001"

  function OrEmpty(s: Option<string>): string
  {
    match s
    case Some(x) => x
    case None => ""
  }

  /** `"primary" if "원본" in (store.display_name or "") else "correction"`. */
  function StoreTypeOf(displayName: Option<string>): (t: StoreType)
    ensures t == Primary <==> Contains(OrEmpty(displayName), PrimaryMarker)
  {
    if Contains(OrEmpty(displayName), PrimaryMarker) then Primary else Correction
  }

  /** Under the configured display names the primary store maps to
      `primary` and the correction store to `correction`. */
  lemma ConfiguredStoreTypes(primary: string, correction: string)
    requires primary == Config.PrimaryStoreDisplayName && correction == Config.CorrectionStoreDisplayName
    ensures StoreTypeOf(Some(primary)) == Primary
    ensures StoreTypeOf(Some(correction)) == Correction
  {
    assert OccursAt(primary, PrimaryMarker, 5) by {
      assert |primary| == 7 && |PrimaryMarker| == 2;
      assert primary[5] == PrimaryMarker[0] && primary[6] == PrimaryMarker[1];
    }
    assert forall k :: 0 <= k < |correction| ==> correction[k] != PrimaryMarker[0] by {
      assert |correction| == 7;
      assert correction[0] == '사' && correction[1] == '내' && correction[2] == '규' && correction[3] == '정';
      assert correction[4] == '-' && correction[5] == '교' && correction[6] == '정';
      assert PrimaryMarker[0] == '원';
    }
    forall i: nat | i <= |correction| ensures !OccursAt(correction, PrimaryMarker, i) {
      if i < |correction| {
        assert correction[i] != PrimaryMarker[0];
      }
    }
  }

  // ---- list_store_files ----

  datatype StoreFile = StoreFile(name: string, displayName: string)

  /** A store as `file_search_stores.list()` reports it; `files` is `None`
      when `list_files` raised for it, which only skips the store. */
  datatype ListedStore = ListedStore(name: string, displayName: Option<string>, files: Option<seq<StoreFile>>)

  /** One value of the `all_files` dict. */
  datatype FileInfo = FileInfo(storeName: string, storeDisplayName: Option<string>, storeType: StoreType,
                               fileResourceName: string, displayName: string)

  function InfoOf(store: ListedStore, f: StoreFile): FileInfo
  {
    FileInfo(store.name, store.displayName, StoreTypeOf(store.displayName), f.name, f.displayName)
  }

  function Infos(store: ListedStore, fs: seq<StoreFile>): (r: seq<FileInfo>)
    ensures |r| == |fs|
    ensures forall i :: 0 <= i < |fs| ==> r[i] == InfoOf(store, fs[i])
  {
    seq(|fs|, i requires 0 <= i < |fs| => InfoOf(store, fs[i]))
  }

  /** Every file of every store whose listing succeeded, in listing order. */
  function Listed(stores: seq<ListedStore>): seq<FileInfo>
    decreases |stores|
  {
    if stores == [] then []
    else
      var n := |stores| - 1;
      Listed(stores[..n]) + match stores[n].files case None => [] case Some(fs) => Infos(stores[n], fs)
  }

  /** The last listed file with display name `d`: the one whose
      assignment to `all_files[d]` happens last. */
  function LastWith(xs: seq<FileInfo>, d: string): (r: Option<FileInfo>)
    decreases |xs|
    ensures r.Some? ==> r.value in xs && r.value.displayName == d
    ensures r.None? ==> forall i :: 0 <= i < |xs| ==> xs[i].displayName != d
  {
    if xs == [] then None
    else if xs[|xs| - 1].displayName == d then Some(xs[|xs| - 1])
    else LastWith(xs[..|xs| - 1], d)
  }

  lemma LastWithAppend(xs: seq<FileInfo>, x: FileInfo, d: string)
    ensures LastWith(xs + [x], d) == if x.displayName == d then Some(x) else LastWith(xs, d)
  {
    assert (xs + [x])[..|xs|] == xs;
  }

  /** The keys of the dict do not repeat. */
  ghost predicate UniqueKeys(dict: seq<FileInfo>)
  {
    forall i, j :: 0 <= i < j < |dict| ==> dict[i].displayName != dict[j].displayName
  }

  function KeyIndex(dict: seq<FileInfo>, d: string): (r: Option<nat>)
    ensures r.Some? ==> r.value < |dict| && dict[r.value].displayName == d
    ensures r.None? ==> forall j :: 0 <= j < |dict| ==> dict[j].displayName != d
  {
    if dict == [] then None
    else if dict[0].displayName == d then Some(0)
    else match KeyIndex(dict[1..], d)
         case None => None
         case Some(k) => Some(k + 1)
  }

  /** `all_files.get(d)`. */
  function Lookup(dict: seq<FileInfo>, d: string): (r: Option<FileInfo>)
    ensures r.Some? ==> r.value in dict && r.value.displayName == d
    ensures r.None? ==> forall j :: 0 <= j < |dict| ==> dict[j].displayName != d
  {
    match KeyIndex(dict, d)
    case None => None
    case Some(k) => Some(dict[k])
  }

  /** `all_files[info.display_name] = info`: a present key keeps its
      position and takes the new value, a new key goes last. */
  function Put(dict: seq<FileInfo>, info: FileInfo): seq<FileInfo>
  {
    match KeyIndex(dict, info.displayName)
    case Some(k) => dict[k := info]
    case None => dict + [info]
  }

  /** With distinct keys, looking up a key finds its one entry. */
  lemma LookupAt(dict: seq<FileInfo>, i: nat)
    requires UniqueKeys(dict) && i < |dict|
    ensures Lookup(dict, dict[i].displayName) == Some(dict[i])
  {
  }

  /** After the assignment the key holds the new value, every other key its
      old one, and keys still do not repeat. */
  lemma PutLookup(dict: seq<FileInfo>, info: FileInfo)
    requires UniqueKeys(dict)
    ensures UniqueKeys(Put(dict, info))
    ensures forall d :: Lookup(Put(dict, info), d) == if d == info.displayName then Some(info) else Lookup(dict, d)
  {
    var r := Put(dict, info);
    assert UniqueKeys(r);
    forall d ensures Lookup(r, d) == if d == info.displayName then Some(info) else Lookup(dict, d) {
      var at := KeyIndex(dict, info.displayName);
      if at.Some? {
        assert |r| == |dict| && r[at.value] == info;
        LookupAt(r, at.value);
        if d != info.displayName {
          if Lookup(dict, d).Some? {
            var i := KeyIndex(dict, d).value;
            assert r[i] == dict[i];
            LookupAt(r, i);
          }
        }
      } else {
        assert r[|dict|] == info;
        LookupAt(r, |dict|);
        if d != info.displayName {
          if Lookup(dict, d).Some? {
            var i := KeyIndex(dict, d).value;
            assert r[i] == dict[i];
            LookupAt(r, i);
          }
        }
      }
    }
  }

  /** The last file named `d` in `xs + ys` is the last such in `ys`, if any. */
  lemma {:induction false} LastWithConcat(xs: seq<FileInfo>, ys: seq<FileInfo>, d: string)
    decreases |ys|
    ensures LastWith(xs + ys, d) == if LastWith(ys, d).Some? then LastWith(ys, d) else LastWith(xs, d)
  {
    if ys == [] {
      assert xs + ys == xs;
    } else {
      var n := |ys| - 1;
      LastWithConcat(xs, ys[..n], d);
      assert xs + ys == (xs + ys[..n]) + [ys[n]];
      assert ys == ys[..n] + [ys[n]];
      LastWithAppend(xs + ys[..n], ys[n], d);
      LastWithAppend(ys[..n], ys[n], d);
    }
  }

  /** The assignments for one store's files, in listing order. */
  method PutAll(dict: seq<FileInfo>, infos: seq<FileInfo>) returns (r: seq<FileInfo>)
    requires UniqueKeys(dict)
    ensures UniqueKeys(r)
    ensures forall d :: Lookup(r, d) == if LastWith(infos, d).Some? then LastWith(infos, d) else Lookup(dict, d)
  {
    r := dict;
    for j := 0 to |infos|
      invariant UniqueKeys(r)
      invariant forall d :: Lookup(r, d) == if LastWith(infos[..j], d).Some? then LastWith(infos[..j], d) else Lookup(dict, d)
    {
      assert infos[..j + 1] == infos[..j] + [infos[j]];
      forall d {
        LastWithAppend(infos[..j], infos[j], d);
      }
      PutLookup(r, infos[j]);
      r := Put(r, infos[j]);
    }
    assert infos[..|infos|] == infos;
  }

  /** `list_store_files`: the dict after all assignments holds, for each
      display name, the value of the last listed file with that name. */
  method ListStoreFiles(stores: seq<ListedStore>) returns (allFiles: seq<FileInfo>)
    ensures UniqueKeys(allFiles)
    ensures forall d :: Lookup(allFiles, d) == LastWith(Listed(stores), d)
  {
    allFiles := [];
    for i := 0 to |stores|
      invariant UniqueKeys(allFiles)
      invariant forall d :: Lookup(allFiles, d) == LastWith(Listed(stores[..i]), d)
    {
      var store := stores[i];
      assert stores[..i + 1][..i] == stores[..i];
      var infos := match store.files case None => [] case Some(fs) => Infos(store, fs);
      assert Listed(stores[..i + 1]) == Listed(stores[..i]) + infos;
      forall d {
        LastWithConcat(Listed(stores[..i]), infos, d);
      }
      if store.files.Some? {
        allFiles := PutAll(allFiles, infos);
      }
    }
    assert stores[..|stores|] == stores;
  }

  // ---- cmd_sync ----

  /** A `(file_name, store_type)` pair. */
  datatype Pair = Pair(fileName: string, storeType: StoreType)

  function FilePair(info: FileInfo): Pair
  {
    Pair(info.displayName, info.storeType)
  }

  function RowPair(row: DocumentRow): Pair
  {
    Pair(row.fileName, row.storeType)
  }

  /** `store_file_set`. */
  function StoreSet(dict: seq<FileInfo>): set<Pair>
  {
    set i | 0 <= i < |dict| :: FilePair(dict[i])
  }

  /** `db_file_set`. */
  function DbSet(rows: seq<DocumentRow>): set<Pair>
  {
    set i | 0 <= i < |rows| :: RowPair(rows[i])
  }

  /** The dict values whose pair is not in `db`, in dict order. */
  function Missing(dict: seq<FileInfo>, db: set<Pair>): (r: seq<FileInfo>)
    decreases |dict|
    ensures |r| <= |dict|
  {
    if dict == [] then []
    else
      var n := |dict| - 1;
      var prev := Missing(dict[..n], db);
      if FilePair(dict[n]) in db then prev else prev + [dict[n]]
  }

  function DisplayNameOf(info: FileInfo): string
  {
    info.displayName
  }

  /** `sorted(missing_in_db)`: with distinct display names, ordering the
      pairs is ordering by display name. */
  function MissingSorted(dict: seq<FileInfo>, db: set<Pair>): seq<FileInfo>
  {
    Sorting.SortBy(Missing(dict, db), DisplayNameOf)
  }

  /** The row sync inserts for a store file. */
  function SyncRow(info: FileInfo, id: string): DocumentRow
  {
    DocumentRow(id, info.displayName, info.displayName, VersionNaming.StemOf(info.displayName), "",
                true, info.storeName, info.storeType, Some(SyncUploader))
  }

  /** A way of making the inserted row for a store file and an id. */
  type RowMaker = (FileInfo, string) -> DocumentRow

  /** The row made for a file gets the given id and the file's pair. */
  ghost predicate Faithful(mk: RowMaker)
  {
    forall info, id :: mk(info, id).id == id && RowPair(mk(info, id)) == FilePair(info)
  }

  /** Each inserted row has `version_group` = the stem of its display name,
      `version_date` = `''`, `is_latest` = 1 and `uploaded_by` = `admin_001`. */
  lemma SyncRowFields(info: FileInfo, id: string)
    ensures SyncRow(info, id).versionGroup == VersionNaming.StemOf(info.displayName)
    ensures SyncRow(info, id).versionDate == "" && SyncRow(info, id).isLatest
    ensures SyncRow(info, id).uploadedBy == Some(SyncUploader)
    ensures SyncRow(info, id).fileName == info.displayName == SyncRow(info, id).displayName
    ensures SyncRow(info, id).storeName == info.storeName && SyncRow(info, id).storeType == info.storeType
  {
  }

  lemma SyncRowFaithful()
    ensures Faithful(SyncRow)
  {
  }

  /** The rows the INSERT loop adds, `ids[k]` going to `missing[k]`. */
  function Inserted(missing: seq<FileInfo>, ids: seq<string>, mk: RowMaker): (r: seq<DocumentRow>)
    requires |missing| <= |ids|
    ensures |r| == |missing|
    ensures forall k :: 0 <= k < |missing| ==> r[k] == mk(missing[k], ids[k])
  {
    seq(|missing|, k requires 0 <= k < |missing| => mk(missing[k], ids[k]))
  }

  /** `DELETE FROM documents WHERE (file_name, store_type)` is one of `ps`. */
  function RemovePairs(rows: seq<DocumentRow>, ps: set<Pair>): (r: seq<DocumentRow>)
    decreases |rows|
    ensures |r| <= |rows|
  {
    if rows == [] then []
    else
      var n := |rows| - 1;
      var prev := RemovePairs(rows[..n], ps);
      if RowPair(rows[n]) in ps then prev else prev + [rows[n]]
  }

  /** The orphan pairs, each once, in order of first appearance. */
  function Orphans(rows: seq<DocumentRow>, store: set<Pair>): seq<Pair>
    decreases |rows|
  {
    if rows == [] then []
    else
      var n := |rows| - 1;
      var prev := Orphans(rows[..n], store);
      var p := RowPair(rows[n]);
      if p in store || p in prev then prev else prev + [p]
  }

  lemma {:induction false} OrphansFacts(rows: seq<DocumentRow>, store: set<Pair>)
    decreases |rows|
    ensures Distinct(Orphans(rows, store))
    ensures (set p | p in Orphans(rows, store)) == DbSet(rows) - store
  {
    if rows != [] {
      var n := |rows| - 1;
      OrphansFacts(rows[..n], store);
      var prev := Orphans(rows[..n], store);
      var p := RowPair(rows[n]);
      var r := Orphans(rows, store);
      if p in store || p in prev {
        assert r == prev;
      } else {
        assert r == prev + [p];
        assert (set x | x in r) == (set x | x in prev) + {p};
      }
      assert DbSet(rows) == DbSet(rows[..n]) + {RowPair(rows[n])} by {
        forall p | p in DbSet(rows) ensures p in DbSet(rows[..n]) + {RowPair(rows[n])} {
          var i :| 0 <= i < |rows| && p == RowPair(rows[i]);
          if i < n {
            assert rows[..n][i] == rows[i];
          }
        }
        forall p | p in DbSet(rows[..n]) ensures p in DbSet(rows) {
          var i :| 0 <= i < n && p == RowPair(rows[..n][i]);
          assert rows[..n][i] == rows[i];
        }
      }
    }
  }

  /** `removed` is the number of orphan pairs. */
  lemma OrphansCount(rows: seq<DocumentRow>, store: set<Pair>)
    ensures |Orphans(rows, store)| == |DbSet(rows) - store|
  {
    OrphansFacts(rows, store);
    DistinctCard(Orphans(rows, store));
  }

  lemma {:induction false} MissingFacts(dict: seq<FileInfo>, db: set<Pair>)
    decreases |dict|
    ensures forall x :: x in Missing(dict, db) <==> x in dict && FilePair(x) !in db
    ensures UniqueKeys(dict) ==> UniqueKeys(Missing(dict, db))
  {
    if dict != [] {
      var n := |dict| - 1;
      MissingFacts(dict[..n], db);
      assert dict == dict[..n] + [dict[n]];
      if UniqueKeys(dict) {
        var prev := Missing(dict[..n], db);
        assert UniqueKeys(dict[..n]);
        forall i | 0 <= i < |prev| ensures prev[i].displayName != dict[n].displayName {
          assert prev[i] in dict[..n];
        }
      }
    }
  }

  function Pairs(infos: seq<FileInfo>): (r: seq<Pair>)
    ensures |r| == |infos|
    ensures forall i :: 0 <= i < |infos| ==> r[i] == FilePair(infos[i])
  {
    seq(|infos|, i requires 0 <= i < |infos| => FilePair(infos[i]))
  }

  /** `added` is the number of missing pairs. */
  lemma MissingCount(dict: seq<FileInfo>, db: set<Pair>)
    requires UniqueKeys(dict)
    ensures |Missing(dict, db)| == |StoreSet(dict) - db|
  {
    var m := Missing(dict, db);
    MissingFacts(dict, db);
    var ps := Pairs(m);
    assert Distinct(ps);
    DistinctCard(ps);
    assert (set p | p in ps) == StoreSet(dict) - db by {
      forall p | p in StoreSet(dict) - db ensures p in ps {
        var i :| 0 <= i < |dict| && p == FilePair(dict[i]);
        assert dict[i] in m;
        var j :| 0 <= j < |m| && m[j] == dict[i];
        assert ps[j] == p;
      }
    }
  }

  lemma {:induction false} RemoveStep(rows: seq<DocumentRow>, ps: set<Pair>, p: Pair)
    decreases |rows|
    ensures RemovePairs(RemovePairs(rows, ps), {p}) == RemovePairs(rows, ps + {p})
  {
    if rows != [] {
      var n := |rows| - 1;
      RemoveStep(rows[..n], ps, p);
      var prev := RemovePairs(rows[..n], ps);
      if RowPair(rows[n]) !in ps {
        assert (prev + [rows[n]])[..|prev|] == prev;
      }
    }
  }

  lemma RemoveAppend(rows: seq<DocumentRow>, extra: seq<DocumentRow>, ps: set<Pair>)
    requires forall k :: 0 <= k < |extra| ==> RowPair(extra[k]) !in ps
    ensures RemovePairs(rows + extra, ps) == RemovePairs(rows, ps) + extra
  {
    AppendSteps(rows, extra, ps);
    PeelAppend(Prefixes(rows, extra, ps), extra, |extra|);
    assert rows + extra[..0] == rows && extra[..|extra|] == extra;
  }

  lemma AppendSteps(rows: seq<DocumentRow>, extra: seq<DocumentRow>, ps: set<Pair>)
    requires forall k :: 0 <= k < |extra| ==> RowPair(extra[k]) !in ps
    ensures forall k: nat :: k < |extra| ==>
              Prefixes(rows, extra, ps)(k + 1) == Prefixes(rows, extra, ps)(k) + [extra[k]]
  {
    forall k: nat | k < |extra|
      ensures Prefixes(rows, extra, ps)(k + 1) == Prefixes(rows, extra, ps)(k) + [extra[k]]
    {
      AppendStep(rows, extra, ps, k);
    }
  }

  lemma AppendStep(rows: seq<DocumentRow>, extra: seq<DocumentRow>, ps: set<Pair>, k: nat)
    requires k < |extra| && RowPair(extra[k]) !in ps
    ensures RemovePairs(rows + extra[..k + 1], ps) == RemovePairs(rows + extra[..k], ps) + [extra[k]]
  {
    assert rows + extra[..k + 1] == (rows + extra[..k]) + [extra[k]];
    RemoveAppendOne(rows + extra[..k], extra[k], ps);
  }

  /** `RemovePairs(rows + extra[..k], ps)` as a function of `k`. */
  function Prefixes(rows: seq<DocumentRow>, extra: seq<DocumentRow>, ps: set<Pair>): nat -> seq<DocumentRow>
  {
    (k: nat) => if k <= |extra| then RemovePairs(rows + extra[..k], ps) else []
  }

  /** Values each extending the one before by the next element of `xs`. */
  lemma {:induction false} PeelAppend<T>(f: nat -> seq<T>, xs: seq<T>, k: nat)
    requires k <= |xs|
    requires forall j: nat :: j < |xs| ==> f(j + 1) == f(j) + [xs[j]]
    decreases k
    ensures f(k) == f(0) + xs[..k]
  {
    if k > 0 {
      PeelAppend(f, xs, k - 1);
      assert xs[..k] == xs[..k - 1] + [xs[k - 1]];
    }
  }

  lemma RemoveAppendOne(rows: seq<DocumentRow>, x: DocumentRow, ps: set<Pair>)
    requires RowPair(x) !in ps
    ensures RemovePairs(rows + [x], ps) == RemovePairs(rows, ps) + [x]
  {
    assert (rows + [x])[..|rows|] == rows;
  }

  /** The rows left after the deletions are exactly the rows whose pair is not
      removed, in their old order. */
  lemma {:induction false} RemoveKeeps(rows: seq<DocumentRow>, ps: set<Pair>)
    decreases |rows|
    ensures forall x :: x in RemovePairs(rows, ps) <==> x in rows && RowPair(x) !in ps
    ensures UniqueDocumentIds(rows) ==> UniqueDocumentIds(RemovePairs(rows, ps))
  {
    if rows != [] {
      var n := |rows| - 1;
      RemoveKeeps(rows[..n], ps);
      assert rows == rows[..n] + [rows[n]];
      if UniqueDocumentIds(rows) {
        var prev := RemovePairs(rows[..n], ps);
        assert UniqueDocumentIds(rows[..n]);
        forall i | 0 <= i < |prev| ensures prev[i].id != rows[n].id {
          assert prev[i] in rows[..n];
        }
      }
    }
  }

  /** What `cmd_sync` leaves in the table: the old rows whose pair is still in
      a store, then the inserted rows. */
  function SyncResult(rows: seq<DocumentRow>, dict: seq<FileInfo>, ids: seq<string>, mk: RowMaker): seq<DocumentRow>
    requires |dict| <= |ids|
  {
    var missing := MissingSorted(dict, DbSet(rows));
    RemovePairs(rows, DbSet(rows) - StoreSet(dict)) + Inserted(missing, ids, mk)
  }

  /** The INSERT loop of `cmd_sync`: one row per missing file, in order,
      `ids[k]` for the k-th, made by `mk` (`SyncRow` in `Sync`). */
  method InsertRows(table: DocumentTable, missing: seq<FileInfo>, ids: seq<string>, mk: RowMaker) returns (added: nat)
    requires table.Valid() && |missing| <= |ids| && FreshIds(table.rows, ids) && Faithful(mk)
    modifies table
    ensures table.Valid()
    ensures table.rows == old(table.rows) + Inserted(missing, ids, mk)
    ensures added == |missing|
  {
    ghost var start := table.rows;
    added := 0;
    for k := 0 to |missing|
      invariant table.rows == start + Inserted(missing[..k], ids, mk)
      invariant UniqueDocumentIds(table.rows)
      invariant forall j :: k <= j < |ids| ==> IdFree(table.rows, ids[j])
      invariant added == k
    {
      var row := mk(missing[k], ids[k]);
      assert Inserted(missing[..k + 1], ids, mk) == Inserted(missing[..k], ids, mk) + [row];
      table.rows := table.rows + [row];
      added := added + 1;
    }
    assert missing[..|missing|] == missing;
  }

  /** The DELETE loop of `cmd_sync`, one statement per orphan pair. */
  method DeleteOrphans(table: DocumentTable, orphans: seq<Pair>) returns (removed: nat)
    modifies table
    ensures table.rows == RemovePairs(old(table.rows), Taken(orphans, |orphans|))
    ensures removed == |orphans|
  {
    ghost var start := table.rows;
    RemoveNothing(start);
    TakenNone(orphans);
    removed := 0;
    for k := 0 to |orphans|
      invariant table.rows == RemovePairs(start, Taken(orphans, k))
      invariant removed == k
    {
      var p := orphans[k];
      RemoveStep(start, Taken(orphans, k), p);
      assert Taken(orphans, k + 1) == Taken(orphans, k) + {p};
      table.rows := RemovePairs(table.rows, {p});
      removed := removed + 1;
    }
  }

  /** The pairs among the first `k` of `ps`. */
  ghost function Taken(ps: seq<Pair>, k: nat): set<Pair>
    requires k <= |ps|
  {
    set j | 0 <= j < k :: ps[j]
  }

  lemma TakenNone(ps: seq<Pair>)
    ensures Taken(ps, 0) == {}
  {
  }

  /** `cmd_sync` on the dict `list_store_files` returned: the INSERT loop
      over the missing pairs in sorted order, then the DELETE loop over the
      orphan pairs. `ids[k]` is the id generated for the k-th insert. */
  method Sync(table: DocumentTable, dict: seq<FileInfo>, ids: seq<string>) returns (added: nat, removed: nat)
    requires table.Valid() && UniqueKeys(dict)
    requires |ids| == |dict| && FreshIds(table.rows, ids)
    modifies table
    ensures table.Valid()
    ensures table.rows == SyncResult(old(table.rows), dict, ids, SyncRow)
    ensures added == |StoreSet(dict) - DbSet(old(table.rows))|
    ensures removed == |DbSet(old(table.rows)) - StoreSet(dict)|
  {
    var start := table.rows;
    var db := DbSet(start);
    var storeSet := StoreSet(dict);
    var missing := MissingSorted(dict, db);
    MissingCount(dict, db);
    SyncRowFaithful();
    added := InsertRows(table, missing, ids, SyncRow);
    var inserted := Inserted(missing, ids, SyncRow);
    InsertedPairs(dict, db, ids, SyncRow);
    var orphans := Orphans(start, storeSet);
    OrphansFacts(start, storeSet);
    OrphansCount(start, storeSet);
    assert Taken(orphans, |orphans|) == db - storeSet;
    RemoveKeeps(start + inserted, db - storeSet);
    RemoveAppend(start, inserted, db - storeSet);
    removed := DeleteOrphans(table, orphans);
  }

  /** No inserted row has a pair the table already had. */
  lemma InsertedPairs(dict: seq<FileInfo>, db: set<Pair>, ids: seq<string>, mk: RowMaker)
    requires |dict| <= |ids| && Faithful(mk)
    ensures var m := MissingSorted(dict, db);
            forall k :: 0 <= k < |m| ==> RowPair(Inserted(m, ids, mk)[k]) !in db && FilePair(m[k]) in StoreSet(dict)
  {
    var m := MissingSorted(dict, db);
    MissingSortedHas(dict, db);
    forall k | 0 <= k < |m| ensures FilePair(m[k]) !in db && FilePair(m[k]) in StoreSet(dict) {
      assert m[k] in m;
    }
  }

  /** The sync result keeps ids unique. */
  lemma SyncIds(rows: seq<DocumentRow>, dict: seq<FileInfo>, ids: seq<string>, mk: RowMaker)
    requires UniqueDocumentIds(rows) && |dict| <= |ids| && FreshIds(rows, ids) && Faithful(mk)
    ensures UniqueDocumentIds(SyncResult(rows, dict, ids, mk))
  {
    var kept := RemovePairs(rows, DbSet(rows) - StoreSet(dict));
    RemoveKeeps(rows, DbSet(rows) - StoreSet(dict));
    var ins := Inserted(MissingSorted(dict, DbSet(rows)), ids, mk);
    var r := kept + ins;
    forall i, j | 0 <= i < j < |r| ensures r[i].id != r[j].id {
      if j >= |kept| {
        if i < |kept| {
          assert r[i] in rows;
        }
      }
    }
  }

  lemma DbSetConcat(a: seq<DocumentRow>, b: seq<DocumentRow>)
    ensures DbSet(a + b) == DbSet(a) + DbSet(b)
  {
    var r := a + b;
    forall p | p in DbSet(r) ensures p in DbSet(a) + DbSet(b) {
      var i :| 0 <= i < |r| && p == RowPair(r[i]);
      if i >= |a| {
        assert r[i] == b[i - |a|];
      }
    }
    forall p | p in DbSet(a) ensures p in DbSet(r) {
      var i :| 0 <= i < |a| && p == RowPair(a[i]);
      assert r[i] == a[i];
    }
    forall p | p in DbSet(b) ensures p in DbSet(r) {
      var i :| 0 <= i < |b| && p == RowPair(b[i]);
      assert r[|a| + i] == b[i];
    }
  }

  /** The removal takes exactly the pairs in `ps` out of the table's pairs. */
  lemma KeptPairs(rows: seq<DocumentRow>, ps: set<Pair>)
    ensures DbSet(RemovePairs(rows, ps)) == DbSet(rows) - ps
  {
    var kept := RemovePairs(rows, ps);
    RemoveKeeps(rows, ps);
    forall p | p in DbSet(kept) ensures p in DbSet(rows) {
      var i :| 0 <= i < |kept| && p == RowPair(kept[i]);
      assert kept[i] in rows;
    }
    forall p | p in DbSet(rows) - ps ensures p in DbSet(kept) {
      var j :| 0 <= j < |rows| && p == RowPair(rows[j]);
      assert rows[j] in kept;
    }
  }

  /** The inserted rows carry exactly the store pairs the table lacked. */
  lemma InsertedSet(dict: seq<FileInfo>, db: set<Pair>, ids: seq<string>, mk: RowMaker)
    requires |dict| <= |ids| && Faithful(mk)
    ensures DbSet(Inserted(MissingSorted(dict, db), ids, mk)) == StoreSet(dict) - db
  {
    var m := MissingSorted(dict, db);
    var ins := Inserted(m, ids, mk);
    InsertedPairs(dict, db, ids, mk);
    MissingSortedHas(dict, db);
    forall p | p in DbSet(ins) ensures p in StoreSet(dict) - db {
      var k :| 0 <= k < |ins| && p == RowPair(ins[k]);
      assert RowPair(ins[k]) == FilePair(m[k]);
    }
    forall p | p in StoreSet(dict) - db ensures p in DbSet(ins) {
      var i :| 0 <= i < |dict| && p == FilePair(dict[i]);
      assert dict[i] in m;
      var k :| 0 <= k < |m| && m[k] == dict[i];
      assert RowPair(ins[k]) == p;
    }
  }

  /** The sorted missing list holds the dict values whose pair is not in `db`. */
  lemma MissingSortedHas(dict: seq<FileInfo>, db: set<Pair>)
    ensures forall x :: x in MissingSorted(dict, db) <==> x in dict && FilePair(x) !in db
  {
    MissingFacts(dict, db);
    var m := Missing(dict, db);
    forall x ensures x in MissingSorted(dict, db) <==> x in m {
      assert x in MissingSorted(dict, db) <==> x in multiset(MissingSorted(dict, db));
      assert x in m <==> x in multiset(m);
    }
  }

  /** After `cmd_sync` the table's pairs are exactly the stores' pairs;
      pairs present on both sides keep their rows, and no row whose pair
      left the stores survives among the old rows. */
  lemma SyncPairs(rows: seq<DocumentRow>, dict: seq<FileInfo>, ids: seq<string>, mk: RowMaker)
    requires |dict| <= |ids| && Faithful(mk)
    ensures DbSet(SyncResult(rows, dict, ids, mk)) == StoreSet(dict)
    ensures forall x :: x in rows && RowPair(x) in StoreSet(dict) ==> x in SyncResult(rows, dict, ids, mk)
    ensures forall x :: x in rows && RowPair(x) !in StoreSet(dict) ==> x !in SyncResult(rows, dict, ids, mk)[..|SyncResult(rows, dict, ids, mk)| - |MissingSorted(dict, DbSet(rows))|]
  {
    var db := DbSet(rows);
    var store := StoreSet(dict);
    var kept := RemovePairs(rows, db - store);
    RemoveKeeps(rows, db - store);
    KeptPairs(rows, db - store);
    var m := MissingSorted(dict, db);
    var ins := Inserted(m, ids, mk);
    InsertedSet(dict, db, ids, mk);
    DbSetConcat(kept, ins);
    var r := kept + ins;
    assert r[..|r| - |m|] == kept;
    assert DbSet(r) == (db - (db - store)) + (store - db);
  }

  /** A second `cmd_sync` over the same listing adds nothing and removes nothing. */
  method SyncTwice(table: DocumentTable, dict: seq<FileInfo>, ids1: seq<string>, ids2: seq<string>)
    returns (added: nat, removed: nat)
    requires table.Valid() && UniqueKeys(dict)
    requires |ids1| == |dict| && FreshIds(table.rows, ids1)
    requires |ids2| == |dict| && FreshIds(SyncResult(table.rows, dict, ids1, SyncRow), ids2)
    modifies table
    ensures added == 0 && removed == 0
    ensures table.rows == SyncResult(old(table.rows), dict, ids1, SyncRow)
  {
    ghost var start := table.rows;
    var _, _ := Sync(table, dict, ids1);
    SyncRowFaithful();
    SyncPairs(start, dict, ids1, SyncRow);
    SyncAgain(table.rows, dict, ids2, SyncRow);
    added, removed := Sync(table, dict, ids2);
  }

  /** Once the pairs agree, sync changes nothing. */
  lemma SyncAgain(rows: seq<DocumentRow>, dict: seq<FileInfo>, ids: seq<string>, mk: RowMaker)
    requires UniqueKeys(dict) && |dict| <= |ids| && DbSet(rows) == StoreSet(dict)
    ensures SyncResult(rows, dict, ids, mk) == rows
  {
    var db := DbSet(rows);
    MissingCount(dict, db);
    assert StoreSet(dict) - db == {};
    assert db - StoreSet(dict) == {};
    RemoveNothing(rows);
  }

  lemma {:induction false} RemoveNothing(rows: seq<DocumentRow>)
    decreases |rows|
    ensures RemovePairs(rows, {}) == rows
  {
    if rows != [] {
      RemoveNothing(rows[..|rows| - 1]);
    }
  }

  // ---- cmd_reset ----

  /** The files among the first `k` whose removal failed, in their order. */
  function Unremoved(files: seq<StoreFile>, ok: seq<bool>, k: nat): seq<StoreFile>
    requires |ok| == |files| && k <= |files|
  {
    if k == 0 then []
    else Unremoved(files, ok, k - 1) + if ok[k - 1] then [] else [files[k - 1]]
  }

  /** How many of the first `k` removals succeeded. */
  function Successes(ok: seq<bool>, k: nat): nat
    requires k <= |ok|
  {
    if k == 0 then 0 else Successes(ok, k - 1) + if ok[k - 1] then 1 else 0
  }

  /** The removal loop for one store's files: `ok[k]` says whether
      `remove_file_from_store` succeeded for `files[k]`. Returns the
      files left in the store and `deleted`. */
  method RemoveStoreFiles(files: seq<StoreFile>, ok: seq<bool>) returns (left: seq<StoreFile>, deleted: nat)
    requires |ok| == |files|
    ensures left == Unremoved(files, ok, |files|)
    ensures deleted == Successes(ok, |ok|)
  {
    left := [];
    deleted := 0;
    for k := 0 to |files|
      invariant left == Unremoved(files, ok, k)
      invariant deleted == Successes(ok, k)
    {
      if ok[k] {
        deleted := deleted + 1;
      } else {
        left := left + [files[k]];
      }
    }
  }

  /** Every file is either deleted or left. */
  lemma {:induction false} UnremovedCount(files: seq<StoreFile>, ok: seq<bool>, k: nat)
    requires |ok| == |files| && k <= |files|
    decreases k
    ensures Successes(ok, k) + |Unremoved(files, ok, k)| == k
  {
    if k > 0 {
      UnremovedCount(files, ok, k - 1);
    }
  }

  /** Every file whose removal failed is left. */
  lemma {:induction false} FailedLeft(files: seq<StoreFile>, ok: seq<bool>, k: nat)
    requires |ok| == |files| && k <= |files|
    decreases k
    ensures forall j :: 0 <= j < k && !ok[j] ==> files[j] in Unremoved(files, ok, k)
  {
    if k > 0 {
      FailedLeft(files, ok, k - 1);
    }
  }

  /** Only files whose removal failed are left. */
  lemma {:induction false} LeftFailed(files: seq<StoreFile>, ok: seq<bool>, k: nat)
    requires |ok| == |files| && k <= |files|
    decreases k
    ensures forall f :: f in Unremoved(files, ok, k) ==> exists j :: 0 <= j < k && !ok[j] && files[j] == f
  {
    if k > 0 {
      LeftFailed(files, ok, k - 1);
    }
  }

  /** The database part of `cmd_reset`: the row count, then `DELETE FROM documents`. */
  method ResetDatabase(table: DocumentTable) returns (count: nat)
    modifies table
    ensures count == |old(table.rows)|
    ensures table.rows == [] && table.Valid()
  {
    count := |table.rows|;
    table.rows := [];
  }
}
