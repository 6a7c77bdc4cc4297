/** The version registry behind the admin API (server/routes.py): committing
    uploaded files as `documents` rows, the manual "set latest" override,
    the grouped listing, and the search for the question a piece of
    feedback answers. The database is the `DocumentTable` object; each
    request's SQL transaction works on its rows and is either kept or, when a
    statement fails, rolled back to the rows it started from. */
module Routes {
  import opened Common
  import opened Schema
  import DocumentUploader
  import VersionNaming
  import Config

  type UploadResult = DocumentUploader.UploadResult

  // ---- admin_upload ----

  /** The store an upload goes to: the primary store for `"primary"`, the
      correction store for any other value. */
  function UploadStoreDisplayName(storeType: string): (r: string)
    ensures r == Config.PrimaryStoreDisplayName <==> storeType == "primary"
    ensures r != Config.PrimaryStoreDisplayName ==> r == Config.CorrectionStoreDisplayName
  {
    if storeType == "primary" then Config.PrimaryStoreDisplayName else Config.CorrectionStoreDisplayName
  }

  /** The version group of an uploaded file: the request's group when it is
      not blank (stripped), otherwise the one derived from the file name. */
  function EffectiveGroup(explicit: string, file: string): (r: string)
    ensures Strip(explicit) != "" ==> r == Strip(explicit)
    ensures Strip(explicit) == "" ==> r == VersionNaming.ExtractDateAndGroup(file).1
  {
    if Strip(explicit) != "" then Strip(explicit) else VersionNaming.ExtractDateAndGroup(file).1
  }

  /** The row inserted for a successfully uploaded file. */
  function NewRow(file: string, id: string, t: StoreType, explicit: string, storeName: string, uploader: string): DocumentRow
  {
    DocumentRow(id, file, file, EffectiveGroup(explicit, file), VersionNaming.ExtractDateAndGroup(file).0,
                true, storeName, t, Some(uploader))
  }

  predicate InKey(row: DocumentRow, g: string, t: StoreType)
  {
    row.versionGroup == g && row.storeType == t
  }

  /** `UPDATE documents SET is_latest = 0 WHERE version_group = g AND store_type = t`. */
  function Demote(rows: seq<DocumentRow>, g: string, t: StoreType): seq<DocumentRow>
  {
    seq(|rows|, i requires 0 <= i < |rows| => if InKey(rows[i], g, t) then rows[i].(isLatest := false) else rows[i])
  }

  /** One iteration of the commit loop: the UPDATE, then the INSERT. */
  function CommitStep(rows: seq<DocumentRow>, row: DocumentRow): seq<DocumentRow>
  {
    Demote(rows, row.versionGroup, row.storeType) + [row]
  }

  function Succeeded(r: UploadResult): bool
  {
    r.success
  }

  /** `success_count`. */
  function SuccessCount(results: seq<UploadResult>): nat
  {
    |Filter(results, Succeeded)|
  }

  /** The row maker of one request: file name and id to the inserted row. */
  function Maker(t: StoreType, explicit: string, storeName: string, uploader: string): (string, string) -> DocumentRow
  {
    (file, id) => NewRow(file, id, t, explicit, storeName, uploader)
  }

  lemma MakerMarks(t: StoreType, explicit: string, storeName: string, uploader: string)
    ensures forall file, id :: Maker(t, explicit, storeName, uploader)(file, id).isLatest
    ensures forall file, id :: Maker(t, explicit, storeName, uploader)(file, id).storeType == t
  {
  }

  /** The rows the commit loop inserts, in order: one per successful upload,
      made by `mk` from its file name and `ids[k]`, the id generated for
      `results[k]`. */
  function BatchRows(results: seq<UploadResult>, ids: seq<string>, mk: (string, string) -> DocumentRow): seq<DocumentRow>
    requires |ids| == |results|
    decreases |results|
  {
    if results == [] then []
    else
      var n := |results| - 1;
      var prev := BatchRows(results[..n], ids[..n], mk);
      if results[n].success then prev + [mk(results[n].file, ids[n])] else prev
  }

  /** The commit loop: one `CommitStep` per inserted row. */
  function Apply(rows: seq<DocumentRow>, batch: seq<DocumentRow>): seq<DocumentRow>
    decreases |batch|
  {
    if batch == [] then rows
    else CommitStep(Apply(rows, batch[..|batch| - 1]), batch[|batch| - 1])
  }

  /** The commit loop over `results` with a valid store type. */
  function CommitAll(rows: seq<DocumentRow>, results: seq<UploadResult>, ids: seq<string>, t: StoreType,
                     explicit: string, storeName: string, uploader: string): seq<DocumentRow>
    requires |ids| == |results|
  {
    Apply(rows, BatchRows(results, ids, Maker(t, explicit, storeName, uploader)))
  }

  /** The transaction of `admin_upload`: `None` when it is rolled back. A
      store type the CHECK constraint refuses makes the first INSERT fail,
      so the transaction survives only when no upload succeeded. */
  function Commit(rows: seq<DocumentRow>, results: seq<UploadResult>, ids: seq<string>, storeType: string,
                  explicit: string, storeName: string, uploader: string): Option<seq<DocumentRow>>
    requires |ids| == |results|
  {
    match ParseStoreType(storeType)
    case Some(t) => Some(CommitAll(rows, results, ids, t, explicit, storeName, uploader))
    case None => if SuccessCount(results) == 0 then Some(rows) else None
  }

  /** At most one row per (version group, store type) is marked latest. */
  ghost predicate SingleLatest(rows: seq<DocumentRow>)
  {
    forall i, j :: 0 <= i < j < |rows| && rows[i].isLatest && rows[j].isLatest ==>
      !InKey(rows[j], rows[i].versionGroup, rows[i].storeType)
  }

  /** After one commit step the new row is the only latest row of its
      (version group, store type), whatever the dates of the rows involved;
      rows of that key are otherwise unchanged, and rows of every other key
      are untouched. */
  lemma CommitStepLatest(rows: seq<DocumentRow>, row: DocumentRow)
    requires row.isLatest
    ensures var r := CommitStep(rows, row);
            && |r| == |rows| + 1 && r[|rows|] == row
            && (forall i :: 0 <= i < |r| && InKey(r[i], row.versionGroup, row.storeType) && r[i].isLatest ==> i == |rows|)
            && (forall i :: 0 <= i < |rows| && InKey(rows[i], row.versionGroup, row.storeType) ==> r[i] == rows[i].(isLatest := false))
            && (forall i :: 0 <= i < |rows| && !InKey(rows[i], row.versionGroup, row.storeType) ==> r[i] == rows[i])
  {
  }

  /** A commit step keeps ids unique when the new id is fresh. */
  lemma CommitStepIds(rows: seq<DocumentRow>, row: DocumentRow)
    requires UniqueDocumentIds(rows) && IdFree(rows, row.id)
    ensures UniqueDocumentIds(CommitStep(rows, row))
    ensures forall id :: IdFree(rows, id) && id != row.id ==> IdFree(CommitStep(rows, row), id)
  {
  }

  /** A commit step keeps at most one latest row per key. */
  lemma CommitStepSingle(rows: seq<DocumentRow>, row: DocumentRow)
    requires SingleLatest(rows)
    ensures SingleLatest(CommitStep(rows, row))
  {
    var r := CommitStep(rows, row);
    forall i, j | 0 <= i < j < |r| && r[i].isLatest && r[j].isLatest
      ensures !InKey(r[j], r[i].versionGroup, r[i].storeType)
    {
      if j < |rows| {
        assert r[i] == rows[i] && r[j] == rows[j];
      }
    }
  }

  lemma ApplyAppend(rows: seq<DocumentRow>, batch: seq<DocumentRow>, row: DocumentRow)
    ensures Apply(rows, batch + [row]) == CommitStep(Apply(rows, batch), row)
  {
    assert (batch + [row])[..|batch|] == batch;
  }

  lemma BatchAppend(results: seq<UploadResult>, ids: seq<string>, mk: (string, string) -> DocumentRow, n: nat)
    requires |ids| == |results| && n < |results|
    ensures var prev := BatchRows(results[..n], ids[..n], mk);
            BatchRows(results[..n + 1], ids[..n + 1], mk) ==
              if results[n].success then prev + [mk(results[n].file, ids[n])] else prev
  {
    assert results[..n + 1][..n] == results[..n] && ids[..n + 1][..n] == ids[..n];
  }

  /** Failed uploads insert nothing: one row per successful upload. */
  lemma {:induction false} BatchCount(results: seq<UploadResult>, ids: seq<string>, mk: (string, string) -> DocumentRow)
    requires |ids| == |results|
    decreases |results|
    ensures |BatchRows(results, ids, mk)| == SuccessCount(results)
  {
    if results != [] {
      var n := |results| - 1;
      BatchCount(results[..n], ids[..n], mk);
      assert results == results[..n] + [results[n]];
      FilterAppend(results[..n], results[n], Succeeded);
    }
  }

  /** Every inserted row is made by `mk`. */
  lemma {:induction false} BatchMarks(results: seq<UploadResult>, ids: seq<string>, mk: (string, string) -> DocumentRow)
    requires |ids| == |results|
    requires forall file, id :: mk(file, id).isLatest
    decreases |results|
    ensures forall i :: 0 <= i < |BatchRows(results, ids, mk)| ==> BatchRows(results, ids, mk)[i].isLatest
  {
    if results != [] {
      var n := |results| - 1;
      BatchMarks(results[..n], ids[..n], mk);
      var b := BatchRows(results, ids, mk);
      var prev := BatchRows(results[..n], ids[..n], mk);
      forall i | 0 <= i < |b| ensures b[i].isLatest {
        if i < |prev| {
          assert b[i] == prev[i];
          assert prev[i].isLatest;
        } else {
          var file, id := results[n].file, ids[n];
          assert b[i] == mk(file, id);
          assert mk(file, id).isLatest;
        }
      }
    }
  }

  /** The row for a successful `results[k]` comes right after those of the
      earlier successes. */
  lemma {:induction false} BatchAt(results: seq<UploadResult>, ids: seq<string>, mk: (string, string) -> DocumentRow, k: nat)
    requires |ids| == |results| && k < |results| && results[k].success
    decreases |results|
    ensures var b := BatchRows(results, ids, mk);
            SuccessCount(results[..k]) < |b| && b[SuccessCount(results[..k])] == mk(results[k].file, ids[k])
  {
    var n := |results| - 1;
    var b := BatchRows(results, ids, mk);
    var prev := BatchRows(results[..n], ids[..n], mk);
    BatchCount(results[..n], ids[..n], mk);
    if k < n {
      BatchAt(results[..n], ids[..n], mk, k);
      assert results[..n][..k] == results[..k];
      assert results[..n][k] == results[k] && ids[..n][k] == ids[k];
      assert b[..|prev|] == prev;
    } else {
      assert results[..k] == results[..n];
    }
  }

  /** Failed uploads insert nothing: the commit adds exactly `success_count` rows. */
  lemma {:induction false} ApplyCount(rows: seq<DocumentRow>, batch: seq<DocumentRow>)
    decreases |batch|
    ensures |Apply(rows, batch)| == |rows| + |batch|
  {
    if batch != [] {
      ApplyCount(rows, batch[..|batch| - 1]);
    }
  }

  /** The whole commit keeps at most one latest row per key. */
  lemma {:induction false} ApplySingle(rows: seq<DocumentRow>, batch: seq<DocumentRow>)
    requires SingleLatest(rows)
    decreases |batch|
    ensures SingleLatest(Apply(rows, batch))
  {
    if batch != [] {
      ApplySingle(rows, batch[..|batch| - 1]);
      CommitStepSingle(Apply(rows, batch[..|batch| - 1]), batch[|batch| - 1]);
    }
  }

  /** No row of `batch` after position `k` has key `(g, t)`. */
  ghost predicate NoLaterInKey(batch: seq<DocumentRow>, k: int, g: string, t: StoreType)
  {
    forall j :: 0 <= j < |batch| && k < j ==> !InKey(batch[j], g, t)
  }

  /** What the commit does to each row: an existing row keeps everything but
      loses its latest mark when a row of its key is inserted; the inserted
      row `batch[k]` is at position `|rows| + k` and stays latest exactly
      when no later inserted row has its key. The last file of a key wins,
      by commit order alone: dates are never compared. */
  lemma {:induction false} ApplyRows(rows: seq<DocumentRow>, batch: seq<DocumentRow>)
    requires forall k :: 0 <= k < |batch| ==> batch[k].isLatest
    decreases |batch|
    ensures var r := Apply(rows, batch);
            && |r| == |rows| + |batch|
            && (forall i :: 0 <= i < |rows| ==>
                  r[i] == rows[i].(isLatest := rows[i].isLatest && NoLaterInKey(batch, -1, rows[i].versionGroup, rows[i].storeType)))
            && (forall k :: 0 <= k < |batch| ==>
                  r[|rows| + k] == batch[k].(isLatest := NoLaterInKey(batch, k, batch[k].versionGroup, batch[k].storeType)))
  {
    ApplyCount(rows, batch);
    if batch != [] {
      var n := |batch| - 1;
      var init := batch[..n];
      var last := batch[n];
      ApplyRows(rows, init);
      var prev := Apply(rows, init);
      var r := Apply(rows, batch);
      assert r == CommitStep(prev, last);
      forall i | 0 <= i < |rows|
        ensures r[i] == rows[i].(isLatest := rows[i].isLatest && NoLaterInKey(batch, -1, rows[i].versionGroup, rows[i].storeType))
      {
        var g, t := rows[i].versionGroup, rows[i].storeType;
        assert NoLaterInKey(batch, -1, g, t) == (NoLaterInKey(init, -1, g, t) && !InKey(last, g, t));
      }
      forall k | 0 <= k < |batch|
        ensures r[|rows| + k] == batch[k].(isLatest := NoLaterInKey(batch, k, batch[k].versionGroup, batch[k].storeType))
      {
        if k < n {
          var g, t := batch[k].versionGroup, batch[k].storeType;
          assert init[k] == batch[k];
          assert NoLaterInKey(batch, k, g, t) == (NoLaterInKey(init, k, g, t) && !InKey(last, g, t));
        }
      }
    }
  }

  /** The inserted row `batch[k]` in the committed table. */
  lemma ApplyRowAt(rows: seq<DocumentRow>, batch: seq<DocumentRow>, k: nat)
    requires forall i :: 0 <= i < |batch| ==> batch[i].isLatest
    requires k < |batch|
    ensures |Apply(rows, batch)| == |rows| + |batch|
    ensures Apply(rows, batch)[|rows| + k] == batch[k].(isLatest := NoLaterInKey(batch, k, batch[k].versionGroup, batch[k].storeType))
  {
    ApplyRows(rows, batch);
  }

  /** Within one upload the last successful file of a version group is the
      latest: the row for `results[k]` stays latest exactly when no later
      successful file gets the same version group. */
  lemma LastWins(rows: seq<DocumentRow>, results: seq<UploadResult>, ids: seq<string>, t: StoreType,
                 explicit: string, storeName: string, uploader: string, k: nat)
    requires |ids| == |results| && k < |results| && results[k].success
    ensures |rows| + SuccessCount(results[..k]) < |CommitAll(rows, results, ids, t, explicit, storeName, uploader)|
    ensures CommitAll(rows, results, ids, t, explicit, storeName, uploader)[|rows| + SuccessCount(results[..k])] ==
              NewRow(results[k].file, ids[k], t, explicit, storeName, uploader).(isLatest :=
                NoLaterInKey(BatchRows(results, ids, Maker(t, explicit, storeName, uploader)), SuccessCount(results[..k]),
                             EffectiveGroup(explicit, results[k].file), t))
  {
    MakerMarks(t, explicit, storeName, uploader);
    ApplyBatchAt(rows, results, ids, Maker(t, explicit, storeName, uploader), k);
  }

  /** The row of a successful `results[k]` in the committed table. */
  lemma ApplyBatchAt(rows: seq<DocumentRow>, results: seq<UploadResult>, ids: seq<string>,
                     mk: (string, string) -> DocumentRow, k: nat)
    requires |ids| == |results| && k < |results| && results[k].success
    requires forall file, id :: mk(file, id).isLatest
    ensures |rows| + SuccessCount(results[..k]) < |Apply(rows, BatchRows(results, ids, mk))|
    ensures Apply(rows, BatchRows(results, ids, mk))[|rows| + SuccessCount(results[..k])] ==
              mk(results[k].file, ids[k]).(isLatest :=
                NoLaterInKey(BatchRows(results, ids, mk), SuccessCount(results[..k]),
                             mk(results[k].file, ids[k]).versionGroup, mk(results[k].file, ids[k]).storeType))
  {
    BatchAt(results, ids, mk, k);
    BatchMarks(results, ids, mk);
    ApplyRowAt(rows, BatchRows(results, ids, mk), SuccessCount(results[..k]));
  }

  /** `admin_upload` from the uploads on: the commit loop of server/routes.py,
      run on the table inside one transaction. `ids[k]` is the id generated
      for `results[k]`. Returns whether the transaction was committed and
      `success_count`. */
  method CommitUploads(table: DocumentTable, results: seq<UploadResult>, storeType: string, explicit: string,
                       storeName: string, uploader: string, ids: seq<string>)
    returns (committed: bool, successCount: nat)
    requires table.Valid()
    requires |ids| == |results| && FreshIds(table.rows, ids)
    modifies table
    ensures table.Valid()
    ensures successCount == SuccessCount(results)
    ensures var c := Commit(old(table.rows), results, ids, storeType, explicit, storeName, uploader);
            && committed == c.Some?
            && table.rows == if c.Some? then c.value else old(table.rows)
  {
    var start := table.rows;
    var parsed := ParseStoreType(storeType);
    for i := 0 to |results|
      invariant table.Valid()
      invariant forall k :: i <= k < |ids| ==> IdFree(table.rows, ids[k])
      invariant parsed.Some? ==> table.rows == Apply(start, BatchRows(results[..i], ids[..i], Maker(parsed.value, explicit, storeName, uploader)))
      invariant parsed.None? ==> table.rows == start && SuccessCount(results[..i]) == 0
    {
      assert results[..i + 1] == results[..i] + [results[i]];
      FilterAppend(results[..i], results[i], Succeeded);
      if parsed.Some? {
        BatchAppend(results, ids, Maker(parsed.value, explicit, storeName, uploader), i);
      }
      var r := results[i];
      if !r.success {
        continue;
      }
      var (versionDate, autoGroup) := VersionNaming.ExtractDateAndGroup(r.file);
      var versionGroup := if Strip(explicit) != "" then Strip(explicit) else autoGroup;
      if parsed.None? {
        // The INSERT violates CHECK(store_type IN ...): the exception ends
        // the request and the connection closes without a commit.
        CommitNoneFails(results, i);
        table.rows := start;
        return false, SuccessCount(results);
      }
      var t := parsed.value;
      var row := DocumentRow(ids[i], r.file, r.file, versionGroup, versionDate, true, storeName, t, Some(uploader));
      assert row == NewRow(r.file, ids[i], t, explicit, storeName, uploader);
      CommitStepIds(table.rows, row);
      ApplyAppend(start, BatchRows(results[..i], ids[..i], Maker(t, explicit, storeName, uploader)), row);
      table.rows := Demote(table.rows, versionGroup, t);
      table.rows := table.rows + [row];
    }
    assert results[..|results|] == results && ids[..|ids|] == ids;
    committed := true;
    successCount := SuccessCount(results);
  }

  /** One successful upload is enough for the rollback. */
  lemma CommitNoneFails(results: seq<UploadResult>, i: nat)
    requires i < |results| && results[i].success
    ensures SuccessCount(results) > 0
  {
    assert results[i] in Filter(results, Succeeded);
  }

  /** The whole commit inserts `success_count` rows and keeps at most one
      latest row per (version group, store type). */
  lemma CommitAllKeeps(rows: seq<DocumentRow>, results: seq<UploadResult>, ids: seq<string>, t: StoreType,
                       explicit: string, storeName: string, uploader: string)
    requires |ids| == |results|
    ensures |CommitAll(rows, results, ids, t, explicit, storeName, uploader)| == |rows| + SuccessCount(results)
    ensures SingleLatest(rows) ==> SingleLatest(CommitAll(rows, results, ids, t, explicit, storeName, uploader))
  {
    var b := BatchRows(results, ids, Maker(t, explicit, storeName, uploader));
    BatchCount(results, ids, Maker(t, explicit, storeName, uploader));
    ApplyCount(rows, b);
    if SingleLatest(rows) {
      ApplySingle(rows, b);
    }
  }

  // ---- admin_set_latest ----

  /** `SELECT * FROM documents WHERE id = ?` with `fetchone`: the first row with that id. */
  function FindDocument(rows: seq<DocumentRow>, id: string): (r: Option<nat>)
    ensures r.Some? ==> r.value < |rows| && rows[r.value].id == id
    ensures r.Some? ==> forall j :: 0 <= j < r.value ==> rows[j].id != id
    ensures r.None? ==> forall j :: 0 <= j < |rows| ==> rows[j].id != id
  {
    if rows == [] then None
    else if rows[0].id == id then Some(0)
    else match FindDocument(rows[1..], id)
         case None => None
         case Some(k) => Some(k + 1)
  }

  /** The two UPDATEs of `admin_set_latest`: every row of version group `g`,
      in every store type, is demoted, then the row with id `id` is
      promoted. */
  function SetLatestRows(rows: seq<DocumentRow>, g: string, id: string): (r: seq<DocumentRow>)
    ensures |r| == |rows|
    ensures forall i :: 0 <= i < |rows| ==> r[i] == rows[i].(isLatest := r[i].isLatest)
    ensures forall i :: 0 <= i < |rows| && rows[i].versionGroup != g && rows[i].id != id ==> r[i] == rows[i]
  {
    seq(|rows|, i requires 0 <= i < |rows| =>
      if rows[i].id == id then rows[i].(isLatest := true)
      else if rows[i].versionGroup == g then rows[i].(isLatest := false)
      else rows[i])
  }

  datatype SetLatestResult = DocumentNotFound | Promoted(fileName: string)

  /** `admin_set_latest`: 404 and no change for an unknown id; otherwise the
      two UPDATEs, in order, each a pass over the table. */
  method SetLatest(table: DocumentTable, docId: string) returns (r: SetLatestResult)
    requires table.Valid()
    modifies table
    ensures table.Valid()
    ensures FindDocument(old(table.rows), docId).None? ==> r == DocumentNotFound && table.rows == old(table.rows)
    ensures FindDocument(old(table.rows), docId).Some? ==>
              var doc := old(table.rows)[FindDocument(old(table.rows), docId).value];
              r == Promoted(doc.fileName) && table.rows == SetLatestRows(old(table.rows), doc.versionGroup, docId)
  {
    var found := FindDocument(table.rows, docId);
    if found.None? {
      return DocumentNotFound;
    }
    var start := table.rows;
    var doc := table.rows[found.value];
    var g := doc.versionGroup;
    for i := 0 to |table.rows|
      invariant |table.rows| == |start|
      invariant forall j :: 0 <= j < i ==> table.rows[j] == if start[j].versionGroup == g then start[j].(isLatest := false) else start[j]
      invariant forall j :: i <= j < |start| ==> table.rows[j] == start[j]
    {
      if table.rows[i].versionGroup == g {
        table.rows := table.rows[i := table.rows[i].(isLatest := false)];
      }
    }
    for i := 0 to |table.rows|
      invariant |table.rows| == |start|
      invariant forall j :: 0 <= j < i ==> table.rows[j] == SetLatestRows(start, g, docId)[j]
      invariant forall j :: i <= j < |start| ==> table.rows[j] == if start[j].versionGroup == g then start[j].(isLatest := false) else start[j]
    {
      if table.rows[i].id == docId {
        table.rows := table.rows[i := table.rows[i].(isLatest := true)];
      }
    }
    r := Promoted(doc.fileName);
  }

  /** What set-latest does with a known id: only the latest marks change;
      rows outside the version group are untouched; inside it, across both
      store types, the chosen row is the one latest row. */
  lemma SetLatestEffect(rows: seq<DocumentRow>, k: nat)
    requires UniqueDocumentIds(rows) && k < |rows|
    ensures var r := SetLatestRows(rows, rows[k].versionGroup, rows[k].id);
            && |r| == |rows|
            && (forall i :: 0 <= i < |rows| ==> r[i] == rows[i].(isLatest := r[i].isLatest))
            && (forall i :: 0 <= i < |rows| && rows[i].versionGroup != rows[k].versionGroup ==> r[i] == rows[i])
            && (forall i :: 0 <= i < |rows| && rows[i].versionGroup == rows[k].versionGroup ==> (r[i].isLatest <==> i == k))
  {
  }

  /** Set-latest keeps at most one latest row per (version group, store
      type), and leaves the chosen row's group with exactly one latest row
      over both store types. */
  lemma SetLatestSingle(rows: seq<DocumentRow>, k: nat)
    requires UniqueDocumentIds(rows) && k < |rows|
    ensures SingleLatest(rows) ==> SingleLatest(SetLatestRows(rows, rows[k].versionGroup, rows[k].id))
    ensures var r := SetLatestRows(rows, rows[k].versionGroup, rows[k].id);
            forall i, j :: 0 <= i < j < |r| && r[i].isLatest && r[j].isLatest ==> r[i].versionGroup != rows[k].versionGroup || r[j].versionGroup != rows[k].versionGroup
  {
    SetLatestEffect(rows, k);
    var r := SetLatestRows(rows, rows[k].versionGroup, rows[k].id);
    if SingleLatest(rows) {
      forall i, j | 0 <= i < j < |r| && r[i].isLatest && r[j].isLatest
        ensures !InKey(r[j], r[i].versionGroup, r[i].storeType)
      {
        assert r[i] == rows[i].(isLatest := r[i].isLatest) && r[j] == rows[j].(isLatest := r[j].isLatest);
        if r[i].versionGroup != rows[k].versionGroup && r[j].versionGroup != rows[k].versionGroup {
          assert rows[i].isLatest && rows[j].isLatest;
        }
      }
    }
  }

  // ---- admin_list_documents ----

  /** One entry of `groups`: the group's rows in query order and its
      latest row, when it has one. */
  datatype DocumentGroup = DocumentGroup(versionGroup: string, documents: seq<DocumentRow>, latest: Option<DocumentRow>)

  datatype Listing = Listing(groups: seq<DocumentGroup>, totalDocuments: nat, totalGroups: nat)

  /** The distinct version groups of `rows`, in order of first appearance
      (the key order of the `groups` dict). */
  function GroupKeys(rows: seq<DocumentRow>): seq<string>
    decreases |rows|
  {
    if rows == [] then []
    else
      var keys := GroupKeys(rows[..|rows| - 1]);
      var g := rows[|rows| - 1].versionGroup;
      if g in keys then keys else keys + [g]
  }

  /** The rows of version group `g`, in query order. */
  function Members(rows: seq<DocumentRow>, g: string): (r: seq<DocumentRow>)
    decreases |rows|
  {
    if rows == [] then []
    else
      var prev := Members(rows[..|rows| - 1], g);
      if rows[|rows| - 1].versionGroup == g then prev + [rows[|rows| - 1]] else prev
  }

  /** The last row of version group `g` marked latest. */
  function LatestOf(rows: seq<DocumentRow>, g: string): Option<DocumentRow>
    decreases |rows|
  {
    if rows == [] then None
    else
      var last := rows[|rows| - 1];
      if last.versionGroup == g && last.isLatest then Some(last) else LatestOf(rows[..|rows| - 1], g)
  }

  function GroupOf(rows: seq<DocumentRow>, g: string): DocumentGroup
  {
    DocumentGroup(g, Members(rows, g), LatestOf(rows, g))
  }

  /** The dict lookup `grp in groups`. */
  function GroupIndex(groups: seq<DocumentGroup>, g: string): (r: Option<nat>)
    ensures r.Some? ==> r.value < |groups| && groups[r.value].versionGroup == g
    ensures r.None? ==> forall j :: 0 <= j < |groups| ==> groups[j].versionGroup != g
  {
    if groups == [] then None
    else if groups[0].versionGroup == g then Some(0)
    else match GroupIndex(groups[1..], g)
         case None => None
         case Some(k) => Some(k + 1)
  }

  lemma AppendRow(rows: seq<DocumentRow>, row: DocumentRow, g: string)
    ensures GroupKeys(rows + [row]) == if row.versionGroup in GroupKeys(rows) then GroupKeys(rows) else GroupKeys(rows) + [row.versionGroup]
    ensures Members(rows + [row], g) == if row.versionGroup == g then Members(rows, g) + [row] else Members(rows, g)
    ensures LatestOf(rows + [row], g) == if row.versionGroup == g && row.isLatest then Some(row) else LatestOf(rows, g)
  {
    assert (rows + [row])[..|rows|] == rows;
  }

  /** A version group is a key exactly when some row belongs to it; a group
      without rows has no latest row. */
  lemma {:induction false} KeysCover(rows: seq<DocumentRow>, g: string)
    decreases |rows|
    ensures g in GroupKeys(rows) <==> Members(rows, g) != []
    ensures Members(rows, g) == [] ==> LatestOf(rows, g) == None
  {
    if rows != [] {
      KeysCover(rows[..|rows| - 1], g);
    }
  }

  /** The keys of the `groups` dict are distinct. */
  lemma {:induction false} GroupKeysDistinct(rows: seq<DocumentRow>)
    decreases |rows|
    ensures Distinct(GroupKeys(rows))
  {
    if rows != [] {
      GroupKeysDistinct(rows[..|rows| - 1]);
    }
  }

  /** `groups` is the dict the grouping loop has built from `rows`. */
  ghost predicate GroupsOf(groups: seq<DocumentGroup>, rows: seq<DocumentRow>)
  {
    |groups| == |GroupKeys(rows)| && forall j :: 0 <= j < |groups| ==> groups[j] == GroupOf(rows, GroupKeys(rows)[j])
  }

  /** `groups[grp]["documents"].append(rd)` and, for the latest row, `groups[grp]["latest"] = ...`. */
  function Added(entry: DocumentGroup, rd: DocumentRow): DocumentGroup
  {
    var e := entry.(documents := entry.documents + [rd]);
    if rd.isLatest then e.(latest := Some(rd)) else e
  }

  /** A row of a group not seen yet opens a new entry at the end. */
  lemma NewGroupStep(rows: seq<DocumentRow>, rd: DocumentRow, groups: seq<DocumentGroup>)
    requires GroupsOf(groups, rows)
    requires forall j :: 0 <= j < |groups| ==> groups[j].versionGroup != rd.versionGroup
    ensures GroupsOf(groups + [Added(DocumentGroup(rd.versionGroup, [], None), rd)], rows + [rd])
  {
    var grp := rd.versionGroup;
    var keys := GroupKeys(rows);
    forall h {
      AppendRow(rows, rd, h);
    }
    assert grp !in keys by {
      forall j | 0 <= j < |keys| ensures keys[j] != grp {
        assert groups[j].versionGroup == keys[j];
      }
    }
    KeysCover(rows, grp);
    GroupKeysDistinct(rows);
  }

  /** A row of a group already seen extends that group's entry. */
  lemma OldGroupStep(rows: seq<DocumentRow>, rd: DocumentRow, groups: seq<DocumentGroup>, j: nat)
    requires GroupsOf(groups, rows)
    requires j < |groups| && groups[j].versionGroup == rd.versionGroup
    ensures GroupsOf(groups[j := Added(groups[j], rd)], rows + [rd])
  {
    var grp := rd.versionGroup;
    var keys := GroupKeys(rows);
    forall h {
      AppendRow(rows, rd, h);
    }
    GroupKeysDistinct(rows);
    assert keys[j] == grp;
    var after := groups[j := Added(groups[j], rd)];
    forall l | 0 <= l < |after| ensures after[l] == GroupOf(rows + [rd], GroupKeys(rows + [rd])[l]) {
      if l != j {
        assert keys[l] != grp;
      }
    }
  }

  /** The grouping loop of `admin_list_documents` over the query's rows. */
  method ListDocuments(rows: seq<DocumentRow>) returns (listing: Listing)
    ensures |listing.groups| == |GroupKeys(rows)| == listing.totalGroups
    ensures forall j :: 0 <= j < |listing.groups| ==> listing.groups[j] == GroupOf(rows, GroupKeys(rows)[j])
    ensures listing.totalDocuments == |rows|
  {
    var groups: seq<DocumentGroup> := [];
    for i := 0 to |rows|
      invariant GroupsOf(groups, rows[..i])
    {
      var rd := rows[i];
      var grp := rd.versionGroup;
      assert rows[..i + 1] == rows[..i] + [rd];
      ghost var before := groups;
      var at := GroupIndex(groups, grp);
      var j: nat;
      if at.None? {
        groups := groups + [DocumentGroup(grp, [], None)];
        j := |groups| - 1;
      } else {
        j := at.value;
      }
      var entry := groups[j];
      entry := entry.(documents := entry.documents + [rd]);
      if rd.isLatest {
        entry := entry.(latest := Some(rd));
      }
      groups := groups[j := entry];
      if at.None? {
        assert groups == before + [Added(DocumentGroup(grp, [], None), rd)];
        NewGroupStep(rows[..i], rd, before);
      } else {
        OldGroupStep(rows[..i], rd, before, j);
      }
    }
    assert rows[..|rows|] == rows;
    listing := Listing(groups, |rows|, |groups|);
  }

  /** The members of a group are exactly the rows with its version group. */
  lemma {:induction false} MembersOf(rows: seq<DocumentRow>, g: string)
    decreases |rows|
    ensures forall x :: x in Members(rows, g) <==> x in rows && x.versionGroup == g
  {
    if rows != [] {
      var n := |rows| - 1;
      MembersOf(rows[..n], g);
      assert rows == rows[..n] + [rows[n]];
    }
  }

  /** The number of rows over the groups `keys`. */
  function DocCount(rows: seq<DocumentRow>, keys: seq<string>): nat
  {
    if keys == [] then 0 else |Members(rows, keys[0])| + DocCount(rows, keys[1..])
  }

  lemma {:induction false} DocCountAppendKey(rows: seq<DocumentRow>, keys: seq<string>, g: string)
    decreases |keys|
    ensures DocCount(rows, keys + [g]) == DocCount(rows, keys) + |Members(rows, g)|
  {
    if keys != [] {
      assert (keys + [g])[1..] == keys[1..] + [g];
      DocCountAppendKey(rows, keys[1..], g);
    }
  }

  /** One more row adds one to the count of the groups that include its own, once. */
  lemma {:induction false} DocCountStep(rows: seq<DocumentRow>, row: DocumentRow, keys: seq<string>)
    requires Distinct(keys)
    decreases |keys|
    ensures DocCount(rows + [row], keys) == DocCount(rows, keys) + if row.versionGroup in keys then 1 else 0
  {
    if keys != [] {
      AppendRow(rows, row, keys[0]);
      DocCountStep(rows, row, keys[1..]);
      assert row.versionGroup in keys <==> row.versionGroup == keys[0] || row.versionGroup in keys[1..];
      if row.versionGroup == keys[0] {
        assert keys[0] !in keys[1..];
      }
    }
  }

  /** The groups hold all rows between them. */
  lemma {:induction false} ListingCount(rows: seq<DocumentRow>)
    decreases |rows|
    ensures DocCount(rows, GroupKeys(rows)) == |rows|
  {
    if rows != [] {
      var n := |rows| - 1;
      ListingCount(rows[..n]);
      GroupKeysDistinct(rows[..n]);
      assert rows == rows[..n] + [rows[n]];
      var pk := GroupKeys(rows[..n]);
      AppendRow(rows[..n], rows[n], rows[n].versionGroup);
      DocCountStep(rows[..n], rows[n], pk);
      if rows[n].versionGroup !in pk {
        DocCountAppendKey(rows, pk, rows[n].versionGroup);
        KeysCover(rows[..n], rows[n].versionGroup);
        assert Members(rows, rows[n].versionGroup) == [rows[n]];
      }
    }
  }

  /** The keys are exactly the version groups that occur. */
  lemma KeysAreGroups(rows: seq<DocumentRow>)
    ensures (set g | g in GroupKeys(rows)) == set i | 0 <= i < |rows| :: rows[i].versionGroup
  {
    var keys := GroupKeys(rows);
    var groups := set i | 0 <= i < |rows| :: rows[i].versionGroup;
    forall g ensures g in keys <==> g in groups {
      KeysCover(rows, g);
      MembersOf(rows, g);
      if g in keys {
        var x := Members(rows, g)[0];
        var i :| 0 <= i < |rows| && rows[i] == x;
        assert rows[i].versionGroup == g;
      }
    }
  }

  /** Listing puts every row in exactly one group: the groups hold all rows
      between them, each row's group is a key and holds it, keys do not
      repeat, and `total_groups` is the number of distinct version groups. */
  lemma ListingPartition(rows: seq<DocumentRow>)
    ensures DocCount(rows, GroupKeys(rows)) == |rows|
    ensures Distinct(GroupKeys(rows))
    ensures forall i :: 0 <= i < |rows| ==> rows[i].versionGroup in GroupKeys(rows) && rows[i] in Members(rows, rows[i].versionGroup)
    ensures |GroupKeys(rows)| == |set i | 0 <= i < |rows| :: rows[i].versionGroup|
  {
    ListingCount(rows);
    GroupKeysDistinct(rows);
    var keys := GroupKeys(rows);
    forall i | 0 <= i < |rows|
      ensures rows[i].versionGroup in keys && rows[i] in Members(rows, rows[i].versionGroup)
    {
      MembersOf(rows, rows[i].versionGroup);
      KeysCover(rows, rows[i].versionGroup);
    }
    KeysAreGroups(rows);
    DistinctCard(keys);
  }

  // ---- submit_feedback ----

  /** The message a piece of feedback is about, as `submit_feedback` looks it
      up before the analysis. */
  datatype FeedbackTarget =
    | InvalidIndex                               // message_index >= len(messages): status 400
    | IndexOutOfRange                            // messages[message_index] raises IndexError
    | Target(answer: string, question: string)   // the answered message and the question before it

  /** The closest user message strictly before position `k`. */
  function PreviousUser(messages: seq<MessageRow>, k: int): (r: Option<nat>)
    requires k <= |messages|
    decreases k
    ensures r.Some? ==> r.value < k && messages[r.value].role == FromUser
    ensures r.Some? ==> forall j :: r.value < j < k ==> messages[j].role != FromUser
    ensures r.None? ==> forall j :: 0 <= j < k ==> messages[j].role != FromUser
  {
    if k <= 0 then None
    else if messages[k - 1].role == FromUser then Some(k - 1)
    else PreviousUser(messages, k - 1)
  }

  /** The index check and the backwards search of `submit_feedback`. Only an
      index at or past the end is refused; a negative one selects from the
      end, as Python indexing does, and finds no question because the search
      range is empty; one below `-len(messages)` makes the indexing raise. */
  method FindFeedbackTarget(messages: seq<MessageRow>, index: int) returns (r: FeedbackTarget)
    ensures index >= |messages| <==> r == InvalidIndex
    ensures index < -|messages| <==> r == IndexOutOfRange
    ensures -|messages| <= index < |messages| ==>
              && r.Target?
              && r.answer == messages[if index < 0 then |messages| + index else index].content
              && r.question == match PreviousUser(messages, index) case Some(j) => messages[j].content case None => ""
    ensures index < 0 && r.Target? ==> r.question == ""
  {
    if index >= |messages| {
      return InvalidIndex;
    }
    if index < -|messages| {
      return IndexOutOfRange;
    }
    var aiMsg := messages[if index < 0 then |messages| + index else index];
    var question := "";
    var i := index - 1;
    while i >= 0
      invariant i < index
      invariant forall j :: 0 <= j && i < j < index ==> messages[j].role != FromUser
      decreases i
    {
      if messages[i].role == FromUser {
        question := messages[i].content;
        break;
      }
      i := i - 1;
    }
    r := Target(aiMsg.content, question);
  }
}
