/** The `corrections` table and its status workflow
    (feedback/correction_manager.py). A correction is created `pending` and
    leaves that state at most once, to `approved` or `rejected`: both updates
    are guarded by `status = 'pending'`. The random part of the id (`uuid4`),
    the clock and the correction-docs directory are parameters. */
module CorrectionManager {
  import opened Common
  import opened Schema
  import Paths
  import Sorting

  // ---- create ----

  const IdPrefix: string := "corr_"

  /** A character of `uuid4().hex`: lower-case hexadecimal. */
  predicate IsHexDigit(c: char)
  {
    ('0' <= c <= '9') || ('a' <= c <= 'f')
  }

  /** `"corr_"` followed by eight hexadecimal characters. */
  predicate WellFormedId(id: string)
  {
    && |id| == |IdPrefix| + 8
    && id[..|IdPrefix|] == IdPrefix
    && forall i :: |IdPrefix| <= i < |id| ==> IsHexDigit(id[i])
  }

  /** `f"corr_{uuid.uuid4().hex[:8]}"`, `hex` being the 32-character hex form. */
  function CorrectionId(hex: string): (r: string)
    requires |hex| == 32 && forall i :: 0 <= i < |hex| ==> IsHexDigit(hex[i])
    ensures WellFormedId(r)
    ensures r[|IdPrefix|..] == hex[..8]
  {
    var r := IdPrefix + hex[..8];
    assert forall i :: |IdPrefix| <= i < |r| ==> r[i] == hex[i - |IdPrefix|];
    r
  }

  /** The columns `create_correction` supplies. */
  datatype Submission = Submission(
    sessionId: string,
    submittedBy: string,
    originalQuestion: string,
    aiWrongAnswer: string,
    userCorrection: string,
    extractedFact: string,
    confidence: real,
    correctionText: string)

  /** The row the INSERT creates: the supplied columns, `status` at its
      schema default, the review columns NULL, `created_at` the current time. */
  function NewCorrection(id: string, s: Submission, now: string): CorrectionRow
  {
    CorrectionRow(id, s.sessionId, s.submittedBy, DefaultStatus, s.originalQuestion, s.aiWrongAnswer,
                  s.userCorrection, s.extractedFact, s.confidence, s.correctionText,
                  None, None, None, None, now)
  }

  /** A new correction is pending, unreviewed and carries what was submitted. */
  lemma NewCorrectionPending(id: string, s: Submission, now: string)
    ensures NewCorrection(id, s, now).status == Pending
    ensures NewCorrection(id, s, now).reviewedBy.None? && NewCorrection(id, s, now).reviewedAt.None?
    ensures NewCorrection(id, s, now).storeDocumentName.None? && NewCorrection(id, s, now).rejectReason.None?
    ensures NewCorrection(id, s, now).id == id && NewCorrection(id, s, now).correctionText == s.correctionText
  {
  }

  predicate IdAbsent(rows: seq<CorrectionRow>, id: string)
  {
    forall j :: 0 <= j < |rows| ==> rows[j].id != id
  }

  /** `create_correction`: one row appended; its id is returned. The id is
      assumed new to the table (a `uuid4` collision is not modelled). */
  method CreateCorrection(table: CorrectionTable, s: Submission, hex: string, now: string) returns (id: string)
    requires table.Valid()
    requires |hex| == 32 && forall i :: 0 <= i < |hex| ==> IsHexDigit(hex[i])
    requires IdAbsent(table.rows, CorrectionId(hex))
    modifies table
    ensures table.Valid()
    ensures id == CorrectionId(hex) && WellFormedId(id)
    ensures table.rows == old(table.rows) + [NewCorrection(id, s, now)]
  {
    id := CorrectionId(hex);
    table.rows := table.rows + [NewCorrection(id, s, now)];
  }

  // ---- get ----

  /** `get_correction`: the row with this id, if any. */
  function Get(rows: seq<CorrectionRow>, id: string): (r: Option<CorrectionRow>)
    ensures r.Some? ==> r.value in rows && r.value.id == id
    ensures r.None? ==> IdAbsent(rows, id)
  {
    if rows == [] then None
    else if rows[0].id == id then Some(rows[0])
    else
      var r := Get(rows[1..], id);
      assert r.None? ==> forall j :: 1 <= j < |rows| ==> rows[j] == rows[1..][j - 1];
      r
  }

  /** With unique ids, the row `Get` finds is the one at that id's position. */
  lemma GetAt(rows: seq<CorrectionRow>, k: nat)
    requires UniqueCorrectionIds(rows) && k < |rows|
    ensures Get(rows, rows[k].id) == Some(rows[k])
  {
    if k > 0 {
      assert rows[1..][k - 1] == rows[k];
      assert UniqueCorrectionIds(rows[1..]);
      GetAt(rows[1..], k - 1);
    }
  }

  // ---- approve / reject ----

  /** The SET clause of `approve_correction` or `reject_correction`. */
  datatype Decision =
    | Approve(reviewer: string, at: string, storeDoc: Option<string>)
    | Reject(reviewer: string, at: string, reason: string)

  function DecisionStatus(d: Decision): CorrectionStatus
  {
    match d
    case Approve(_, _, _) => Approved
    case Reject(_, _, _) => Rejected
  }

  /** The WHERE clause: `id = ? AND status = 'pending'`. */
  predicate Applies(row: CorrectionRow, id: string)
  {
    row.id == id && row.status == Pending
  }

  function Decided(row: CorrectionRow, d: Decision): CorrectionRow
  {
    match d
    case Approve(who, at, doc) =>
      row.(status := Approved, reviewedBy := Some(who), reviewedAt := Some(at), storeDocumentName := doc)
    case Reject(who, at, reason) =>
      row.(status := Rejected, reviewedBy := Some(who), reviewedAt := Some(at), rejectReason := Some(reason))
  }

  function ReviewRow(row: CorrectionRow, id: string, d: Decision): CorrectionRow
  {
    if Applies(row, id) then Decided(row, d) else row
  }

  /** The table after the guarded UPDATE. */
  function ReviewRows(rows: seq<CorrectionRow>, id: string, d: Decision): (r: seq<CorrectionRow>)
    ensures |r| == |rows|
    ensures forall k :: 0 <= k < |rows| ==> r[k] == ReviewRow(rows[k], id, d)
  {
    seq(|rows|, k requires 0 <= k < |rows| => ReviewRow(rows[k], id, d))
  }

  predicate AnyApplies(rows: seq<CorrectionRow>, id: string)
  {
    exists k :: 0 <= k < |rows| && Applies(rows[k], id)
  }

  /** `approve_correction` (an `Approve` decision) and `reject_correction`
      (a `Reject` one): the guarded UPDATE, and whether it changed a row. */
  method Review(table: CorrectionTable, id: string, d: Decision) returns (changed: bool)
    requires table.Valid()
    modifies table
    ensures table.Valid()
    ensures table.rows == ReviewRows(old(table.rows), id, d)
    ensures changed <==> AnyApplies(old(table.rows), id)
  {
    ghost var start := table.rows;
    changed := false;
    for i := 0 to |table.rows|
      invariant |table.rows| == |start|
      invariant forall k :: 0 <= k < i ==> table.rows[k] == ReviewRow(start[k], id, d)
      invariant forall k :: i <= k < |start| ==> table.rows[k] == start[k]
      invariant changed <==> exists k :: 0 <= k < i && Applies(start[k], id)
    {
      if table.rows[i].id == id && table.rows[i].status == Pending {
        table.rows := table.rows[i := Decided(table.rows[i], d)];
        changed := true;
      }
    }
    assert table.rows == ReviewRows(start, id, d);
  }

  /** The update changes only the pending row with that id; its status
      becomes the decision's and the review columns are filled in. Every other
      row, in particular every row that is not pending, is left as it was.
      Ids never change, so the primary key still holds. */
  lemma ReviewEffect(rows: seq<CorrectionRow>, id: string, d: Decision)
    ensures forall k :: 0 <= k < |rows| && !(rows[k].id == id && rows[k].status == Pending) ==>
              ReviewRows(rows, id, d)[k] == rows[k]
    ensures forall k :: 0 <= k < |rows| && rows[k].id == id && rows[k].status == Pending ==>
              && ReviewRows(rows, id, d)[k].status == DecisionStatus(d)
              && ReviewRows(rows, id, d)[k].reviewedBy == Some(d.reviewer)
              && ReviewRows(rows, id, d)[k].reviewedAt == Some(d.at)
              && ReviewRows(rows, id, d)[k].correctionText == rows[k].correctionText
    ensures forall k :: 0 <= k < |rows| ==> ReviewRows(rows, id, d)[k].id == rows[k].id
    ensures UniqueCorrectionIds(rows) ==> UniqueCorrectionIds(ReviewRows(rows, id, d))
  {
  }

  /** Whether an update changes a row is whether `Get` finds a pending row. */
  lemma ChangedIffPending(rows: seq<CorrectionRow>, id: string)
    requires UniqueCorrectionIds(rows)
    ensures AnyApplies(rows, id) <==> Get(rows, id).Some? && Get(rows, id).value.status == Pending
  {
    if AnyApplies(rows, id) {
      var k :| 0 <= k < |rows| && Applies(rows[k], id);
      GetAt(rows, k);
    }
    if Get(rows, id).Some? {
      var c := Get(rows, id).value;
      var k :| 0 <= k < |rows| && rows[k] == c;
      if c.status == Pending {
        assert Applies(rows[k], id);
      }
    }
  }

  /** A correction leaves `pending` at most once: after one update no row
      with that id is pending, so any second update, approving or
      rejecting, changes nothing and reports so. */
  lemma ReviewOnce(rows: seq<CorrectionRow>, id: string, d1: Decision, d2: Decision)
    ensures !AnyApplies(ReviewRows(rows, id, d1), id)
    ensures ReviewRows(ReviewRows(rows, id, d1), id, d2) == ReviewRows(rows, id, d1)
  {
    var r := ReviewRows(rows, id, d1);
    assert forall k :: 0 <= k < |r| ==> !Applies(r[k], id);
  }

  /** Looking the correction up after the update finds it decided. */
  lemma ReviewGet(rows: seq<CorrectionRow>, id: string, d: Decision)
    requires UniqueCorrectionIds(rows)
    requires Get(rows, id).Some? && Get(rows, id).value.status == Pending
    ensures Get(ReviewRows(rows, id, d), id) == Some(Decided(Get(rows, id).value, d))
    ensures Get(ReviewRows(rows, id, d), id).value.status == DecisionStatus(d)
  {
    var c := Get(rows, id).value;
    var k :| 0 <= k < |rows| && rows[k] == c;
    var r := ReviewRows(rows, id, d);
    ReviewEffect(rows, id, d);
    GetAt(r, k);
  }

  /** Every row either keeps its status or goes from `pending` to the
      decision's status; no update ever leads back to `pending`. */
  lemma ReviewMoves(rows: seq<CorrectionRow>, id: string, d: Decision)
    ensures forall k :: 0 <= k < |rows| ==>
              || ReviewRows(rows, id, d)[k] == rows[k]
              || (rows[k].status == Pending && ReviewRows(rows, id, d)[k].status == DecisionStatus(d))
    ensures forall k :: 0 <= k < |rows| && rows[k].status != Pending ==>
              ReviewRows(rows, id, d)[k].status != Pending
  {
  }

  // ---- list ----

  /** A row of `list_corrections`: the correction and its submitter's username. */
  datatype ListedCorrection = ListedCorrection(row: CorrectionRow, submittedUsername: string)

  /** The username of the user with this id (`users.id` is the primary key). */
  function UserName(users: seq<UserRow>, id: string): (r: Option<string>)
    ensures r.Some? ==> exists j :: 0 <= j < |users| && users[j].id == id && users[j].username == r.value
    ensures r.None? ==> forall j :: 0 <= j < |users| ==> users[j].id != id
  {
    if users == [] then None
    else if users[0].id == id then Some(users[0].username)
    else
      var r := UserName(users[1..], id);
      assert forall j :: 1 <= j < |users| ==> users[j] == users[1..][j - 1];
      r
  }

  /** `corrections c JOIN users u ON c.submitted_by = u.id`, in table order. */
  function Join(rows: seq<CorrectionRow>, users: seq<UserRow>): (r: seq<ListedCorrection>)
    decreases |rows|
    ensures forall x :: x in r <==> x.row in rows && UserName(users, x.row.submittedBy) == Some(x.submittedUsername)
  {
    if rows == [] then []
    else
      var n := |rows| - 1;
      var prev := Join(rows[..n], users);
      assert rows == rows[..n] + [rows[n]];
      match UserName(users, rows[n].submittedBy)
      case None => prev
      case Some(name) => prev + [ListedCorrection(rows[n], name)]
  }

  function CreatedAtOf(x: ListedCorrection): string
  {
    x.row.createdAt
  }

  /** `if status:` — no filter for a missing or empty status. */
  predicate Selective(status: Option<string>)
  {
    status.Some? && status.value != ""
  }

  predicate Matches(status: Option<string>, row: CorrectionRow)
  {
    !Selective(status) || StatusName(row.status) == status.value
  }

  /** `list_corrections(status)`: the joined rows of that status (all rows
      when no status is given), `ORDER BY created_at DESC`. */
  function ListCorrections(rows: seq<CorrectionRow>, users: seq<UserRow>, status: Option<string>): seq<ListedCorrection>
  {
    var chosen := Filter(rows, row => Matches(status, row));
    Sorting.Reverse(Sorting.SortBy(Join(chosen, users), CreatedAtOf))
  }

  /** The listing holds exactly the corrections of the requested status whose
      submitter is a user, each with that user's name, newest first. */
  lemma ListCorrectionsSpec(rows: seq<CorrectionRow>, users: seq<UserRow>, status: Option<string>)
    ensures forall x :: x in ListCorrections(rows, users, status) <==>
              && x.row in rows
              && (Selective(status) ==> StatusName(x.row.status) == status.value)
              && UserName(users, x.row.submittedBy) == Some(x.submittedUsername)
    ensures var r := ListCorrections(rows, users, status);
            forall i, j :: 0 <= i < j < |r| ==> Sorting.LexLe(r[j].row.createdAt, r[i].row.createdAt)
  {
    var chosen := Filter(rows, row => Matches(status, row));
    var joined := Join(chosen, users);
    Sorting.SortByDescending(joined, CreatedAtOf);
    var r := ListCorrections(rows, users, status);
    forall x ensures x in r <==> x in joined {
      assert x in r <==> x in multiset(r);
      assert x in joined <==> x in multiset(joined);
    }
  }

  /** With every row's submitter a user, the unfiltered listing is a
      permutation of the whole table. */
  lemma ListAllCount(rows: seq<CorrectionRow>, users: seq<UserRow>)
    requires forall k :: 0 <= k < |rows| ==> UserName(users, rows[k].submittedBy).Some?
    ensures |ListCorrections(rows, users, None)| == |rows|
  {
    var chosen := Filter(rows, row => Matches(None, row));
    FilterAll(rows, row => Matches(None, row));
    JoinAll(rows, users);
  }

  lemma {:induction false} JoinAll(rows: seq<CorrectionRow>, users: seq<UserRow>)
    requires forall k :: 0 <= k < |rows| ==> UserName(users, rows[k].submittedBy).Some?
    decreases |rows|
    ensures |Join(rows, users)| == |rows|
  {
    if rows != [] {
      JoinAll(rows[..|rows| - 1], users);
    }
  }

  // ---- stats ----

  function CountStatus(rows: seq<CorrectionRow>, s: CorrectionStatus): (r: nat)
    ensures r <= |rows|
  {
    if rows == [] then 0
    else CountStatus(rows[..|rows| - 1], s) + if rows[|rows| - 1].status == s then 1 else 0
  }

  /** The dictionary `get_stats` returns. */
  datatype Stats = Stats(pending: nat, approved: nat, rejected: nat, superseded: nat, total: nat)

  /** `get_stats`: the `GROUP BY status` counts, 0 for a status no row has,
      and `total` the sum of the counts. */
  function GetStats(rows: seq<CorrectionRow>): Stats
  {
    var p := CountStatus(rows, Pending);
    var a := CountStatus(rows, Approved);
    var j := CountStatus(rows, Rejected);
    var s := CountStatus(rows, Superseded);
    Stats(p, a, j, s, p + a + j + s)
  }

  /** A status count is 0 exactly when no row has that status. */
  lemma {:induction false} CountZero(rows: seq<CorrectionRow>, s: CorrectionStatus)
    decreases |rows|
    ensures CountStatus(rows, s) == 0 <==> forall k :: 0 <= k < |rows| ==> rows[k].status != s
  {
    if rows != [] {
      var n := |rows| - 1;
      CountZero(rows[..n], s);
      assert forall k :: 0 <= k < n ==> rows[..n][k] == rows[k];
    }
  }

  lemma {:induction false} CountsCover(rows: seq<CorrectionRow>)
    decreases |rows|
    ensures CountStatus(rows, Pending) + CountStatus(rows, Approved)
            + CountStatus(rows, Rejected) + CountStatus(rows, Superseded) == |rows|
  {
    if rows != [] {
      CountsCover(rows[..|rows| - 1]);
    }
  }

  /** `total` is the number of corrections, since every row has one of the
      four statuses the schema allows; absent statuses report 0. */
  lemma StatsTotal(rows: seq<CorrectionRow>)
    ensures GetStats(rows).total == |rows|
    ensures GetStats(rows).pending == 0 <==> forall k :: 0 <= k < |rows| ==> rows[k].status != Pending
    ensures GetStats(rows).superseded == 0 <==> forall k :: 0 <= k < |rows| ==> rows[k].status != Superseded
  {
    CountsCover(rows);
    CountZero(rows, Pending);
    CountZero(rows, Superseded);
  }

  /** Creating a correction adds one to `pending` and to `total`. */
  lemma StatsAfterCreate(rows: seq<CorrectionRow>, id: string, s: Submission, now: string)
    ensures GetStats(rows + [NewCorrection(id, s, now)]).pending == GetStats(rows).pending + 1
    ensures GetStats(rows + [NewCorrection(id, s, now)]).approved == GetStats(rows).approved
    ensures GetStats(rows + [NewCorrection(id, s, now)]).total == GetStats(rows).total + 1
  {
    assert (rows + [NewCorrection(id, s, now)])[..|rows|] == rows;
  }

  // ---- the artifact file ----

  /** `CORRECTION_DOCS_DIR / f"{correction_id}.txt"`. */
  function CorrectionFilePath(dir: string, id: string): (r: string)
    ensures '/' !in id ==> Paths.Name(r) == id + ".txt"
  {
    Paths.Join(dir, id + ".txt")
  }

  /** A well-formed id gives a file named `<id>.txt` whose suffix is `.txt`. */
  lemma CorrectionFileName(dir: string, id: string)
    requires WellFormedId(id)
    ensures Paths.Name(CorrectionFilePath(dir, id)) == id + ".txt"
    ensures Paths.Suffix(Paths.Name(CorrectionFilePath(dir, id))) == ".txt"
  {
    assert forall i :: 0 <= i < |IdPrefix| ==> id[i] == IdPrefix[i];
    assert '/' !in id;
    Paths.StemOfDotted(id, "txt");
    assert id + "." + "txt" == id + ".txt";
  }

  /** The directory the correction texts are written to. */
  class ArtifactFiles {
    var contents: map<string, string>

    constructor (initial: map<string, string>)
      ensures contents == initial
    {
      contents := initial;
    }

    /** `save_correction_file`: writes the text to `<dir>/<id>.txt` and
        returns that path. */
    method SaveCorrectionFile(dir: string, id: string, text: string) returns (path: string)
      modifies this
      ensures path == CorrectionFilePath(dir, id)
      ensures contents == old(contents)[path := text]
    {
      path := CorrectionFilePath(dir, id);
      contents := contents[path := text];
    }
  }
}
