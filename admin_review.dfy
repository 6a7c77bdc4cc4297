/** The administrator's review workflow (feedback/admin_review.py):
    approving a correction writes its text to a file, uploads it to the
    correction store and only then marks it approved; rejecting checks the
    reason and marks it rejected. The upload's polling is an oracle, as in
    `DocumentUploader`. */
module AdminReview {
  import opened Common
  import opened Schema
  import Config
  import opened CorrectionManager
  import StoreManager
  import DocumentUploader
  import Paths

  const NotFoundError: string := "교정 데이터를 찾을 수 없습니다"
  const BlankReasonError: string := "거절 사유를 입력해주세요"
  const ApprovedMessage: string := "교정이 승인되어 지식 베이스에 반영되었습니다"
  const RejectedMessage: string := "교정이 거절되었습니다"

  function AlreadyProcessedError(s: CorrectionStatus): string
  {
    "이미 처리된 교정입니다 (상태: " + StatusName(s) + ")"
  }

  function UploadFailedError(e: string): string
  {
    "Store 업로드 실패: " + e
  }

  /** The dictionary both operations return. */
  datatype ReviewResult = Failure(error: string) | Success(correctionId: string, message: string)

  /** The checks `process_approval` makes before any side effect: the
      correction must exist and then be pending. */
  function ApprovalGuard(rows: seq<CorrectionRow>, id: string): (r: Option<string>)
    ensures r.None? <==> Get(rows, id).Some? && Get(rows, id).value.status == Pending
    ensures Get(rows, id).None? ==> r == Some(NotFoundError)
    ensures Get(rows, id).Some? && Get(rows, id).value.status != Pending ==>
              r == Some(AlreadyProcessedError(Get(rows, id).value.status))
  {
    match Get(rows, id)
    case None => Some(NotFoundError)
    case Some(c) => if c.status != Pending then Some(AlreadyProcessedError(c.status)) else None
  }

  /** The checks of `process_rejection`, in order: unknown id, not pending,
      blank reason. */
  function RejectionGuard(rows: seq<CorrectionRow>, id: string, reason: string): (r: Option<string>)
    ensures r.None? <==> ApprovalGuard(rows, id).None? && Strip(reason) != ""
    ensures ApprovalGuard(rows, id).Some? ==> r == ApprovalGuard(rows, id)
    ensures ApprovalGuard(rows, id).None? && Strip(reason) == "" ==> r == Some(BlankReasonError)
  {
    match ApprovalGuard(rows, id)
    case Some(e) => Some(e)
    case None => if Strip(reason) == "" then Some(BlankReasonError) else None
  }

  /** The error for an already processed correction names its status, and
      every guard error is told apart from the others. */
  lemma GuardErrorsDistinct(s1: CorrectionStatus, s2: CorrectionStatus)
    ensures AlreadyProcessedError(s1) == AlreadyProcessedError(s2) ==> s1 == s2
    ensures AlreadyProcessedError(s1) != NotFoundError && AlreadyProcessedError(s1) != BlankReasonError
    ensures NotFoundError != BlankReasonError
  {
    var prefix := "이미 처리된 교정입니다 (상태: ";
    if AlreadyProcessedError(s1) == AlreadyProcessedError(s2) {
      var e1 := AlreadyProcessedError(s1);
      var e2 := AlreadyProcessedError(s2);
      assert e1[|prefix|..|e1| - 1] == StatusName(s1);
      assert e2[|prefix|..|e2| - 1] == StatusName(s2);
      NamesRoundTrip(User, s1, Primary);
      NamesRoundTrip(User, s2, Primary);
    }
    assert AlreadyProcessedError(s1)[0] != NotFoundError[0];
    assert AlreadyProcessedError(s1)[0] != BlankReasonError[0];
    assert NotFoundError[0] != BlankReasonError[0];
  }

  /** The name of the correction store in the service's listing. */
  function CorrectionStoreName(stores: seq<StoreManager.StoreRecord>): Option<string>
  {
    match StoreManager.FindStore(stores, Config.CorrectionStoreDisplayName)
    case Some(k) => Some(stores[k].name)
    case None => None
  }

  /** The file written for a well-formed correction id passes the upload's
      checks, so its outcome is that of the wait for indexing. */
  lemma CorrectionFileUploadable(dir: string, id: string, status: nat -> DocumentUploader.PollStatus)
    requires WellFormedId(id)
    ensures DocumentUploader.Supported(CorrectionFilePath(dir, id))
    ensures DocumentUploader.UploadOutcome(CorrectionFilePath(dir, id), true, status)
            == DocumentUploader.WaitOutcome(CorrectionFilePath(dir, id), status)
  {
    var path := CorrectionFilePath(dir, id);
    CorrectionFileName(dir, id);
    TxtSupported(Paths.Suffix(Paths.Name(path)));
  }

  lemma TxtSupported(suffix: string)
    requires suffix == ".txt"
    ensures Paths.AsciiLower(suffix) in DocumentUploader.MimeMap
  {
    assert Paths.AsciiLower(suffix) == ".txt";
  }

  /** `process_approval`. `created` is the name the service would give a new
      correction store, `docName` the name it gives the uploaded document,
      and `status` the upload's poll oracle. Nothing changes when a guard
      fails. Otherwise the file is written and the store looked up or
      created; when the upload succeeds the store lists the document under
      the file's name and the correction becomes approved, with the store's
      name; when it fails the correction stays pending. */
  method ProcessApproval(table: CorrectionTable, service: StoreManager.StoreService, files: ArtifactFiles,
                         id: string, reviewer: string, now: string, dir: string, created: string,
                         docName: string, status: nat -> DocumentUploader.PollStatus)
    returns (result: ReviewResult)
    requires table.Valid()
    modifies table, service, files
    ensures table.Valid()
    ensures ApprovalGuard(old(table.rows), id).Some? ==>
              && result == Failure(ApprovalGuard(old(table.rows), id).value)
              && table.rows == old(table.rows)
              && files.contents == old(files.contents)
              && service.stores == old(service.stores)
    ensures ApprovalGuard(old(table.rows), id).None? ==>
              var path := CorrectionFilePath(dir, id);
              var upload := DocumentUploader.UploadOutcome(path, true, status);
              var found := StoreManager.WithStore(old(service.stores), Config.CorrectionStoreDisplayName, created);
              var k := StoreManager.FindStore(found, Config.CorrectionStoreDisplayName).value;
              && files.contents == old(files.contents)[path := Get(old(table.rows), id).value.correctionText]
              && CorrectionStoreName(service.stores).Some?
              && CorrectionStoreName(service.stores) == Some(found[k].name)
              && (upload.success ==>
                    service.stores == StoreManager.WithFile(found, k, StoreManager.RemoteFile(docName, Paths.Name(path))))
              && (!upload.success ==> service.stores == found)
              && (upload.success ==>
                    && result == Success(id, ApprovedMessage)
                    && table.rows == ReviewRows(old(table.rows), id, Approve(reviewer, now, CorrectionStoreName(service.stores))))
              && (!upload.success ==>
                    && result == Failure(UploadFailedError(upload.error.value))
                    && table.rows == old(table.rows))
  {
    var found := Get(table.rows, id);
    if found.None? {
      return Failure(NotFoundError);
    }
    var correction := found.value;
    if correction.status != Pending {
      return Failure(AlreadyProcessedError(correction.status));
    }
    var path := files.SaveCorrectionFile(dir, id, correction.correctionText);
    var storeName := service.GetOrCreateStore(Config.CorrectionStoreDisplayName, created);
    var upload, _ := DocumentUploader.UploadFile(path, true, status);
    if !upload.success {
      return Failure(UploadFailedError(upload.error.value));
    }
    var k := StoreManager.FindStore(service.stores, Config.CorrectionStoreDisplayName).value;
    StoreManager.FindAfterUpload(service.stores, k, StoreManager.RemoteFile(docName, Paths.Name(path)), Config.CorrectionStoreDisplayName);
    service.UploadDocument(k, StoreManager.RemoteFile(docName, Paths.Name(path)));
    var _ := Review(table, id, Approve(reviewer, now, Some(storeName)));
    result := Success(id, ApprovedMessage);
  }

  /** After a successful approval the correction store, found or newly
      created, lists the correction's file `<id>.txt` as its last document,
      and a store created for it lists nothing else. */
  lemma ApprovedFileListed(stores: seq<StoreManager.StoreRecord>, created: string, dir: string, id: string, docName: string)
    requires WellFormedId(id)
    ensures var found := StoreManager.WithStore(stores, Config.CorrectionStoreDisplayName, created);
            var k := StoreManager.FindStore(found, Config.CorrectionStoreDisplayName).value;
            var after := StoreManager.WithFile(found, k, StoreManager.RemoteFile(docName, Paths.Name(CorrectionFilePath(dir, id))));
            && StoreManager.FindStore(after, Config.CorrectionStoreDisplayName) == Some(k)
            && after[k].files == found[k].files + [StoreManager.RemoteFile(docName, id + ".txt")]
            && (StoreManager.FindStore(stores, Config.CorrectionStoreDisplayName).None? ==>
                  after[k].files == [StoreManager.RemoteFile(docName, id + ".txt")])
  {
    var found := StoreManager.WithStore(stores, Config.CorrectionStoreDisplayName, created);
    var k := StoreManager.FindStore(found, Config.CorrectionStoreDisplayName).value;
    var f := StoreManager.RemoteFile(docName, Paths.Name(CorrectionFilePath(dir, id)));
    CorrectionFileName(dir, id);
    StoreManager.FindAfterUpload(found, k, f, Config.CorrectionStoreDisplayName);
    if StoreManager.FindStore(stores, Config.CorrectionStoreDisplayName).None? {
      StoreManager.FindAfterCreate(stores, Config.CorrectionStoreDisplayName, created, Config.CorrectionStoreDisplayName);
    }
  }

  /** `process_rejection`: nothing changes when a guard fails; otherwise the
      correction becomes rejected with the reason as given. */
  method ProcessRejection(table: CorrectionTable, id: string, reviewer: string, now: string, reason: string)
    returns (result: ReviewResult)
    requires table.Valid()
    modifies table
    ensures table.Valid()
    ensures RejectionGuard(old(table.rows), id, reason).Some? ==>
              result == Failure(RejectionGuard(old(table.rows), id, reason).value) && table.rows == old(table.rows)
    ensures RejectionGuard(old(table.rows), id, reason).None? ==>
              && result == Success(id, RejectedMessage)
              && table.rows == ReviewRows(old(table.rows), id, Reject(reviewer, now, reason))
  {
    var found := Get(table.rows, id);
    if found.None? {
      return Failure(NotFoundError);
    }
    var correction := found.value;
    if correction.status != Pending {
      return Failure(AlreadyProcessedError(correction.status));
    }
    if Strip(reason) == "" {
      return Failure(BlankReasonError);
    }
    var _ := Review(table, id, Reject(reviewer, now, reason));
    result := Success(id, RejectedMessage);
  }

  /** A successful approval leaves the correction approved, reviewed by the
      administrator and pointing at the correction store; a successful
      rejection leaves it rejected with the reason. */
  lemma DecisionRecorded(rows: seq<CorrectionRow>, id: string, d: Decision)
    requires UniqueCorrectionIds(rows) && ApprovalGuard(rows, id).None?
    ensures Get(ReviewRows(rows, id, d), id).Some?
    ensures Get(ReviewRows(rows, id, d), id).value.status == DecisionStatus(d)
    ensures Get(ReviewRows(rows, id, d), id).value.reviewedBy == Some(d.reviewer)
    ensures d.Approve? ==> Get(ReviewRows(rows, id, d), id).value.storeDocumentName == d.storeDoc
    ensures d.Reject? ==> Get(ReviewRows(rows, id, d), id).value.rejectReason == Some(d.reason)
  {
    ReviewGet(rows, id, d);
  }

  /** After any outcome of `process_approval` or `process_rejection`, trying
      either again on the same correction fails with a guard error unless the
      first attempt left it pending. */
  lemma SecondReviewRefused(rows: seq<CorrectionRow>, id: string, d: Decision)
    requires UniqueCorrectionIds(rows) && ApprovalGuard(rows, id).None?
    ensures ApprovalGuard(ReviewRows(rows, id, d), id) == Some(AlreadyProcessedError(DecisionStatus(d)))
  {
    ReviewGet(rows, id, d);
  }
}
