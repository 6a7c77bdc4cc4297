/** Uploading a document into a File Search store and waiting for it to be
    indexed (core/document_uploader.py). The external service is an oracle:
    `status(0)` is what the upload call yields and `status(n)` what the n-th
    `operations.get` poll yields — a finished operation, one still running,
    or an exception with its message. The file system is reduced to whether a
    path exists and, for a directory, its listing. */
module DocumentUploader {
  import opened Common
  import Paths
  import Sorting

  /** Supported extensions and their MIME types. */
  const MimeMap: map<string, string> := map[
    ".hwp" := "application/x-hwp",
    ".pdf" := "application/pdf",
    ".docx" := "application/vnd.openxmlformats-officedocument.wordprocessingml.document",
    ".doc" := "application/msword",
    ".txt" := "text/plain",
    ".json" := "application/json",
    ".xlsx" := "application/vnd.openxmlformats-officedocument.spreadsheetml.sheet",
    ".md" := "text/markdown",
    ".csv" := "text/csv"
  ]

  const MaxPollSeconds: nat := 300
  const PollInterval: nat := 5

  /** The most polls the wait loop can make: it stops once `elapsed` reaches `MaxPollSeconds`. */
  const MaxPolls: nat := 60

  lemma MaxPollsIsQuotient()
    ensures MaxPolls * PollInterval == MaxPollSeconds
  {
  }

  const MissingFileError: string := "파일이 존재하지 않습니다"
  const TimeoutError: string := "인덱싱 타임아웃"
  const NotDirectoryError: string := "디렉토리가 아닙니다"

  function UnsupportedError(ext: string): string
  {
    "지원하지 않는 파일 형식: " + ext
  }

  datatype PollStatus = Done | Running | Raised(message: string)

  /** The dictionary `upload_file` returns: {"success", "file", "error"}. */
  datatype UploadResult = UploadResult(success: bool, file: string, error: Option<string>)

  /** `file_path.suffix.lower()`. */
  function Extension(path: string): string
  {
    Paths.AsciiLower(Paths.Suffix(Paths.Name(path)))
  }

  predicate Supported(path: string)
  {
    Extension(path) in MimeMap
  }

  /** The first observation among `k`..`MaxPolls` that is not `Running`. */
  function Settle(status: nat -> PollStatus, k: nat): (r: Option<nat>)
    decreases MaxPolls + 1 - k
    ensures r.Some? ==> k <= r.value <= MaxPolls && !status(r.value).Running?
    ensures r.Some? ==> forall j :: k <= j < r.value ==> status(j).Running?
    ensures r.None? ==> forall j :: k <= j <= MaxPolls ==> status(j).Running?
  {
    if k > MaxPolls then None
    else if !status(k).Running? then Some(k)
    else Settle(status, k + 1)
  }

  /** The outcome of the wait loop once the upload has been started: finished,
      an exception, or `MaxPolls` polls that all found it still running. */
  function WaitOutcome(path: string, status: nat -> PollStatus): (r: UploadResult)
    ensures r.file == path
    ensures r.success <==> r.error.None?
  {
    match Settle(status, 0)
    case None => UploadResult(false, path, Some(TimeoutError))
    case Some(k) =>
      match status(k)
      case Raised(m) => UploadResult(false, path, Some(m))
      case _ => UploadResult(true, path, None)
  }

  /** What `upload_file` returns: the existence check first, then the
      extension check, then the outcome of the bounded wait. */
  function UploadOutcome(path: string, present: bool, status: nat -> PollStatus): (r: UploadResult)
    ensures r.file == path
    ensures r.success <==> r.error.None?
    ensures !present ==> r == UploadResult(false, path, Some(MissingFileError))
    ensures present && !Supported(path) ==> r == UploadResult(false, path, Some(UnsupportedError(Extension(path))))
    ensures present && Supported(path) ==> r == WaitOutcome(path, status)
  {
    if !present then UploadResult(false, path, Some(MissingFileError))
    else if !Supported(path) then UploadResult(false, path, Some(UnsupportedError(Extension(path))))
    else WaitOutcome(path, status)
  }

  /** The wait succeeds exactly when the operation is reported finished within
      `MaxPolls` polls before any exception; it times out when every one of
      those observations finds it still running, and reports the exception's
      message when one is raised first. */
  lemma WaitOutcomeCases(path: string, status: nat -> PollStatus)
    ensures WaitOutcome(path, status).success <==>
              exists k :: 0 <= k <= MaxPolls && status(k).Done? && forall j :: 0 <= j < k ==> status(j).Running?
    ensures (forall j :: 0 <= j <= MaxPolls ==> status(j).Running?) ==>
              WaitOutcome(path, status).error == Some(TimeoutError)
    ensures forall k :: 0 <= k <= MaxPolls && status(k).Raised? && (forall j :: 0 <= j < k ==> status(j).Running?) ==>
              WaitOutcome(path, status).error == Some(status(k).message)
  {
    var s := Settle(status, 0);
    if s.Some? {
      var k := s.value;
      if !status(k).Done? {
        forall k' | 0 <= k' <= MaxPolls && status(k').Done?
          ensures exists j :: 0 <= j < k' && !status(j).Running?
        {
          if k' > k { assert !status(k).Running?; }
        }
      }
      forall k' | 0 <= k' <= MaxPolls && status(k').Raised? && (forall j :: 0 <= j < k' ==> status(j).Running?)
        ensures k' == k
      {
        SettleUnique(status, k');
      }
    }
  }

  /** The first observation that is not `Running` is the one `Settle` finds. */
  lemma SettleUnique(status: nat -> PollStatus, k: nat)
    requires k <= MaxPolls && !status(k).Running?
    requires forall j :: 0 <= j < k ==> status(j).Running?
    ensures Settle(status, 0) == Some(k)
  {
  }

  /** `upload_file`. `polls` counts the `operations.get` calls. */
  method UploadFile(path: string, present: bool, status: nat -> PollStatus) returns (r: UploadResult, polls: nat)
    ensures r == UploadOutcome(path, present, status)
    ensures polls <= MaxPolls
  {
    polls := 0;
    if !present {
      return UploadResult(false, path, Some(MissingFileError)), 0;
    }
    var ext := Extension(path);
    if ext !in MimeMap {
      return UploadResult(false, path, Some(UnsupportedError(ext))), 0;
    }
    r, polls := Wait(path, status);
  }

  /** The wait loop of `upload_file`, from the operation the upload call returned. */
  method Wait(path: string, status: nat -> PollStatus) returns (r: UploadResult, polls: nat)
    ensures r == WaitOutcome(path, status)
    ensures polls <= MaxPolls
  {
    polls := 0;
    var operation := status(0);
    if operation.Raised? {
      SettleUnique(status, 0);
      return UploadResult(false, path, Some(operation.message)), 0;
    }
    var elapsed := 0;
    while !operation.Done? && elapsed < MaxPollSeconds
      invariant polls <= MaxPolls && elapsed == PollInterval * polls
      invariant operation == status(polls) && !operation.Raised?
      invariant forall j :: 0 <= j < polls ==> status(j).Running?
    {
      elapsed := elapsed + PollInterval;
      polls := polls + 1;
      operation := status(polls);
      if operation.Raised? {
        SettleUnique(status, polls);
        return UploadResult(false, path, Some(operation.message)), polls;
      }
    }
    if !operation.Done? {
      assert polls == MaxPolls;
      return UploadResult(false, path, Some(TimeoutError)), polls;
    }
    SettleUnique(status, polls);
    return UploadResult(true, path, None), polls;
  }

  /** An entry of a directory listing: its path and whether it is a regular file. */
  datatype DirEntry = DirEntry(path: string, isFile: bool)

  function EntryPath(e: DirEntry): string
  {
    e.path
  }

  predicate Uploadable(e: DirEntry)
  {
    e.isFile && Supported(e.path)
  }

  /** The entries `upload_directory` uploads, in the order given. */
  function Selected(entries: seq<DirEntry>): seq<DirEntry>
  {
    Filter(entries, Uploadable)
  }

  /** Selecting from the listing sorted by path gives a sorted list holding
      exactly the regular files with a supported extension. */
  lemma SelectedOfSorted(entries: seq<DirEntry>)
    ensures Sorting.SortedBy(Selected(Sorting.SortBy(entries, EntryPath)), EntryPath)
    ensures forall e :: e in Selected(Sorting.SortBy(entries, EntryPath)) <==> e in entries && Uploadable(e)
  {
    var sorted := Sorting.SortBy(entries, EntryPath);
    Sorting.SortBySorted(entries, EntryPath);
    Sorting.FilterSorted(sorted, Uploadable, EntryPath);
    forall e ensures e in sorted <==> e in entries {
      assert e in sorted <==> e in multiset(sorted);
      assert e in entries <==> e in multiset(entries);
    }
  }

  /** What `upload_file` returns for a listed regular file. */
  function EntryOutcome(e: DirEntry, statusOf: string -> (nat -> PollStatus)): UploadResult
  {
    UploadOutcome(e.path, true, statusOf(e.path))
  }

  /** `results` holds the outcome of each entry of `chosen`, in order. */
  ghost predicate Outcomes(results: seq<UploadResult>, chosen: seq<DirEntry>, statusOf: string -> (nat -> PollStatus))
  {
    |results| == |chosen| && forall k :: 0 <= k < |chosen| ==> results[k] == EntryOutcome(chosen[k], statusOf)
  }

  /** One pass of the loop over the sorted listing. */
  lemma UploadStep(results: seq<UploadResult>, prefix: seq<DirEntry>, f: DirEntry, r: UploadResult,
                   statusOf: string -> (nat -> PollStatus))
    requires Outcomes(results, Selected(prefix), statusOf)
    requires Uploadable(f) ==> r == EntryOutcome(f, statusOf)
    ensures Outcomes(if Uploadable(f) then results + [r] else results, Selected(prefix + [f]), statusOf)
  {
    FilterAppend(prefix, f, Uploadable);
    if Uploadable(f) {
      OutcomesPush(results, Selected(prefix), f, r, statusOf);
    }
  }

  lemma OutcomesPush(results: seq<UploadResult>, chosen: seq<DirEntry>, e: DirEntry, r: UploadResult,
                     statusOf: string -> (nat -> PollStatus))
    requires Outcomes(results, chosen, statusOf) && r == EntryOutcome(e, statusOf)
    ensures Outcomes(results + [r], chosen + [e], statusOf)
  {
    assert forall k :: 0 <= k < |chosen| ==> (chosen + [e])[k] == chosen[k];
  }

  /** `upload_directory`: one failure entry for a path that is not a
      directory; otherwise one `upload_file` result per regular file with a
      supported extension, in sorted path order. */
  method UploadDirectory(dirPath: string, isDir: bool, entries: seq<DirEntry>, statusOf: string -> (nat -> PollStatus))
    returns (results: seq<UploadResult>)
    ensures !isDir ==> results == [UploadResult(false, dirPath, Some(NotDirectoryError))]
    ensures isDir ==>
              var chosen := Selected(Sorting.SortBy(entries, EntryPath));
              && |results| == |chosen|
              && forall k :: 0 <= k < |chosen| ==> results[k] == EntryOutcome(chosen[k], statusOf)
  {
    if !isDir {
      return [UploadResult(false, dirPath, Some(NotDirectoryError))];
    }
    var sorted := Sorting.SortBy(entries, EntryPath);
    results := [];
    for i := 0 to |sorted|
      invariant Outcomes(results, Selected(sorted[..i]), statusOf)
    {
      var f := sorted[i];
      assert sorted[..i + 1] == sorted[..i] + [f];
      ghost var before := results;
      var r := UploadResult(false, f.path, None);
      if f.isFile && Supported(f.path) {
        var polls;
        r, polls := UploadFile(f.path, true, statusOf(f.path));
        results := results + [r];
      }
      UploadStep(before, sorted[..i], f, r, statusOf);
    }
    assert sorted[..|sorted|] == sorted;
  }
}
