# Knowledge-base gateway: version registry and correction workflow in Dafny

This project models the core logic of a company-regulations question-answering
gateway. The gateway is built on a File Search service and SQLite, and the model
covers these parts of it:

- **Version registry.** Document rows are committed, each carrying a version group
  and a date derived from the file name. The most recently committed file of a
  group becomes the latest row. An administrator can override that choice. The
  admin listing groups rows by version group.
- **Store and database reconciliation.** The script's `sync` command reconciles
  the documents table with the stores' file listing as two set differences over
  `(file_name, store_type)` pairs. Its `reset` command empties the table.
- **Correction workflow.** A user's objection becomes a `pending` correction. An
  administrator approves it or rejects it. Every update is guarded by
  `status = 'pending'`, and an approval takes effect only after the correction
  text has been uploaded.
- **Feedback analysis.** The language model's reply is unwrapped from code fences,
  with a fallback record if that fails. The correction text has a fixed format.
- **Uploading.** A file goes through existence and extension checks, then a
  bounded wait for indexing. A directory upload keeps the regular files with a
  supported extension, in sorted order.
- **Query helpers.** These assemble the conversation, choose which stores to
  search, interpret the response, and truncate the session title.
- **Store management.** A store is found by display name or created, and the
  stores can be listed.
- **Database schema.** The CHECK domains and DEFAULT values, and idempotent
  seeding of users.
- **Admin page logic.** The pagination bar, the date label, and the correction
  card's status label and actions.

There is one module per source file, plus a few helper modules:

- `Common`: Python `str` operations and an `Option` type.
- `Paths`: `pathlib` names, stems and suffixes.
- `Sorting`: Python's `sorted` as a stable insertion sort.
- `Config`: the store display names.

SQLite tables are classes whose row sequences the operations update in place:
`Schema.DocumentTable`, `Schema.CorrectionTable` and `Schema.UserTable`. Other
state is modelled as classes too: the store service's list of stores
(`StoreManager.StoreService`) and the correction-docs directory
(`CorrectionManager.ArtifactFiles`).

Everything external is a parameter:

- Gemini calls are oracles. An upload or poll status is a function from the poll
  number to a status. A model reply is an `Option<string>`, and `json.loads` is a
  function parameter.
- `uuid4` ids, `datetime.now` timestamps and password hashes are parameters.
- A directory listing is an input sequence.

**Which version is latest.** The code never compares dates: the latest row
of a version group is the last one committed, or the one an administrator
chose (`Routes.ApplyRows`, `Routes.LastWins`, `Routes.SetLatest`). The only
place the source prefers the newest date is the instruction it gives the
language model in `config.py` (lines 51-58); no code enforces it.

## Model

| member | source | states |
|---|---|---|
| VersionNaming.CoreAt | server/routes.py:329 | the date pattern matched at one position: a match spans 8 to 10 characters, has the pattern's shape, and its date is the eight digits with the separators dropped |
| VersionNaming.CoreAtMatches | server/routes.py:329 | the matcher succeeds exactly when the regular expression can match at that position, and ends where any such match ends |
| VersionNaming.CoreDigits | server/routes.py:331 | the captured date is `group(1)+group(2)+group(3)`: the digits of the match without its optional separators |
| VersionNaming.SearchFrom | server/routes.py:329 | `re.search` returns the leftmost match; there is no match before it, and None means there is no match anywhere |
| VersionNaming.NoDateAtNonDigit | server/routes.py:329 | no date starts at a non-digit |
| VersionNaming.DateAtEnd | server/routes.py:329 | eight digits at the end of the stem are matched as one date |
| VersionNaming.RemoveDates | server/routes.py:332 | `re.sub` with the group pattern, scanning left to right from a position; never longer than what it scans. Its behaviour is stated by RemoveNothing, RemoveKeeps and TrailingRemove |
| VersionNaming.SubAtMatches | server/routes.py:332 | the deletion matcher succeeds at a position exactly when `[-_.]?\d{4}[-_.]?\d{2}[-_.]?\d{2}[-_.]?` can match there, and ends at the longest such match, as the greedy optional separators make it |
| VersionNaming.RemoveNothing | server/routes.py:332 | `re.sub` leaves the text unchanged where no deletion can start |
| VersionNaming.RemoveKeeps | server/routes.py:332 | `re.sub` copies any stretch where no deletion starts |
| VersionNaming.ExtractedDate | server/routes.py:329-334 | with no date-shaped part the result is `("", stem)`; otherwise the date is the eight ASCII digits of the leftmost match |
| VersionNaming.ExtractedGroup | server/routes.py:332-333 | a non-empty stem gives a non-empty group; unless the group is the whole stem, it neither starts nor ends with one of `_.- ` |
| VersionNaming.SplitStem | server/routes.py:328-334 | the helper's body on a stem; no ensures of its own, defined as the search, the substitution and the strip with fallback. Its results are stated by ExtractedDate, ExtractedGroup and TrailingDate |
| VersionNaming.ExtractDateAndGroup | server/routes.py:322-334 | `_extract_date_and_group(filename)`: no ensures of its own, defined as SplitStem of `Path(filename).stem`; see StemOfFile and DocstringExample |
| VersionNaming.TrailingFind | server/routes.py:329 | for `name + sep + date` with a digit-free name, the search finds the date right after the separator, and nothing before it |
| VersionNaming.TrailingRemove | server/routes.py:332 | deleting the date-shaped parts of `name + sep + date` leaves `name` |
| VersionNaming.TrailingDate | server/routes.py:327-333 | such a stem gives the date and the trimmed name, or the whole stem when trimming leaves nothing |
| VersionNaming.DocstringExample | server/routes.py:324-325 | `인사규정_20260101.hwp` gives `("20260101", "인사규정")` |
| VersionNaming.StemOfFile | server/routes.py:327 | the stem of a plain `name_date.ext` is `name_date` |
| Routes.UploadStoreDisplayName | server/routes.py:306-309 | the primary store name exactly for store type `"primary"`, the correction store for every other value |
| Routes.EffectiveGroup | server/routes.py:344 | a non-blank request group, stripped, overrides the group derived from the file name |
| Routes.MakerMarks | server/routes.py:354-361 | every inserted row has `is_latest = 1` and the request's store type |
| Routes.CommitStep | server/routes.py:347-361 | one UPDATE (demote the key's rows) and one INSERT; no ensures of its own. Its effect is stated by CommitStepLatest, CommitStepIds and CommitStepSingle |
| Routes.CommitStepLatest | server/routes.py:347-361 | after one UPDATE+INSERT, the new row is the only latest row of its (group, store type); other rows of that key lose only their mark; rows of other keys are untouched |
| Routes.CommitStepIds | server/routes.py:345 | a commit step with a fresh id keeps document ids unique |
| Routes.CommitStepSingle | server/routes.py:347-361 | a commit step keeps at most one latest row per (group, store type) |
| Routes.BatchCount | server/routes.py:338-340 | failed uploads insert nothing: one row per successful result |
| Routes.BatchMarks | server/routes.py:358 | every row of the batch is inserted as latest |
| Routes.BatchAt | server/routes.py:338-361 | the row for a successful `results[k]` comes right after those of the earlier successes |
| Routes.ApplyCount | server/routes.py:354-361 | the commit adds exactly one row per batch entry |
| Routes.ApplySingle | server/routes.py:338-361 | the whole commit loop keeps at most one latest row per (group, store type) |
| Routes.ApplyRows | server/routes.py:338-361 | existing rows lose their mark exactly when a row of their key is inserted; the k-th inserted row stays latest exactly when no later inserted row has its key, with no date comparison |
| Routes.ApplyRowAt | server/routes.py:338-361 | the k-th inserted row's final state in the committed table |
| Routes.ApplyBatchAt | server/routes.py:338-361 | the row of a successful `results[k]` in the committed table, and its final latest mark |
| Routes.LastWins | server/routes.py:338-361 | within one upload, the last successful file of a version group is the latest one |
| Routes.Commit | server/routes.py:336-361 | the whole commit as a value: an invalid store type rolls back when some upload succeeded; no ensures of its own. CommitUploads is proved equal to it, and CommitAllKeeps, ApplyRows and LastWins state its properties |
| Routes.CommitUploads | server/routes.py:336-366 | the commit loop keeps the table valid; `success_count` is the number of successful results; a CHECK failure on the store type rolls back, otherwise the table is the committed rows |
| Routes.CommitAllKeeps | server/routes.py:338-366 | the commit inserts `success_count` rows and keeps at most one latest row per key |
| Routes.FindDocument | server/routes.py:437 | `fetchone` by id: the first row with that id, or None when no row has it |
| Routes.SetLatestRows | server/routes.py:441-447 | the two UPDATEs of set-latest: the length is kept, only latest marks change, and rows outside the group other than the chosen one are untouched; SetLatestEffect and SetLatestSingle say which marks change |
| Routes.SetLatest | server/routes.py:437-449 | an unknown id gives not-found and the table is unchanged; otherwise the group is demoted across store types and the chosen row is promoted |
| Routes.SetLatestEffect | server/routes.py:441-447 | only latest marks change; rows outside the group are untouched; inside the group, over both store types, only the chosen row is latest |
| Routes.SetLatestSingle | server/routes.py:441-447 | set-latest keeps at most one latest row per key, and the chosen group has one latest row over both store types |
| Routes.GroupIndex | server/routes.py:400 | the `grp in groups` lookup: the entry of that group, or None when no entry has it |
| Routes.AppendRow | server/routes.py:397-404 | one more row adds its group to the keys if it is new, extends that group's members, and updates its latest row |
| Routes.KeysCover | server/routes.py:399-401 | a group is a key exactly when it has rows; a group without rows has no latest row |
| Routes.GroupKeysDistinct | server/routes.py:396-401 | the dict keys do not repeat |
| Routes.NewGroupStep | server/routes.py:400-404 | a row of an unseen group opens a new entry at the end |
| Routes.OldGroupStep | server/routes.py:402-404 | a row of a seen group extends that group's entry |
| Routes.ListDocuments | server/routes.py:395-410 | one entry per distinct group in first-appearance order, each holding its rows and its latest row; `total_documents` is the row count; `total_groups` is the group count |
| Routes.MembersOf | server/routes.py:402 | a group's documents are exactly the rows with that version group |
| Routes.ListingCount | server/routes.py:406-409 | the groups hold all rows between them |
| Routes.KeysAreGroups | server/routes.py:409 | the keys are exactly the version groups that occur |
| Routes.ListingPartition | server/routes.py:396-409 | every row is in exactly one group; keys are distinct; `total_groups` is the number of distinct version groups |
| Routes.PreviousUser | server/routes.py:222-226 | the closest user message before the index, or None when there is none |
| Routes.FindFeedbackTarget | server/routes.py:216-226 | an index at or past the end is refused; below `-len` the indexing raises; otherwise the answer is the indexed message and the question is the previous user message; a negative index finds no question |
| SyncStores.StoreTypeOf | scripts/sync_stores.py:45 | primary exactly when the display name (None read as "") contains "원본" |
| SyncStores.ConfiguredStoreTypes | scripts/sync_stores.py:45 | the configured primary store maps to primary and the correction store to correction |
| SyncStores.Infos | scripts/sync_stores.py:48-55 | one dict value per listed file, carrying its store's name, display name and type |
| SyncStores.LastWith | scripts/sync_stores.py:48-55 | the last listed file with a display name, or None when no file has it |
| SyncStores.LastWithConcat | scripts/sync_stores.py:44-55 | a later store's file with the same display name overrides an earlier one |
| SyncStores.KeyIndex | scripts/sync_stores.py:49 | the position of a key in the dict, or None when it is absent |
| SyncStores.Lookup | scripts/sync_stores.py:103 | `store_files[d]`: a value with that display name, or None when absent |
| SyncStores.LookupAt | scripts/sync_stores.py:103 | with distinct keys, a key's lookup finds its one entry |
| SyncStores.PutLookup | scripts/sync_stores.py:49-55 | assigning a key sets it, leaves the other keys' values alone, and keeps the keys distinct |
| SyncStores.PutAll | scripts/sync_stores.py:48-55 | after one store's assignments each key holds its last file from that store, or its old value |
| SyncStores.ListStoreFiles | scripts/sync_stores.py:39-59 | the dict has distinct keys, each holding the last listed file with that display name; stores whose listing raised are skipped |
| SyncStores.SyncRow | scripts/sync_stores.py:105-114 | the row `cmd_sync` inserts for a store file; no ensures of its own, its fields are stated by SyncRowFields |
| SyncStores.SyncRowFields | scripts/sync_stores.py:105-114 | an inserted row has version group = stem of the display name, date `''`, `is_latest = 1`, `uploaded_by = 'admin_001'`, and the file's store name and type |
| SyncStores.Inserted | scripts/sync_stores.py:102-115 | one row per missing file, in order, with the k-th generated id |
| SyncStores.OrphansFacts | scripts/sync_stores.py:119 | the orphan list is duplicate-free and its set is `db_file_set - store_file_set` |
| SyncStores.OrphansCount | scripts/sync_stores.py:119-127 | `removed` is `len(db_file_set - store_file_set)` |
| SyncStores.MissingFacts | scripts/sync_stores.py:100 | the missing entries are exactly the dict values whose pair is not in the table; they keep distinct keys |
| SyncStores.MissingSortedHas | scripts/sync_stores.py:102 | the sorted missing list has the same members |
| SyncStores.MissingCount | scripts/sync_stores.py:100-116 | `added` is `len(store_file_set - db_file_set)` |
| SyncStores.RemoveStep | scripts/sync_stores.py:121-126 | deleting one more pair after a set of pairs is deleting the union |
| SyncStores.RemoveAppend | scripts/sync_stores.py:121-125 | deletions leave appended rows of surviving pairs in place |
| SyncStores.RemoveKeeps | scripts/sync_stores.py:121-125 | after the DELETEs, exactly the rows whose pair was not removed are left, ids still unique |
| SyncStores.InsertRows | scripts/sync_stores.py:102-116 | the INSERT loop appends the inserted rows in order and counts them |
| SyncStores.DeleteOrphans | scripts/sync_stores.py:119-127 | the DELETE loop removes the rows of every orphan pair and counts the pairs |
| SyncStores.SyncResult | scripts/sync_stores.py:100-127 | the table after `cmd_sync` as a value; no ensures of its own. Sync is proved equal to it, and SyncPairs, SyncTwice and SyncAgain state its properties |
| SyncStores.Sync | scripts/sync_stores.py:83-130 | the table becomes the old surviving rows followed by the inserted rows; `added` and `removed` are the two set differences' sizes |
| SyncStores.InsertedPairs | scripts/sync_stores.py:100-114 | no inserted row has a pair the table already had, and each has a store pair |
| SyncStores.SyncIds | scripts/sync_stores.py:104 | with fresh generated ids, sync keeps document ids unique |
| SyncStores.KeptPairs | scripts/sync_stores.py:119-125 | the deletions take exactly the deleted pairs out of the table's pair set |
| SyncStores.InsertedSet | scripts/sync_stores.py:100-114 | the inserted rows carry exactly `store_file_set - db_file_set` |
| SyncStores.SyncPairs | scripts/sync_stores.py:95-129 | after sync the table's pair set equals the store pair set; rows of pairs in both are kept; no old row of a vanished pair survives |
| SyncStores.SyncTwice | scripts/sync_stores.py:100-127 | a second sync over the same listing adds 0, removes 0 and changes nothing |
| SyncStores.SyncAgain | scripts/sync_stores.py:100-127 | once the pair sets agree, sync leaves the table as it is |
| SyncStores.RemoveStoreFiles | scripts/sync_stores.py:159-171 | the per-store removal loop leaves the files whose removal failed, in order, and `deleted` counts the successes |
| SyncStores.UnremovedCount | scripts/sync_stores.py:159-171 | every file is either deleted or left |
| SyncStores.FailedLeft | scripts/sync_stores.py:169-170 | every file whose removal raised is left |
| SyncStores.LeftFailed | scripts/sync_stores.py:161-166 | only files whose removal raised are left |
| SyncStores.ResetDatabase | scripts/sync_stores.py:176-180 | reset reports the prior row count and leaves the table empty |
| CorrectionManager.CorrectionId | feedback/correction_manager.py:23 | the id is `corr_` followed by the first eight lower-case hex characters of the uuid |
| CorrectionManager.NewCorrectionPending | feedback/correction_manager.py:26-36 | a new row is pending by the schema default, unreviewed, and carries the submitted text and id |
| CorrectionManager.CreateCorrection | feedback/correction_manager.py:12-40 | exactly one row is appended and its well-formed id is returned |
| CorrectionManager.Get | feedback/correction_manager.py:65-72 | the row with that id, or None when no row has it |
| CorrectionManager.GetAt | feedback/correction_manager.py:69 | with unique ids, `get_correction` finds the row at that id's position |
| CorrectionManager.ReviewRows | feedback/correction_manager.py:80-85 | the guarded UPDATE applied row by row |
| CorrectionManager.Review | feedback/correction_manager.py:75-106 | approve or reject runs the guarded UPDATE and returns true exactly when some row was pending with that id |
| CorrectionManager.ReviewEffect | feedback/correction_manager.py:80-101 | only the pending row with that id changes: its status becomes the decision's, the reviewer and time are set, ids are unchanged, and non-pending rows are untouched |
| CorrectionManager.ChangedIffPending | feedback/correction_manager.py:87 | the update reports a change exactly when `get_correction` finds a pending row |
| CorrectionManager.ReviewOnce | feedback/correction_manager.py:83 | after one update nothing with that id is pending, so a second approve or reject changes nothing |
| CorrectionManager.ReviewGet | feedback/correction_manager.py:97-101 | looking the correction up after the update finds it decided |
| CorrectionManager.ReviewMoves | feedback/correction_manager.py:80-101 | a row either keeps its status or moves from pending to the decision's status; nothing returns to pending |
| CorrectionManager.UserName | feedback/correction_manager.py:50 | the username of the user with that id, or None when there is none |
| CorrectionManager.Join | feedback/correction_manager.py:49-50 | the inner join keeps exactly the corrections whose submitter is a user, each paired with that user's name |
| CorrectionManager.ListCorrections | feedback/correction_manager.py:43-60 | `list_corrections`: filter, join, `ORDER BY created_at DESC`; no ensures of its own, its contents and order are stated by ListCorrectionsSpec and ListAllCount |
| CorrectionManager.ListCorrectionsSpec | feedback/correction_manager.py:43-60 | the listing holds exactly the joined corrections of the requested status (all for no or empty status), newest `created_at` first |
| CorrectionManager.ListAllCount | feedback/correction_manager.py:55-59 | with every submitter a user, the unfiltered listing has one entry per correction |
| CorrectionManager.CountStatus | feedback/correction_manager.py:120-123 | a status count never exceeds the number of rows |
| CorrectionManager.CountZero | feedback/correction_manager.py:125-128 | a status count is 0 exactly when no row has that status |
| CorrectionManager.CountsCover | feedback/correction_manager.py:120-129 | the four status counts add up to the number of rows |
| CorrectionManager.GetStats | feedback/correction_manager.py:116-130 | `get_stats`: the four status counts and their sum; no ensures of its own, its values are stated by StatsTotal, CountZero, CountsCover and StatsAfterCreate |
| CorrectionManager.StatsTotal | feedback/correction_manager.py:116-130 | `total` is the number of corrections; an absent status counts 0 |
| CorrectionManager.StatsAfterCreate | feedback/correction_manager.py:121-130 | creating a correction adds one to `pending` and to `total`, and leaves `approved` alone |
| CorrectionManager.CorrectionFilePath | feedback/correction_manager.py:111 | the file is `<dir>/<id>.txt` |
| CorrectionManager.CorrectionFileName | feedback/correction_manager.py:111 | for a well-formed id the file name is `<id>.txt` with suffix `.txt` |
| CorrectionManager.ArtifactFiles.SaveCorrectionFile | feedback/correction_manager.py:109-113 | the text is written at that path, which is returned; other files are unchanged |
| AdminReview.ApprovalGuard | feedback/admin_review.py:23-28 | an unknown id gives the not-found error first, then a non-pending one gives the already-processed error naming its status; it passes exactly for a pending correction |
| AdminReview.RejectionGuard | feedback/admin_review.py:52-60 | the same two checks, then a blank or whitespace-only reason is refused; it passes exactly when all three hold |
| AdminReview.GuardErrorsDistinct | feedback/admin_review.py:23-28 | the already-processed error identifies the status, and the three errors differ |
| AdminReview.CorrectionFileUploadable | feedback/admin_review.py:31-35 | the written `.txt` file passes the upload checks, so the upload's outcome is that of the wait |
| AdminReview.ProcessApproval | feedback/admin_review.py:16-47 | a failed guard changes nothing; otherwise the file is written and the correction store found or created; a successful upload adds the document, under the file's name, to that store and approves the correction with the store's name; a failed one leaves the store list as the lookup left it and the correction pending |
| AdminReview.ApprovedFileListed | feedback/admin_review.py:31-36 | after a successful approval the correction store is still found in the same place and lists `<id>.txt` as its last document; a store created for it lists only that document |
| AdminReview.ProcessRejection | feedback/admin_review.py:50-68 | a failed guard changes nothing; otherwise the correction becomes rejected with the reason as given |
| AdminReview.DecisionRecorded | feedback/admin_review.py:41-62 | after a passed guard the correction has the decision's status and reviewer, plus the store name on approval and the reason on rejection |
| AdminReview.SecondReviewRefused | feedback/admin_review.py:27-28 | once decided, another approval or rejection fails with the already-processed error |
| FeedbackAnalyzer.Unwrap | feedback/feedback_analyzer.py:66-71 | `strip` of the reply followed by Cut; no ensures of its own, see UnwrapSpec, UnwrapJson, UnwrapPlain and UnwrapBlock |
| FeedbackAnalyzer.Cut | feedback/feedback_analyzer.py:68-71 | the `split` chain on the stripped reply; no ensures of its own, its result is stated by UnwrapSpec |
| FeedbackAnalyzer.UnwrapSpec | feedback/feedback_analyzer.py:66-71 | with ```` ```json ````, the text after it up to the next fence, stripped; else with a fence, the text between the first two fences, stripped; with none, the stripped reply; no fence survives |
| FeedbackAnalyzer.UnwrapJson | feedback/feedback_analyzer.py:68-69 | the ```` ```json ```` branch as text between markers |
| FeedbackAnalyzer.UnwrapPlain | feedback/feedback_analyzer.py:70-71 | the plain-fence branch as text between markers |
| FeedbackAnalyzer.UnwrapBlock | feedback/feedback_analyzer.py:66-69 | a reply that is exactly one ```` ```json ```` block yields the block's body |
| FeedbackAnalyzer.Fallback | feedback/feedback_analyzer.py:78-84 | the fallback answer is the answer cut to 200 characters; fact and correction are the feedback; confidence is 0.5 |
| FeedbackAnalyzer.AnalyzeFeedback | feedback/feedback_analyzer.py:60-84 | a failed model call or parse gives the fallback record, otherwise the parsed record |
| FeedbackAnalyzer.UnlinesSplit | feedback/feedback_analyzer.py:92-99 | splitting newline-terminated lines at newlines gives the lines back, then an empty piece |
| FeedbackAnalyzer.GenerateCorrectionText | feedback/feedback_analyzer.py:87-99 | `generate_correction_text` as the six lines joined with newlines; no ensures of its own, its layout is stated by CorrectionTextLayout and UnlinesSplit |
| FeedbackAnalyzer.CorrectionTextLayout | feedback/feedback_analyzer.py:92-99 | the text starts with `[교정 데이터]` and a newline; a missing confidence shows `N/A`; without newlines in the fields, the lines are exactly the six fixed lines in order, each newline-terminated |
| DocumentUploader.MaxPollsIsQuotient | core/document_uploader.py:24-25 | 60 polls of 5 seconds make the 300-second limit |
| DocumentUploader.Settle | core/document_uploader.py:57-61 | the first observation, within the poll limit, that is not "still running" |
| DocumentUploader.WaitOutcome | core/document_uploader.py:56-69 | a wait result names the file, and `success` is true exactly when `error` is None |
| DocumentUploader.UploadOutcome | core/document_uploader.py:39-69 | a missing file fails with "파일이 존재하지 않습니다" before the extension check; an unsupported lower-cased extension fails next; otherwise it is the wait's outcome; `success` iff no error |
| DocumentUploader.WaitOutcomeCases | core/document_uploader.py:57-69 | success exactly when "done" comes within 60 polls with no earlier exception; a timeout when every observation is "running"; an exception's message when one comes first |
| DocumentUploader.SettleUnique | core/document_uploader.py:57-61 | the first settled observation is the one the wait stops at |
| DocumentUploader.UploadFile | core/document_uploader.py:32-69 | `upload_file` returns that outcome after at most 60 polls |
| DocumentUploader.Wait | core/document_uploader.py:57-66 | the polling loop returns the wait outcome after at most 60 polls |
| DocumentUploader.SelectedOfSorted | core/document_uploader.py:83-84 | the chosen entries are sorted by path and are exactly the regular files with a supported extension |
| DocumentUploader.UploadStep | core/document_uploader.py:83-86 | one loop pass appends a result exactly for an uploadable entry |
| DocumentUploader.UploadDirectory | core/document_uploader.py:72-88 | a non-directory gives one failure entry; otherwise one `upload_file` result per chosen entry, in sorted path order |
| QueryEngine.BuildConversationContents | core/query_engine.py:17-32 | one entry per history message, in order, then the new message as a `user` entry |
| QueryEngine.GetAttrOr | core/query_engine.py:45-46 | `getattr(ctx, name, "")`: `""` only for a missing attribute; a None attribute is copied as None (JSON `null`), a string as itself |
| QueryEngine.TextEntry | core/query_engine.py:47-48 | the `text` key is absent exactly when the chunk has no `text` attribute; otherwise it holds the attribute's value, None included |
| QueryEngine.CitationOf | core/query_engine.py:42-48 | a chunk's dictionary has `title` and `uri` exactly when it has a retrieved context, with `getattr`'s default, and `text` as TextEntry gives it |
| QueryEngine.ChunkCitations | core/query_engine.py:41-50 | never more citations than chunks |
| QueryEngine.ParseCitations | core/query_engine.py:35-53 | missing candidates, metadata or chunk attribute give the empty list; a None list raises; otherwise the citations of the chunks |
| QueryEngine.ChunkCitationsSpec | core/query_engine.py:41-50 | the citations are exactly the non-empty dictionaries built from the chunks |
| QueryEngine.ContextChunksCited | core/query_engine.py:43-50 | a chunk with a retrieved context always yields a citation, so such chunks give one citation each |
| QueryEngine.AnswerText | core/query_engine.py:107 | an empty or missing text gives "답변을 생성할 수 없습니다."; the answer is never empty |
| QueryEngine.StoreNames | core/query_engine.py:80-85 | the primary store first; the correction store second exactly when it is requested; the store list becomes StoreListAfter of the old one |
| QueryEngine.StoreListAfter | core/query_engine.py:80-85 | the lookups only append missing configured stores (at most two), keep every existing store in place, and change nothing when the needed stores exist |
| QueryEngine.PrimaryStillFound | core/query_engine.py:80-85 | creating the correction store does not move the primary store |
| QueryEngine.Query | core/query_engine.py:76-114 | the conversation is the history in order followed by the message; the names are the primary store and, exactly when asked for, the correction store; the store list becomes StoreListAfter of the old one; the result is the response's answer and citations, or None when the unguarded model call raises or parsing raises |
| QueryEngine.TitleFromReply | core/query_engine.py:125-127 | a cleaned reply title has at most 30 characters |
| QueryEngine.FallbackTitle | core/query_engine.py:129 | the first 20 characters plus "..." for a longer message, else the message |
| QueryEngine.GenerateSessionTitle | core/query_engine.py:117-129 | the cleaned reply, or the fallback when the call fails |
| QueryEngine.TitleBounded | core/query_engine.py:125-129 | a title is never longer than 30 characters |
| QueryEngine.CleanReplyKept | core/query_engine.py:125-127 | a short reply without blanks or quotes at its ends is the title unchanged |
| StoreManager.FindStore | core/store_manager.py:24-26 | the first listed store with that display name, or None when none has it |
| StoreManager.WithStore | core/store_manager.py:24-30 | the store list after `get_or_create_store`: unchanged when the name exists, one store longer otherwise, the old stores kept as a prefix, and the name then found |
| StoreManager.FindAfterCreate | core/store_manager.py:24-30 | after creation the name is found at the new store, and other names where they were |
| StoreManager.StoreService.GetOrCreateStore | core/store_manager.py:16-30 | an existing store's name is returned and nothing is created; otherwise one store is created and its name returned |
| StoreManager.WithFile | core/document_uploader.py:50-54 | an upload into the store at `k` appends the document to that store's files and changes nothing else |
| StoreManager.FindAfterUpload | core/store_manager.py:24-26 | an upload changes no display name, so lookups by display name find the same store afterwards |
| StoreManager.StoreService.UploadDocument | core/document_uploader.py:50-54 | the service's side of the upload: the store list becomes WithFile of the old one |
| StoreManager.StoreService.ListStores | core/store_manager.py:33-42 | one entry per listed store, in listing order |
| StoreManager.GetOrCreateTwice | core/store_manager.py:24-30 | two calls with one display name return the same name and create at most one store |
| Schema.ParseRole | server/database.py:19 | `role` admits exactly `user` and `admin` |
| Schema.ParseStatus | server/database.py:44 | `status` admits exactly the four statuses |
| Schema.ParseStoreType | server/database.py:66 | `store_type` admits exactly `primary` and `correction` |
| Schema.NamesRoundTrip | server/database.py:44 | each domain value's name parses back to it |
| Schema.InsertIfFree | server/database.py:96-102 | after a seeding step the user is present (by id or username), with keys still unique |
| Schema.SeedAll | server/database.py:95-102 | the seeding loop as a value, one INSERT-or-skip per seed account; no ensures of its own, its properties are stated by SeedAllExtends, SeedAllCovers, SeedNothingNew and SeedIdempotent |
| Schema.SeedAllExtends | server/database.py:95-102 | seeding only appends and keeps id and username unique |
| Schema.SeedAllCovers | server/database.py:95-102 | after seeding every seed account is present |
| Schema.SeedConflictIgnoresHash | server/database.py:99 | whether a seed conflicts does not depend on its password hash |
| Schema.SeedNothingNew | server/database.py:95-102 | seeding when every seed is present changes nothing |
| Schema.SeedIdempotent | server/database.py:95-102 | running `init_db` a second time, even with new hashes, leaves the same users |
| Schema.UserTable.Seed | server/database.py:94-102 | the seeding loop skips each insert that would break a key |
| AdminView.PagesAt | frontend/js/admin.js:379-381 | page `start+i` is the i-th button, active exactly when it is the current page |
| AdminView.Pagination | frontend/js/admin.js:364-388 | the buttons of the pagination bar; no ensures of its own, its shape is stated by PagesAt, WindowAtMostSeven, OneActive, PrevNextShown, FirstShortcut and LastShortcut |
| AdminView.RenderStoreFilePagination | frontend/js/admin.js:364-388 | the loop builds exactly the pagination bar |
| AdminView.WindowAtMostSeven | frontend/js/admin.js:376-377 | the numbered window holds at most 7 pages |
| AdminView.OneActive | frontend/js/admin.js:379-380 | with the current page in range, exactly one button is active, the current page's |
| AdminView.PrevNextShown | frontend/js/admin.js:366-385 | nothing for `total <= 1`; a previous button iff `current > 1`; a next button iff `current < total` |
| AdminView.FirstShortcut | frontend/js/admin.js:376-378 | the "1 …" shortcut appears iff the window starts after page 1 |
| AdminView.LastShortcut | frontend/js/admin.js:377-382 | the "… total" shortcut appears iff the window ends before `total` |
| AdminView.DateLabel | frontend/js/admin.js:263-265 | the version-date label; no ensures of its own, see DateLabelRoundTrip |
| AdminView.DateLabelRoundTrip | frontend/js/admin.js:263-265 | an empty date shows `날짜 없음`; `YYYYMMDD` shows as ten characters with dashes at 4 and 7, giving the date back once they are dropped |
| AdminView.StatusLabel | frontend/js/admin.js:164-166 | the card's badge ternary; no ensures of its own, see CardForStatus |
| AdminView.CardForStatus | frontend/js/admin.js:164-192 | pending is `⏳ 대기`, approved `✅ 승인`, rejected and superseded `❌ 거절`, so two statuses share a badge exactly when both are rejected or superseded; actions only for pending; the reject reason shows exactly for a rejected card with a non-empty reason |
| Paths.Name | core/document_uploader.py:53 | `Path(p).name`: a suffix of the path containing no '/' |
| Paths.Suffix | core/document_uploader.py:42 | `Path(name).suffix`: a tail of the name, empty or a '.' followed by at least one character |
| Paths.Stem | server/routes.py:327 | `Path(name).stem`: a prefix of the name, non-empty for a non-empty name |
| Paths.StemAndSuffix | core/document_uploader.py:42 | a name is its stem followed by its suffix; the suffix is empty or a dot and more |
| Sorting.SortBySorted | core/document_uploader.py:83 | `sorted` orders by key (and preserves the multiset) |
| Sorting.SortByDescending | feedback/correction_manager.py:51 | `ORDER BY ... DESC` is a permutation with non-increasing keys |
| Common.StripBy | feedback/feedback_analyzer.py:66 | `strip` leaves the infix with no stripped character at either end, all the removed characters being stripped ones |
| Common.SplitSecond | feedback/feedback_analyzer.py:69 | `split(sep)[1]` runs from the first separator to the next one, or to the end |

## Left out

- HTTP routing, status-code mapping, JWT and bcrypt are left out. Results are datatypes: for example, "not found" is `Routes.DocumentNotFound`.
- Gemini calls are oracles: uploading, polling, generation and store listing or creation. The model does not cover retrieval, prompts, or how the model weighs corrections.
- The store calls that the source does not guard are assumed to return: `file_search_stores.list()` and `create` in `get_or_create_store`, and the store listing at the start of the script's `sync` and `reset`. When one of them raises, the source's operation aborts, and any store created before that point remains; the model has no outcome for this. The model call in `query` is not among them: `QueryEngine.Query` gives None when it raises.
- SQLite connections, PRAGMAs and commit plumbing are left out. A transaction either keeps its rows or rolls back to the rows it started from.
- Foreign keys are not checked. `PRAGMA foreign_keys=ON` makes SQLite refuse a `submitted_by`, `session_id`, `reviewed_by` or `uploaded_by` that names no user or session; `CorrectionManager.CreateCorrection`, `CorrectionManager.Review`, the commit loop and the sync loop accept any id.
- `CreateCorrection` and the commit and sync loops assume the generated ids are new to the table. A `uuid4` collision is not modelled.
- `VersionNaming.IsDigit`: `\d` is ASCII digits only. Python also matches other Unicode decimal digits.
- `Paths.AsciiLower` lower-cases ASCII letters only. No non-ASCII character lower-cases into a supported extension, so the verdict on an extension is the same.
- `Routes.ListDocuments` takes the query's rows as given. The `LIKE` search filter and the `ORDER BY version_group, version_date DESC` order are not modelled.
- `CorrectionManager.ListCorrectionsSpec`: rows with equal `created_at` come in reverse insertion order. SQLite leaves the order of ties unspecified.
- `SyncStores.DeleteOrphans` deletes the orphan pairs in order of first appearance, not in `sorted` order. Deletion of a set of pairs does not depend on the order.
- The missing-file INSERTs are in display-name order. With distinct display names, this is the order of the sorted pairs.
- `SyncStores.RemoveStoreFiles` models the removal loop for one store. When listing a store's files fails, that store is skipped, which is a no-op in the model.
- Printing and progress output are left out: reports, `cmd_list`, and the `deleted % 10` progress lines.
- Floating point is left out:
  - confidence values are `real` and are not validated;
  - `str(float)` is a parameter (`render`);
  - the confidence percentage and `formatFileSize` in the admin page are left out.
- `json.loads` is a parameter. The model does not check the parsed dictionary's keys, and the route's `analysis.get('confidence', 0.5)` default is not modelled.
- Writing a file cannot fail in the model (`ArtifactFiles`).
- `Paths.Name`, `Paths.Suffix` and the `file` of an upload result take the path as given. `pathlib` would first normalise it, dropping `./`, doubled and trailing slashes. Every caller in the source passes a path `pathlib` has already built, so no reachable input tells the two apart.
- The admin page's DOM, event handlers, `escapeHtml`, `new Date(...)` formatting and the "latest" badge are left out. The badge only reads `is_latest`.
- `time.sleep` is left out. The wait loop counts polls instead of seconds, and `MaxPolls * PollInterval == MaxPollSeconds`.
- `AdminReview.ProcessApproval` ignores the boolean that `approve_correction` returns, as the source does.
- `AdminReview.ProcessApproval`: an upload that fails or times out leaves the store's files as they were. The real service may still hold, or later index, a document whose upload timed out or raised.
- The uploads of `admin_upload` and `upload_directory` (`DocumentUploader.UploadFile`, `DocumentUploader.UploadDirectory`) produce results only. Their effect on a store's file list is not modelled; only the correction upload in `AdminReview.ProcessApproval` adds the document to the store.
- Store files are assumed to carry a display name. The service may report `display_name` as None; the script would then use None as a dictionary key, and its `sorted` or the NOT NULL INSERT would fail.
