# BiblioGABON: a verified model of its protocols

BiblioGABON is a library platform: staff deposit, review and publish documents, files are ingested
into pages, readers open sessions on them, institutions get usage reports, and billing hands out the
entitlements that open restricted documents. This project models the parts of it that carry
invariants and proves them with Dafny. `dafny verify dfyconfig.toml` checks everything.

- **Tiles** (`ImageApi`, `Pyramid`, `BlobStorage`, `PageTiles`, `Spellings`): the level-0 tile pyramid of a page
  (IIIF Image API 3.0, sections 4.7, 5.3 and 5.4), from the doubling scale factors to the objects in the store.
  Division and Python's round-half-to-even are exact (`Rounding`).
- **Publication** (`Catalog`, `Publication`, `Races`, `StaleRuns`, `RightsRaces`): documents, rights, reviews and the audit log
  as one state machine, and the service methods that carry its steps out; then the same machine with the
  unlocked checks and writes of the submission, edit, opening, assignment and decision views as steps of their
  own, and its failing runs from an empty catalogue; and the two rights views interleaved.
- **Reading** (`Access`, `Journal`, `SessionKeeper`, `Reflow`): who may read, in the one-document and the
  batch form; the access journal under interleaved requests; the reading page's session protocol;
  paragraph reflow.
- **Ingestion** (`TextNormal`, `TextLayout`, `PageIndex`, `Ingestion`, `Search`): text normalisation, loading of pages, an
  ingestion job delivered at least once, page workflows behind a barrier, the index row, scored search.
- **Usage** (`PageViews`, `Usage`, with `Sums`): deduplication of the access log, attribution, daily aggregates, reports.
- **Billing** (`Billing`): subscriptions, quotas and campaigns over one append-only ledger of entitlements.
- **Authors** (`Authors`, `AuthorRaces`): attaching, detaching and renumbering a document's authors, first each
  request by itself, then reading, inserting, deleting and committing interleaved.

Each stateful part has a step function on plain values, proofs about every run of such steps, and a
class whose methods follow the code branch by branch and are proved to make exactly those steps. A
block under a transaction and row locks is one step, except in `AuthorRaces`, where a transaction that locks
only the row it deletes is two.

A step function and the method beside it share vocabulary, so what each operation leaves behind is also stated
in terms of columns, pixels, texts and amounts alone: the object found under a spelled region, the text found on
a page, the rights of an approved declaration, the column behind a matched field, the organisation behind a
counted reading, the window of an entitlement, the session behind a delivered page.

## Results the code does not promise

- `w,` and `w,h` name the same tile exactly when the scale divides the width: of a region, at every height a
  region of that scale can have (`ImageApi.AgreeForPlannedHeights`), and of a page, for every tile of the scale
  on every page of that width (`Spellings.LevelsAgreeIffDivides`). A 513 by 700 page is a failing case
  (`ImageApi.OverviewSpelledTwoWays`); pages at the default width, up to 8192 pixels high, never fail
  (`Spellings.DefaultPagesDivide`).
- A page one pixel wide and taller than a tile is stored whole under its reduced sizes, so those
  announced sizes are not the pixel sizes (`PageTiles.AnnouncedSizesAreTrue` gives the exact condition).
- The staff views check a document or a review in one statement and write it in another. An opening, a
  submission, a metadata edit or an assignment that writes after its row has moved on breaks the invariants,
  the status diagram, the replay of the audit log or the finality of closed reviews;
  `Races.RacesAreGoodIffNoneStale` says that a run keeps all four at every step exactly when none of its writes
  is stale. Failing runs from an empty catalogue: `StaleRuns.OpeningFindsNoSubmission`,
  `StaleRuns.SubmissionRevives` (out of the archive), `StaleRuns.EditRepublishes` (a withdrawn document is public
  again, with no event, because an edit saves the whole row it loaded) and `StaleRuns.AssignmentRewrites` (a
  closed review gets another reviewer).
- A document becomes public by an approval or by an edit loaded while it was public, and by nothing else
  (`Races.MakesPublicIff`); without stale writes, by an approval (`Races.PublicByApproval`).
- The rights views load a row in one statement and save all of it in another. A ruling can restore a declaration
  that was replaced meanwhile (`RightsRaces.StaleRulingRestores`), and a declaration checked before the approval
  can take it away without a moderator (`RightsRaces.StaleDeclarationWithdraws`); a run is free of both exactly
  when no write comes too late (`RightsRaces.RightsKeptIffNoneLate`). Approved rights come from an accepting ruling
  in every interleaving (`RightsRaces.ApprovedByRuling`).
- Attaching an author reads the highest position in one statement and inserts in another. Positions stay 1 to n
  exactly when no insertion of an absent author goes past the next position and no renumbering goes through
  that has left out a row inserted since it listed the others (`AuthorRaces.ContiguousIffNoneStale`); an
  insertion is refused exactly when the author is there or the position is not past the last
  (`AuthorRaces.InsertionRefusedIff`), so a 409 need not mean that the author is attached. Failing runs:
  `AuthorRaces.LateInsertionLeavesGap`, `AuthorRaces.SecondInsertionRefused`,
  `AuthorRaces.InsertionDuringDetachmentLeavesGap`.
- Authors can publish their own work at the admin site, whose action has no authorship test, or by a queue
  decision checked before they were linked to the document: exactly so (`Races.SelfPublicationIff`).
- The deduplicating migration can take away a page view from a window that opens after the log begins
  (`PageViews.SecondDayLosesItsView`). `PageViews.ViewCountSameIff` says exactly when the number of views falls,
  and `PageViews.ViewsSameIffNoStraddle` exactly when the rows that are counted change.
- The renumbering of authors is refused by the unique constraint exactly when positions 0 and 1 are both taken
  (`Authors.DocumentAuthors.Renumber`); no run of uninterrupted requests gets there.
- Reflowing again with the page number removes one more line exactly when the text ends in that number
  twice (`Reflow.ReflowAgainWithNumber`; `Reflow.TwiceTheNumber` is such a text).
- An ingestion job that has not succeeded, failed or not, has pages exactly when a delivery for its present file
  stopped between its two commits, the worker dying there or the completion raising
  (`Ingestion.PagesWithoutSuccessIff`; `Ingestion.FailedJobMayHaveLoaded` is such a run).
- A reader session whose creation was never answered is never closed; all others are
  (`SessionKeeper.NothingOpenAfterEnd`).

## Model

| member | source | states |
|---|---|---|
| Rounding.RoundingIsUnique | backend/document_ingestion/iiif.py:121 | nearest integer with ties to even determines the value of round(), so nothing else can stand for it |
| ImageApi.CanonicalSizeIdempotent | backend/document_ingestion/iiif.py:100-121 | a size once made canonical is a valid size and is its own canonical form |
| ImageApi.CanonicalSpellings | backend/document_ingestion/iiif.py:100-121 | both spellings of a region's size are accepted; `w,h` stays, `w,` gets the deduced height, and the numbers read back are those written |
| ImageApi.FullPageSpellings | backend/document_ingestion/iiif.py:112-118 | on the full page `max` and `w,h` are canonical and `w,` is refused |
| ImageApi.RegionTextInjective | backend/document_ingestion/iiif.py:163 | two regions with one spelling are one region, so a key names one region |
| ImageApi.RegionIff | backend/document_ingestion/iiif.py:85 | a region is accepted iff it is `full` or four numbers separated by commas |
| ImageApi.SizeIff | backend/document_ingestion/iiif.py:86 | a size is accepted iff it is `max` or a number, a comma and perhaps another number |
| ImageApi.KeyIff | backend/document_ingestion/iiif.py:124-135 | a request has a key iff its region and size are accepted and its height is stated or can be deduced; the key is root, region, a size, 0 and default.webp |
| ImageApi.AgreeWhenScaleDivides | backend/document_ingestion/iiif.py:161-170 | when the scale divides the region width the two roundings, in the plan and in the canonical size, give the same height |
| ImageApi.AgreeForEveryHeight | backend/document_ingestion/iiif.py:100-121 | exactly then do they agree for requests of every region height |
| ImageApi.AgreeForPlannedHeights | backend/document_ingestion/iiif.py:155-170 | exactly then do they agree at every height up to a tile of the scale, for tiles of at least 3 pixels and scales that double |
| Spellings.LevelsAgreeIffDivides | backend/document_ingestion/iiif.py:152-178 | over all pages of a width that have a scale, all planned tiles of that scale agree iff the scale divides the page width |
| ImageApi.OverviewSpelledTwoWays | backend/document_ingestion/iiif.py:100-121 | the overview of a 513 by 700 page is planned at 256,350 while `256,` leads to 256,349 |
| ImageApi.DeducedHeightError | backend/document_ingestion/iiif.py:119-121 | the deduced height is off the planned one by at most region height / region width + 1 |
| ImageApi.RenderedNearAnnounced | backend/document_ingestion/iiif.py:246-250 | pixel sizes made by floor division are at most one below the announced rounded ones, and equal when the scale divides |
| Pyramid.ScaleFactors | backend/document_ingestion/iiif.py:138-149 | the doubling loop computes the specified factors |
| Pyramid.FactorsArePowers | backend/document_ingestion/iiif.py:138-149 | the factors are 1, 2, 4, … and only the last lets the page fit in one tile |
| Pyramid.PlanTiles | backend/document_ingestion/iiif.py:152-178 | the three nested loops list the specified tiles, in order |
| Pyramid.PlanLevel | backend/document_ingestion/iiif.py:157 | the loop over tops lists the rows of one scale |
| Pyramid.PlanRow | backend/document_ingestion/iiif.py:158-177 | the loop over lefts lists one row, with ragged last tile |
| Pyramid.LevelIsPartition | backend/document_ingestion/iiif.py:155-160 | at every scale each pixel of the page lies in exactly one region and no region leaves the page |
| Pyramid.CoverageCounts | backend/document_ingestion/iiif.py:155-160 | a coverage of one means that exactly one of the planned tiles holds the pixel |
| Pyramid.LastLevelIsWholePage | backend/document_ingestion/iiif.py:138-149 | the last factor plans the whole page as a single tile, so no zoom level is without tiles |
| Pyramid.LevelLength | backend/document_ingestion/iiif.py:155-160 | a level has as many tiles as the product of two ceilings |
| Pyramid.PyramidBound | backend/document_ingestion/iiif.py:152-178 | all levels together have at most twice the tiles of the first, plus the number of factors |
| Pyramid.DeclaredSizes | backend/document_ingestion/iiif.py:181-191 | one announced size per factor, rounded and never zero |
| BlobStorage.Storage.SaveStream | backend/document_ingestion/blob_storage.py:75-85 | on either backend the object ends up at the exact key and nothing else changes |
| BlobStorage.Storage.DeletePrefix | backend/document_ingestion/blob_storage.py:93-123 | the recursion removes every key that continues the prefix, nothing else, and returns how many objects that was |
| BlobStorage.Storage.DeleteFiles | backend/document_ingestion/blob_storage.py:118-120 | the loop over files removes exactly those directly below the prefix and counts them |
| PageTiles.WritePageTiles | backend/document_ingestion/iiif.py:231-277 | the writes, in order, are all planned tiles, full/max, every announced size and info.json; the thumbnail is the smallest size |
| PageTiles.WriteSizes | backend/document_ingestion/iiif.py:259-270 | every announced size is written |
| PageTiles.TilePage | backend/document_ingestion/tasks.py:286-290 | deleting the prefix, then writing the tiles; afterwards the tree shows the image, and the thumbnail is there |
| PageTiles.SameKeySameBlob | backend/document_ingestion/iiif.py:244-251 | two planned tiles share a key only if they render the same region at the same pixel size |
| PageTiles.KeysApart | backend/document_ingestion/iiif.py:124-135 | tiles, full/max, full-page sizes and info.json never share a key |
| PageTiles.PageWritesConsistent | backend/document_ingestion/iiif.py:231-277 | no write of a page overwrites another with different content |
| PageTiles.TilingReplacesTree | backend/document_ingestion/tasks.py:268-290 | whatever lay under the root before, exactly the announced objects are there afterwards, each with its content, and nothing outside changes |
| PageTiles.DeclaredResolves | backend/document_ingestion/iiif.py:194-213 | every tile and size that info.json announces resolves through the key factory to the object written for it |
| PageTiles.TilingShowsImage | backend/document_ingestion/iiif.py:231-277 | whatever was stored before: the object that the key factory finds for a planned tile's region and size is a crop of this image at that left, top, width and height, each pixel side the floor of side / scale but at least 1; the one for an announced size is the whole page at that size; info.json announces factors and sizes |
| PageTiles.WidthOnlyResolves | backend/document_ingestion/iiif.py:103-110 | a tile whose scale divides its width is found under the `w,` spelling too |
| Spellings.DividingPageResolves | backend/document_ingestion/iiif.py:103-110 | when every factor divides the page width, every tile is found under both spellings |
| Spellings.DefaultPagesDivide | backend/document_ingestion/iiif.py:38-39 | that holds of pages rendered at the default width, up to 8192 pixels high |
| PageTiles.AnnouncedSizesAreTrue | backend/document_ingestion/iiif.py:255-270 | announced sizes are the pixel sizes of the stored renderings iff the page is at least two pixels wide or no taller than a tile |
| Catalog.LackingLists | backend/catalog/services.py:34-79 | the list of missing requirements names exactly those that are not met |
| Catalog.MissingNames | backend/catalog/services.py:34-58 | each name in the list stands for its own column: title, domain, type, category, access model, and a main or co-author |
| Catalog.MissingRights | backend/catalog/services.py:58-95 | and, of the rights, their absence, holder, withdrawal rule, other access model, missing student consent, and not being in force |
| Catalog.NothingMissingIffPublishable | backend/catalog/services.py:82-95 | nothing is missing for publication iff metadata, writer, rights, consent and approval are all in order |
| Publication.StepKeeps | backend/operations/services.py:46-239 | every locked step keeps the invariants (at most one open review a document, open only while SUBMITTED, dates that agree with the status) and moves statuses along the diagram |
| Publication.StepIsLogged | backend/operations/services.py:25-239 | whatever state it starts from, a step changes a status only for the target of the one event it logs, and as that event says |
| Publication.RunCoherent | backend/operations/services.py:46-239 | the invariants hold in every state reached by locked steps |
| Publication.AuditReplaysToStatus | backend/operations/services.py:25-239 | over every such run, replaying a document's audit events from DRAFT gives its stored status |
| Publication.ArchivedIsAbsorbing | backend/operations/services.py:221-239 | no locked step leads out of ARCHIVED; Races.LeavesArchiveIff says which unlocked writes do |
| Publication.ClosedReviewIsFinal | backend/operations/services.py:95-146 | no locked step changes a closed review; Races.ClosedReviewsKeptIff says which unlocked write does |
| Publication.AuditAppendOnly | backend/operations/services.py:25-43 | the log only grows |
| Publication.OnlyApprovalPublishes | backend/api/staff/v1/reviews.py:212-261 | the one locked step into PUBLISHED approves an open review of a submitted document with nothing missing, is dated and logged under the name of its actor; in the review queue, by a user linked to none of its authors |
| Publication.DecidedReads | backend/operations/services.py:73-146 | a decision closes its review with actor, reason and date; an approval dates the document and clears its withdrawal, a rejection clears its publication, a cancellation leaves it |
| Publication.PublishedByApproval | backend/operations/services.py:95-146 | over runs of locked steps, a published document was published by such a step and has stayed so since |
| Publication.RightsAfterStep | backend/api/staff/v1/contributors.py:162-281 | a declaration leaves the rights as declared and undecided, a ruling leaves what they say and approves and dates them iff it accepts, and no other step touches them |
| Publication.ApprovedByRuling | backend/api/staff/v1/contributors.py:224-281 | over runs of uninterrupted requests, approved rights were approved by an accepting ruling with its decision and reference, on the date they bear, and neither declared nor ruled on since |
| Publication.PublishedAfterRuling | backend/operations/services.py:95-146 | over such runs a published document had its rights approved so before it was published |
| Publication.OwnApprovalPublishesIffAdmin | backend/operations/admin.py:84-97 | an author's own approval publishes iff it is given at the admin site |
| Publication.UnguardedOpenIffSubmitted | backend/operations/services.py:46-70 | the locked opening, which does not look at the status, keeps the invariants iff the document is SUBMITTED |
| Publication.UnguardedOpenRevivesArchive | backend/api/staff/v1/reviews.py:140-151 | without the SUBMITTED guard an archived document could be republished; with it the step changes nothing |
| Races.RacesAreGoodIffNoneStale | backend/api/staff/v1/documents.py:138-221 | over every interleaving of unlocked checks, their later writes and locked steps: invariants, audit replay, diagram and closed reviews hold at every step iff each write finds the status its check allowed |
| Races.StepIsGoodIff | backend/api/staff/v1/documents.py:183-218 | the same for one step: a blind submission is good iff the document is submitted or submittable, an opening iff it is SUBMITTED, an edit iff the status is the one it loaded, an assignment iff the review is open or already its user's |
| Races.LeavesArchiveIff | backend/api/staff/v1/documents.py:188-211 | a step takes a document out of the archive iff it writes a submission of it, or an edit that loaded it before |
| Races.ArchiveIsFinal | backend/operations/services.py:221-239 | through any run without stale writes the archive is final |
| Races.StaleSubmissionRevives | backend/api/staff/v1/documents.py:191-211 | a submission checked on a withdrawn document and written after its archiving brings it back |
| Races.StaleOpeningFindsNoSubmission | backend/api/staff/v1/reviews.py:140-155 | an opening checked on a submitted document and written after another review refused it is stale |
| Races.StaleEditRepublishes | backend/api/staff/v1/documents.py:138-150 | an edit loaded while a document was public and saved after its withdrawal makes it public again, unlogged |
| Races.StaleAssignmentRewrites | backend/api/staff/v1/reviews.py:192-196 | an assignment checked on an open review and written after its decision changes the closed review |
| Races.ClosedReviewsKeptIff | backend/api/staff/v1/reviews.py:192-196 | from any state, a step keeps every closed review iff it is no assignment written to one that has another reviewer |
| Races.ClosedReviewIsFinal | backend/operations/services.py:95-146 | through any run without such writes a closed review is final |
| Races.MakesPublicIff | backend/api/staff/v1/documents.py:138-150 | a step makes a document public iff it approves it, in place or after the queue's check, or saves an edit loaded while it was public |
| Races.ApprovesPublishable | backend/operations/services.py:113-119 | whatever came between check and decision, nothing is missing from a document when it is approved |
| Races.PublicByApproval | backend/operations/services.py:95-146 | in every run without stale writes a public document was approved and has been public since |
| Races.PendingWasChecked | backend/api/staff/v1/reviews.py:140-242 | over every run, a write under way passed its check on the state of that moment: a submitted document, a complete draft, the row as loaded, a work by others, an open review |
| Races.WritesKeepRights | backend/api/staff/v1/documents.py:138-150 | no unlocked write, stale or not, changes the rights or the authors of a document |
| StaleRuns.OpeningFindsNoSubmission | backend/api/staff/v1/reviews.py:140-155 | from an empty catalogue, the run that ends with an open review of a refused document |
| StaleRuns.SubmissionRevives | backend/api/staff/v1/documents.py:191-211 | from an empty catalogue, the run that takes a document out of the archive |
| StaleRuns.EditRepublishes | backend/api/staff/v1/documents.py:138-150 | from an empty catalogue, the run that makes a withdrawn document public, unlogged |
| StaleRuns.AssignmentRewrites | backend/api/staff/v1/reviews.py:192-196 | from an empty catalogue, the run that changes a closed review |
| StaleRuns.SampleIsComplete | backend/catalog/services.py:34-95 | there is a deposit on which these runs go through |
| RightsRaces.ApprovedByRuling | backend/api/staff/v1/contributors.py:224-281 | however declarations and rulings interleave, approved rights were approved by an accepting ruling with its reference, on the date they bear, and not written since |
| RightsRaces.RightsKeptIffNoneLate | backend/api/staff/v1/contributors.py:162-281 | over every interleaving, approvals fall to moderators and rulings alone and rulings keep what is declared, iff no declaration of another is written over an approval and no ruling over a row that says something else |
| RightsRaces.ApprovalKeptIff | backend/api/staff/v1/contributors.py:167-193 | the first half for one step |
| RightsRaces.DeclaredKeptIff | backend/api/staff/v1/contributors.py:236-262 | the second half for one step |
| RightsRaces.StaleRulingRestores | backend/api/staff/v1/contributors.py:236-262 | the run in which a declaration replaced meanwhile is approved, and the later one is gone |
| RightsRaces.StaleDeclarationWithdraws | backend/api/staff/v1/contributors.py:167-193 | the run in which an approval is undone without a moderator |
| Races.SelfPublicationIff | backend/api/staff/v1/reviews.py:222-259 | a decision publishes its actor's own work iff it approves at the admin site, or was checked before the actor was linked to an author |
| Publication.Workflow.CreateDocument | backend/api/staff/v1/documents.py:91-110 | creation makes a draft without rights and logs it |
| Publication.Workflow.DeclareRights | backend/api/staff/v1/contributors.py:162-207 | a declaration goes back to review with nothing decided, and is refused once approved, except to a moderator |
| Publication.Workflow.DecideRights | backend/api/staff/v1/contributors.py:224-281 | a decision on rights needs its decision, and its reference or reason; the rights are then approved and dated iff it accepts, and say what they said |
| Publication.Workflow.CheckSubmission | backend/api/staff/v1/documents.py:188-207 | the unlocked check passes iff the document is a draft, rejected or withdrawn and nothing is missing, and otherwise names what is missing |
| Publication.Workflow.WriteSubmission | backend/api/staff/v1/documents.py:209-218 | the later write sets the status and logs it, whatever the row says by then |
| Publication.Workflow.SubmitDocument | backend/api/staff/v1/documents.py:163-221 | check and write with nothing in between are the submission step |
| Publication.Workflow.SaveLoadedDocument | backend/api/staff/v1/documents.py:138-148 | an edit saves every column of the row it loaded, with the new metadata |
| Publication.Workflow.OpenPublicationReview | backend/operations/services.py:46-70 | returns an open review of the document; when there was one already nothing changes |
| Publication.Workflow.PostReview | backend/api/staff/v1/reviews.py:128-156 | guard and locked opening with nothing in between: a review is opened iff the document is SUBMITTED |
| Publication.Workflow.CheckAssignment | backend/api/staff/v1/reviews.py:189-193 | the unlocked check passes iff the review exists and is open |
| Publication.Workflow.SaveReviewer | backend/api/staff/v1/reviews.py:195-196 | the later write sets the reviewer, whatever the row says by then |
| Publication.Workflow.AssignReview | backend/api/staff/v1/reviews.py:186-197 | check and write with nothing in between: a review is taken iff it is open |
| Publication.Workflow.RecordPublicationDecision | backend/operations/services.py:95-146 | decides iff the review is open, a refusal has its reason and an approval lacks nothing; closes the review with actor, reason and date, publishes, rejects or leaves the document, logs the actor |
| Publication.Workflow.PostDecision | backend/api/staff/v1/reviews.py:212-261 | the queue's decision is refused to the document's own authors, and otherwise the service's |
| Publication.Workflow.ApplyPublicationDecision | backend/operations/services.py:73-92 | approval sets the publication date and clears the withdrawal, rejection clears the publication, cancellation touches nothing |
| Publication.Workflow.WithdrawDocument | backend/operations/services.py:207-218 | withdraws iff published, with reason and actor |
| Publication.Workflow.ArchiveDocument | backend/operations/services.py:221-239 | archives iff published or withdrawn, with reason and actor |
| Publication.Workflow.ClosePublication | backend/operations/services.py:149-204 | the shared closing: guards, new status, withdrawal date only on withdrawal, one event |
| Access.UserHasEntitlement | backend/accounts/services.py:30-48 | the filter and loop find an entitlement iff some row gives the user that right now, for everything or for that scope: held by the user, or by an active organisation of which the user is an active member, verified if it asks |
| Access.UserCanReadDocument | backend/document_reader/services.py:52-79 | the one-document rule: published, and free, or restricted with a reading right for everything, its domain or itself |
| Access.CanReadIff | backend/document_reader/services.py:37-79 | the layered rule comes to one question about the rows of entitlements, memberships and organisations |
| Access.GatherScopes | backend/document_reader/services.py:113-122 | the loop gathers exactly the scopes of the rows selected |
| Access.GatheredDecides | backend/document_reader/services.py:99-133 | deciding from the gathered scopes is deciding row by row |
| Access.ReadableDocumentIds | backend/document_reader/services.py:82-134 | the batch form returns exactly the ids of the documents so open to the user |
| Journal.JournalIsSound | backend/document_reader/services.py:335-391 | in every interleaving: at most one row per session and page, every request that has delivered content has its row, and manifest and thumbnails leave none |
| Journal.AuthorizedIff | backend/document_reader/services.py:212-222 | the manifest is served iff the session is live, on the current processed version of a document open to its user; all else iff the page is there too, processed and with the representation asked for |
| Journal.ServedWasAuthorized | backend/document_reader/services.py:394-418 | in every interleaving, whatever a request has been served, there was a moment when all that held for it, and what it delivers is that page |
| Journal.RequestArrived | backend/document_reader/services.py:394-418 | and it is served for the session, page number and instant with which it arrived |
| Journal.AuthorizedIsServed | backend/document_reader/services.py:364-391 | losing the insertion race fails no request: once authorised, three steps of its own lead to its answer whatever others do |
| Journal.EndingEnds | backend/document_reader/models.py:86-92 | ending takes effect at once, on that session alone |
| Journal.EndedStaysEnded | backend/document_reader/models.py:80-92 | refreshing last_seen_at, or anything else, never revives an ended session |
| Journal.NothingServedAfterEnd | backend/document_reader/services.py:394-418 | a request not yet authorised when its session ends gets nothing |
| Journal.ReaderLog.RecordPageAccess | backend/document_reader/services.py:335-391 | one row at most is added, the session refreshed iff it was never seen or 30 seconds ago, nothing written when both are up to date |
| Journal.ReaderLog.EndReaderSession | backend/document_reader/models.py:86-92 | ending marks the session, and no other, ended at that instant, its last one seen |
| Journal.UninterruptedIsRecord | backend/document_reader/services.py:335-391 | the three interleavable steps of a request, run together, are that call |
| SessionKeeper.NeverLeaks | frontend/src/routes/LecturePage.tsx:115-150 | in every interleaving of starts, ends and late or missing replies each session created is the held one, was closed exactly once, or was never heard of |
| SessionKeeper.NothingOpenAfterEnd | frontend/src/routes/LecturePage.tsx:115-122 | after the last end none is held, and a session, also one created later, is closed exactly once iff the page heard of it |
| SessionKeeper.LatestStartHolds | frontend/src/routes/LecturePage.tsx:124-143 | the page ends up with the session of its latest start, in whatever order replies arrive |
| SessionKeeper.LecturePage.EndSession | frontend/src/routes/LecturePage.tsx:115-122 | ending advances the generation and closes the held session |
| SessionKeeper.LecturePage.StartSession | frontend/src/routes/LecturePage.tsx:124-134 | starting advances the generation, closes the held session and sends a request |
| SessionKeeper.LecturePage.SessionCreated | frontend/src/routes/LecturePage.tsx:135-140 | a reply of an older generation closes its session, the current one's is held |
| SessionKeeper.LecturePage.CreationFailed | frontend/src/routes/LecturePage.tsx:141-143 | a failed request changes nothing but that it is no longer awaited |
| Reflow.ReflowExtractedText | frontend/src/components/reader/reflowExtractedText.ts:21-50 | the loop computes the specified paragraphs, page number removed |
| Reflow.ReflowIsGroups | frontend/src/components/reader/reflowExtractedText.ts:34-47 | the paragraphs are the groups of lines found by looking at neighbouring lines alone, each joined by spaces |
| Reflow.ReflowShowsGroups | frontend/src/components/reader/reflowExtractedText.ts:21-50 | for every text and page number: no line lost, repeated or moved, and no paragraph continues into the next |
| Reflow.ReflowBreaksWhere | frontend/src/components/reader/reflowExtractedText.ts:34-47 | two neighbouring lines are in one paragraph, a space between them, iff the first does not end in closing punctuation and the second does not begin with a capital, digit or bullet |
| Reflow.ReflowKeepsCharacters | frontend/src/components/reader/reflowExtractedText.ts:21-50 | whatever is not white space is shown, in order, up to the page number alone on the last line |
| Reflow.ReflowKeepsText | frontend/src/components/reader/reflowExtractedText.ts:21-50 | read across, the paragraphs are the trimmed non-empty lines |
| Reflow.ReflowIdempotent | frontend/src/components/reader/reflowExtractedText.ts:21-50 | reflowing the paragraphs again changes nothing |
| Reflow.ReflowAgainWithNumber | frontend/src/components/reader/reflowExtractedText.ts:27-29 | with the page number again the result changes iff the text ends in that number twice |
| Reflow.TwiceTheNumber | frontend/src/components/reader/reflowExtractedText.ts:27-29 | the number on two lines is shown once, and not at all after a second pass |
| TextNormal.NormalizeReachesNormalForm | backend/document_processing/text.py:34-50 | the result has no control characters but tab and newline, single spaces, no blank before a newline, at most two newlines in a row, and is trimmed |
| TextNormal.FixedIffNormalForm | backend/document_processing/text.py:34-50 | a text is left unchanged iff it is in that form |
| TextNormal.NormalizeIdempotent | backend/document_processing/text.py:34-50 | normalising twice is normalising once |
| TextNormal.NormalizeKeepsVisible | backend/document_processing/text.py:34-50 | every visible character stays, in order; the two control codes become their quotation marks |
| TextLayout.NormalizeKeepsLayout | backend/document_processing/text.py:34-50 | between two visible characters there is nothing, a blank, a line break or a paragraph break exactly as in the printable text, so words, lines and paragraphs stay apart |
| TextNormal.EmptyIffNothingVisible | backend/document_processing/text.py:34-50 | a text normalises to nothing iff it shows nothing |
| PageIndex.PlaceholderIsStable | backend/document_ingestion/pipeline.py:36 | a placeholder survives normalisation, is recognised as one and is never indexable |
| PageIndex.VersionPages.CreatePageRecords | backend/document_processing/services.py:12-39 | rows 1 to n exist afterwards, unless other rows conflict |
| PageIndex.VersionPages.AttachExtractedText | backend/document_processing/services.py:42-77 | the normalised text is stored, or the blank one refused and nothing changed |
| PageIndex.VersionPages.QueuePageIndexRecord | backend/document_processing/services.py:80-122 | a record for the same text and language is left alone, any other is queued afresh |
| PageIndex.VersionPages.FailPageIndexRecord | backend/document_processing/services.py:134-144 | the record, if any, is failed with its reason |
| PageIndex.VersionPages.ConsumePageIndexRecord | backend/document_processing/services.py:147-183 | the record is indexed iff there is an indexable text, and failed otherwise |
| PageIndex.VersionPages.OcrPage | backend/document_ingestion/tasks.py:178-231 | recognition runs only where needed; an empty result fails the record, a text is attached and queued |
| PageIndex.VersionPages.LoadPages | backend/document_ingestion/pipeline.py:129-149 | the transaction loads every page or changes nothing, and says which; loaded pages hold the extraction, page by page |
| PageIndex.LoadedHoldTexts | backend/document_ingestion/pipeline.py:136-149 | page i + 1 holds the i-th text, of the text layer and in the given language: in normal form, every visible character and gap kept, or the placeholder of that page when the text is empty |
| PageIndex.LoadRefusedIff | backend/document_processing/services.py:12-77 | a load is refused for having no page, for other rows, or for a text that is not empty and shows nothing |
| PageIndex.RecognitionHolds | backend/document_ingestion/tasks.py:95-107 | recognition replaces exactly the texts that are missing, placeholders or shorter than 20, by all that is visible in what was recognised; texts that show nothing and missing files leave the page its text |
| PageIndex.ConsumptionIndexesIff | backend/document_processing/services.py:125-183 | a record is indexed iff its page has a text that is neither blank nor begins with `[Page `, and failed with its cause otherwise; text, digest and language stay |
| PageIndex.CredibleTextStays | backend/document_ingestion/tasks.py:95-107 | a credible text is never replaced, over every run of page steps |
| PageIndex.ExtractionLoadsIff | backend/document_ingestion/pipeline.py:136-144 | an extraction gives texts to load iff it has a page and each text is empty, for a placeholder, or shows something |
| PageIndex.LoadIdempotent | backend/document_ingestion/pipeline.py:129-149 | loading the same extraction again changes nothing |
| PageIndex.LoadedStays | backend/document_processing/services.py:97-122 | pages that hold these texts already keep their records, indexed or failed ones included |
| PageIndex.NewTextIsQueued | backend/document_processing/services.py:105-122 | only recognition changes a text, and then the record is queued again: INDEXED never outlives its text |
| PageIndex.BarrierSettlesAll | backend/document_ingestion/tasks.py:336-364 | in every interleaving in which each page's last step is its indexing, each record is INDEXED for the current text iff that text is indexable, and FAILED otherwise |
| PageIndex.IndexReadsIndexed | backend/search_discovery/services.py:60-81 | the index then reads exactly the texts of the INDEXED pages, in page order, none a placeholder |
| Ingestion.RunSound | backend/document_ingestion/tasks.py:57-89 | over every sequence of deliveries, failures, retries, crashes, page steps and replacements the content is nothing or all of the expected pages with the work done since |
| Ingestion.RetriesAreBounded | backend/document_ingestion/tasks.py:65-87 | neither retry_count nor any message passes MAX_RETRIES |
| Ingestion.SuccessIsFinal | backend/document_ingestion/tasks.py:61-63 | once SUCCEEDED no delivery changes anything |
| Ingestion.SuccessLoadsAll | backend/document_ingestion/pipeline.py:106-175 | on success pages are numbered 1 to n, each with one text and one record for it, as after a single uninterrupted run; SuccessHoldsTexts says which text |
| Ingestion.SuccessHoldsTexts | backend/document_ingestion/pipeline.py:136-149 | over every run, after success each page holds the text of its own page of the file, or the placeholder of an empty one |
| Ingestion.DeliverySucceedsIff | backend/document_ingestion/tasks.py:57-89 | a delivery completes the job iff its message was sent, nothing fails, and the file is there and loads |
| Ingestion.RetryIsSentIff | backend/document_ingestion/tasks.py:72-87 | a delivery sends the next attempt's message, and no other, iff it fails in the background before the last attempt and the worker lives to send it |
| Ingestion.UnsettledIsOnItsWay | backend/document_ingestion/tasks.py:57-89 | over every run in which no worker dies, a waiting job has its message sent and a retrying one that of its next attempt |
| Ingestion.IngestionSettles | backend/document_ingestion/tasks.py:336-364 | deliveries, crashes and page steps in any order end in settled records |
| Ingestion.PagesWithoutSuccessIff | backend/document_ingestion/pipeline.py:129-171 | over every run, a job that has not succeeded has pages iff, since its file last changed, a delivery stopped between the commit of the pages and the completion of the job, dying there or failing to write it |
| Ingestion.FailedJobMayHaveLoaded | backend/document_ingestion/tasks.py:70-87 | a crash between the two commits followed by an outage leaves a FAILED job with all pages loaded |
| Ingestion.IngestTask.ProcessIngestJob | backend/document_ingestion/pipeline.py:106-175 | loads and completes the job iff the file is there, can be opened and is usable; otherwise fails it, with the content left alone unless only the completion could not be written |
| Ingestion.IngestTask.IngestSourceDocument | backend/document_ingestion/tasks.py:57-89 | one delivery without crash, with storage up or down, is the modelled step |
| Ingestion.IngestTask.ClearVersionContent | backend/document_ingestion/pipeline.py:190-212 | clearing removes all pages and the old job |
| Ingestion.JobQueue.EnqueueProcessingJob | backend/document_ingestion/services.py:10-37 | one job per key: the same terms are accepted again, others refused, and the first terms stand |
| Ingestion.DocumentStore.RebuildDocumentSearchIndex | backend/search_discovery/services.py:84-115 | the index row is deleted or rebuilt from the current processed version |
| Ingestion.DocumentStore.MarkVersionCurrentAndIndex | backend/document_ingestion/services.py:97-111 | the version becomes the only current one and the index is rebuilt |
| Ingestion.FinalisedIndexAgrees | backend/document_ingestion/services.py:97-111 | afterwards page_text is the page-ordered join of exactly the INDEXED texts, indexed_page_count their number, hashes match, no placeholder; title, abstract, authors, language and year are the document's; there is a row iff the document is published and not private |
| Ingestion.IngestedDocumentIsIndexed | backend/document_ingestion/tasks.py:336-364 | from the first message to the index, whatever was delivered twice, failed or died on the way: a published, not private document has a row that agrees with its pages |
| Ingestion.ExtractedTextIsIndexed | backend/document_ingestion/tasks.py:336-364 | and that row holds, as one of the joined texts, all that is visible on each page of the file with a credible text layer, whatever recognition did |
| Search.InJoinIffInPart | backend/search_discovery/services.py:37-45 | a newline-free text is in the joined parts iff it is in one of them |
| Search.SelectedIffMatched | backend/search_discovery/services.py:257-269 | for a non-blank query the nine-column filter selects a row iff one of the six scored fields answers, iff the score is positive |
| Search.ScoreIndex | backend/search_discovery/services.py:159-191 | the six tests give the fields whose columns contain the query, in order, and the sum of their weights |
| Search.MatchedNamesColumns | backend/search_discovery/services.py:167-185 | each field of the answer stands for its own column: title, authors, name or slug of domain and type, abstract, page text |
| Search.ScoreReads | backend/search_discovery/services.py:159-191 | the score is 1000, 100, 50, 40, 20 and 5 for the columns that contain the query |
| Search.QueryReads | backend/search_discovery/services.py:129-130 | the query is the words of what was typed, in order and lower case, one space between them |
| Search.RowReads | backend/search_discovery/services.py:84-115 | each column of an index row comes from its own part of the document, and the metadata text joins the trimmed parts |
| Search.ScoreTellsFields | backend/search_discovery/services.py:144-191 | two scores are equal iff the same fields answered |
| Search.SearchDocuments | backend/search_discovery/services.py:230-280 | the loop, sort and limit return the first of the ranked hits; HitsAreAnswers and ResultsInOrder say which those are |
| Search.HitsAreAnswers | backend/search_discovery/services.py:230-280 | there is a hit for exactly the candidates that are published, not private and meet each criterion, and of which, unless the query is blank, some column contains it; it bears their document, title and matching columns |
| Search.ResultsInOrder | backend/search_discovery/services.py:137-141 | results are the first max(1, min(limit, 50)) hits by score, lower-case title and document; a title that contains the query never follows one that does not |
| Sorting.TextLeIsFirstDifference | backend/search_discovery/services.py:277-280 | titles compare by their first difference, or by length when one continues the other |
| Search.SearchFindsAll | backend/search_discovery/services.py:230-280 | exactly the candidates that pass the filters are hits, each once; every hit of a non-blank query has a positive score and names its fields |
| Search.TitlesFirst | backend/search_discovery/services.py:277-280 | title matches precede all others, and no hit cut off by the limit ranks before one returned |
| Search.TextMatchLiesInOnePage | backend/search_discovery/services.py:71-81 | a text match lies within the text of one page |
| PageViews.DistinctPageViews | backend/analytics/services.py:73-103 | the loop keeps the first row of each (session, page number) of the window |
| PageViews.ViewsAreDistinctPairs | backend/analytics/services.py:73-103 | each session and page number read in the window counts once |
| PageViews.ViewsAreFirstReads | backend/analytics/services.py:73-103 | a row counts iff it is in the window and the first there of its session and page number |
| PageViews.DeduplicatePageAccessLogs | backend/document_reader/migrations/0005_pageaccesslog_page_access_log_one_row_per_session_page.py:19-36 | the loop and deletion leave the first row of each (session, page) |
| PageViews.MigrationEstablishesConstraint | backend/document_reader/migrations/0005_pageaccesslog_page_access_log_one_row_per_session_page.py:19-36 | one row per (session, page), every null-page row kept, no key lost, and running it again changes nothing |
| PageViews.KeptIff | backend/document_reader/migrations/0005_pageaccesslog_page_access_log_one_row_per_session_page.py:19-36 | a row is kept iff its page is deleted or no earlier row has its session and page |
| PageViews.ViewsSameFromTheStart | backend/document_reader/migrations/0005_pageaccesslog_page_access_log_one_row_per_session_page.py:19-36 | the views of every window that opens no later than the first entry are unchanged |
| PageViews.ViewsSameIffNoStraddle | backend/document_reader/migrations/0005_pageaccesslog_page_access_log_one_row_per_session_page.py:19-36 | the rows counted in any window are unchanged iff no row counted there was preceded, before it opened, by a row of the same session and page |
| PageViews.ViewCountSameIff | backend/analytics/services.py:73-103 | the number of views of a window never rises, and stays iff each pair read there has a row there of a deleted page or of a page its session had not read before the window |
| PageViews.PairKeptIff | backend/analytics/services.py:73-103 | the same for one pair: it is still counted iff it has such a row |
| PageViews.SecondDayLosesItsView | backend/document_reader/migrations/0005_pageaccesslog_page_access_log_one_row_per_session_page.py:19-36 | a page read on two days in one session loses the second day's view |
| Usage.MembershipWindows | backend/analytics/services.py:24-37 | the grouped windows hold each user's active memberships |
| Usage.AttributionIsMembership | backend/analytics/services.py:40-52 | an activity is attributed to an organisation iff it is the only one its reader belongs to at that instant |
| Usage.CountActivity | backend/analytics/services.py:65-70 | the loop counts the attributed rows, each under its reader's organisation and its own document, domain and access model |
| Usage.CountingConserves | backend/analytics/services.py:65-70 | over any set of dimensions the counters gain exactly the rows attributed there, and the other column nothing |
| Usage.ActivityCounters | backend/analytics/services.py:106-119 | the day's counters, with windows loaded for the users concerned, are those of direct attribution |
| Usage.UsageStore.PersistDailyAggregates | backend/analytics/services.py:122-164 | the day's rows become exactly the computed ones, or the whole day is rolled back iff a dimension has an undeclared access model or not its document's own domain; no other day is touched |
| Usage.UsageStore.BuildDailyUsageAggregate | backend/analytics/services.py:185-194 | the same for a day computed from its activity |
| Usage.UsageStore.BuildPeriod | backend/analytics/services.py:428-442 | a period that ends before it starts is refused; otherwise the day loop rebuilds each day up to the first that fails, and nothing outside |
| Usage.RebuildIdempotent | backend/analytics/services.py:122-164 | rebuilding a day again gives the same table |
| Usage.DayRowsAreUses | backend/analytics/services.py:65-119 | a rebuilt day has a row for an organisation, document, domain and access model iff some session or page first read that day is of that document, domain and access model, by a reader whose only organisation at that instant it is |
| Usage.SavableIff | backend/analytics/services.py:122-164 | a day can be saved iff every such use has a declared access model and its document's own domain |
| Usage.CreditIff | backend/analytics/services.py:40-70 | an activity is credited to its reader's only organisation and to its own document, domain and access model |
| Usage.DayContributes | backend/analytics/services.py:73-119 | a day adds to an organisation's report the pairs of session and page number first read that day, and the sessions started that day, by readers of that organisation alone |
| Usage.BreakdownsAddUp | backend/analytics/services.py:209-301 | report totals are the sums of the by-day, by-domain, by-document and by-access-model groups |
| Usage.DayGroupsAre | backend/analytics/services.py:209-301 | the groups by day and by access model add up the rows of that day and that access model |
| Usage.DomainGroupsAre | backend/analytics/services.py:230-248 | those by domain the rows of the domains of that name |
| Usage.DocumentGroupsAre | backend/analytics/services.py:251-280 | those by document the rows of that document with that domain name and access model |
| Usage.ReportCountsReads | backend/analytics/services.py:394-415 | the page views and sessions that an organisation's report adds up are, day by day, the pairs of session and page number first read and the sessions started by readers of that organisation alone |
| Billing.NotesNameTheirOwner | backend/billing/services.py:108-113 | no two notes that billing writes are spelled alike |
| Billing.StepKeepsContracts | backend/billing/services.py:134-285 | every step keeps contracts and the entitlements given for them in one-to-one correspondence, open iff the contract is active |
| Billing.StepKeepsCampaigns | backend/billing/services.py:292-371 | every step keeps campaigns within their seats, one open seat a user, none once over |
| Billing.LedgerAlwaysSound | backend/billing/services.py:116-371 | both hold in every reachable state |
| Billing.ActivationGivesTheOne | backend/billing/services.py:134-181 | activation succeeds iff no guard refuses; it returns the one open entitlement given for the contract, for its holder, with its offer's terms and exactly its window, and repeated returns the same and changes nothing |
| Billing.ActivationRefusedIff | backend/billing/services.py:134-245 | each refusal has its own cause: unknown, closed, offer inactive, or, for a subscription, a window that is not the offer's duration |
| Billing.EntitlementIsStable | backend/billing/services.py:134-245 | an activated contract keeps its entitlement over every run; once closed it stays closed and cannot be activated |
| Billing.ClosingIsFinal | backend/billing/services.py:116-120 | closing revokes for good, and the first revocation date is kept |
| Billing.RunExtends | backend/billing/services.py:116-371 | rows of the ledger are never removed nor edited, except to be revoked once |
| Billing.CampaignSeats | backend/billing/services.py:292-371 | over every run open seats never exceed the funded ones, are at most one a user, and zero once the campaign is over |
| Billing.EnrolmentIffRoom | backend/billing/services.py:292-339 | enrolment succeeds iff the campaign runs now and the user has a seat or there is room; the seat is the user's, under the campaign's terms and for exactly its window, and repeated returns the same |
| Billing.EnrolmentRefusedIff | backend/billing/services.py:292-339 | each refusal has its own cause: unknown, not active, outside the window, or full |
| Billing.CampaignIsFixed | backend/billing/services.py:292-371 | over every run a campaign keeps its seats, terms and window, and once over stays over |
| Billing.ClosingRevokes | backend/billing/services.py:184-371 | closing a contract or a campaign sets its status, revokes what it gave and is still open, and changes nothing else |
| Billing.BillingService.GetOrCreate | backend/billing/services.py:154-176 | an equal row, revoked or not, is returned; otherwise one is added |
| Billing.BillingService.RevokeEntitlement | backend/billing/services.py:116-120 | revokes once |
| Billing.BillingService.ActivateSubscription | backend/billing/services.py:134-181 | guards in order, then the entitlement |
| Billing.BillingService.ActivateOrganizationQuota | backend/billing/services.py:214-245 | the same without the duration check |
| Billing.BillingService.CloseContract | backend/billing/services.py:184-285 | status set, entitlement revoked |
| Billing.BillingService.EnrollUser | backend/billing/services.py:292-339 | guards in order, the existing seat, the capacity, a new seat |
| Billing.BillingService.CloseSponsoredCampaign | backend/billing/services.py:342-355 | status set, open seats revoked at once |
| Authors.DocumentAuthors.Attach | backend/api/staff/v1/contributors.py:91-117 | reading and inserting with nothing in between: refused iff the author is already there; otherwise added after the highest position |
| Authors.DocumentAuthors.Renumber | backend/api/staff/v1/contributors.py:138-145 | positions stay distinct and in order after every single write; a write is refused iff positions 0 and 1 were both taken |
| Authors.DocumentAuthors.Detach | backend/api/staff/v1/contributors.py:126-147 | the row goes, if there is one, and the others are renumbered; a refused write rolls everything back |
| Authors.DetachNeverBlocked | backend/api/staff/v1/contributors.py:136-145 | with positions 1 to n no detachment is refused |
| Authors.AttachAppends | backend/api/staff/v1/contributors.py:100-107 | an uninterrupted attachment appends to the shown list, and positions stay 1 to n |
| Authors.DetachRemoves | backend/api/staff/v1/contributors.py:134-145 | detaching removes the author, keeps the others in order, and positions stay 1 to n |
| Authors.PositionsStayContiguous | backend/api/staff/v1/contributors.py:91-147 | over every run of uninterrupted requests positions are exactly 1 to n and the rows show what a plain list of distinct authors would hold |
| AuthorRaces.ContiguousIffNoneStale | backend/api/staff/v1/contributors.py:100-147 | over every interleaving of readings, insertions, deletions and commits from a new document: positions are 1 to n after each step iff no absent author is inserted past the next position and no renumbering commits that left out a row inserted since its listing |
| AuthorRaces.StepIsValidIff | backend/api/staff/v1/contributors.py:100-147 | the same for one step |
| AuthorRaces.InsertionKeepsIff | backend/api/staff/v1/contributors.py:107-109 | an insertion keeps positions 1 to n iff the author is there or the position read is at most the next one |
| AuthorRaces.InsertionRefusedIff | backend/api/staff/v1/contributors.py:107-115 | it is refused iff the author is there or the position is at most the number of rows |
| AuthorRaces.CommitIsValidIff | backend/api/staff/v1/contributors.py:134-145 | a detachment's commit keeps positions 1 to n iff it waits, is rolled back, or no row was inserted since it listed the others |
| AuthorRaces.CommitRollsBack | backend/api/staff/v1/contributors.py:143-145 | a renumbering one of whose rows to be moved was deleted meanwhile fails as a whole |
| AuthorRaces.AttachmentAlone | backend/api/staff/v1/contributors.py:100-109 | reading and inserting back to back append the author |
| AuthorRaces.DetachmentAlone | backend/api/staff/v1/contributors.py:134-145 | deleting and committing back to back remove the author; the others keep their order and get their ranks |
| AuthorRaces.LateInsertionLeavesGap | backend/api/staff/v1/contributors.py:100-109 | an insertion at a position read before a detachment leaves a gap |
| AuthorRaces.GapOnNewDocument | backend/api/staff/v1/contributors.py:100-109 | such a run on a new document with one author |
| AuthorRaces.SecondInsertionRefused | backend/api/staff/v1/contributors.py:107-115 | of two attachments that read the same position the second is refused although its author is not there |
| AuthorRaces.InsertionDuringDetachmentLeavesGap | backend/api/staff/v1/contributors.py:134-145 | an attachment between a detachment's listing and its commit is left out of the renumbering |

## Left out

- Floating point: quotients are exact rationals, so page sizes at which a double rounds differently from the exact quotient are not covered.
- Encoders, PDF parsing, OCR, rendering and the storage backends: an object is known by what it shows, a store is a map from keys to objects, and what they return is a parameter.
- SHA-256: distinct texts are taken to have distinct digests.
- Keys are sequences of path segments; regular-expression details such as Unicode digits or a trailing newline are not modelled.
- Unicode: lower-casing is a map on characters that keeps newlines, collation is by code point, and the database's case-insensitive match is taken to agree with it.
- HTTP views, serializers, role predicates and permissions beyond the guards cited.
- Timestamps that no property reads (created_at, updated_at, indexed_at, started_at) and free-text messages.
- The reads of one authorisation check are a single step of a request; the session's last_seen_at is not monotone under interleaving and no claim is made about it.
- The dates an edit writes back are those it loaded, which may be older than the present ones even when the status is the same; only statuses are claimed.
- Locks held by the single UPDATEs inside a detachment, and deadlocks between two of them: a detachment lists in one step and commits in another.
- Two rebuilds of one day, two finalisations of one document, and two steps on one page or two tilings of one page at the same instant: each is one step after the other.
- In `Publication` and `Races` each rights view is one step; `RightsRaces` interleaves the two of them on one document's row, without the audit log.
- The admin site's document form, which lets staff set a publication status directly, without step or event; and its bulk decisions, modelled one by one.
- Publishing and withdrawing do not rebuild the index in the code cited, so index agreement is stated at finalisation only.
- A crash inside recognition, between attaching a text and queueing it: `ocr_page` is one step.
- Overlapping deliveries of one ingestion message: deliveries may repeat in any order, one after the other.
- Deletion of users, organisations, offers or authors, which the database cascades or refuses.
- Edits of sold terms: offers, windows and seat counts are fixed once sold, only an offer's activity may change.
- The upper bounds of database integer columns, such as 32767 for an author's position.
- Payments, tickets, favourites, reading progress, text-layer policy, labels, the access, commercial and support figures of a report: single-branch facts.
- Distinct-document counts of a report, which grouping does not conserve.
- Validation of documents, pages and entitlements beyond the errors modelled, such as publication years or unique slugs.
- React rendering, hooks, pagination and reading modes around the session protocol.
- The version that a session reads, the manifest's content and tile lookup beyond the key factory.
