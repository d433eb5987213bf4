/** The publication workflow: documents, reviews and the audit log, one locked transaction at a time. */
module Publication {
  import opened Prelude
  import opened Strings
  import opened Catalog

  /** Refused is the source's `rejected`, a name the document status already uses. */
  datatype ReviewStatus = Open | Approved | Refused | Cancelled

  datatype Review = Review(
    document: nat, status: ReviewStatus, openedBy: nat, reviewer: Option<nat>,
    decidedBy: Option<nat>, reason: string, decidedAt: Option<int>)

  datatype EventKind =
    | DocumentCreated | DocumentSubmitted | ReviewOpened | ReviewApproved | ReviewRejected | ReviewCancelled
    | DocumentWithdrawn | DocumentArchived | RightsDeclared | RightsAccepted | RightsTurnedDown

  datatype Event = Event(kind: EventKind, target: nat, actor: nat)

  datatype State = State(documents: map<nat, Document>, reviews: map<nat, Review>, audit: seq<Event>)

  const EMPTY := State(map[], map[], [])

  /** Where a decision is taken: the review queue refuses a document's own authors, the admin site does not look. */
  datatype Desk = ReviewQueue | AdminSite

  datatype Action =
    | Create(id: nat, file: File, actor: nat)
    | Edit(id: nat, file: File)
    | Declare(id: nat, rights: Rights, actor: nat, moderator: bool)
    | Rule(id: nat, accept: bool, reviewerDecision: string, auditReference: string, rejection: string, actor: nat,
           today: int)
    | Submit(id: nat, actor: nat)
    | OpenReview(id: nat, review: nat, actor: nat)
    | Assign(review: nat, actor: nat)
    | Decide(review: nat, decision: ReviewStatus, reason: string, actor: nat, desk: Desk, at: int, today: int)
    | Withdraw(id: nat, reason: string, closer: Option<nat>, at: int)
    | Archive(id: nat, reason: string, closer: Option<nat>, at: int)

  const SUBMITTABLE: set<PublicationStatus> := {Draft, Rejected, Withdrawn}

  // ----- the steps -----

  function Log(s: State, kind: EventKind, target: nat, actor: nat): State {
    s.(audit := s.audit + [Event(kind, target, actor)])
  }

  function Put(s: State, id: nat, d: Document): State {
    s.(documents := s.documents[id := d])
  }

  /** Metadata edits and rights leave the workflow's own columns alone. */
  function PutFile(s: State, id: nat, file: File): State
    requires id in s.documents
  {
    Put(s, id, s.documents[id].(file := file))
  }

  predicate Accepted(file: File) {
    file.rights.Some? && file.rights.value.authorization == RightsApproved
  }

  /** A declaration always goes back to awaiting review. */
  function Declared(r: Rights): Rights {
    r.(authorization := PendingReview, authorizationDate := None, reviewerDecision := "", rejectionReason := "",
        auditReference := "")
  }

  predicate MayRule(accept: bool, decision: string, auditReference: string, rejection: string) {
    decision != "" && (if accept then !IsBlank(auditReference) else !IsBlank(rejection))
  }

  function Ruled(r: Rights, accept: bool, decision: string, auditReference: string, rejection: string,
      today: int): Rights {
    r.(authorization := if accept then RightsApproved else RightsRejected,
       authorizationDate := if accept then Some(today) else None,
       reviewerDecision := decision, auditReference := auditReference, rejectionReason := rejection)
  }

  /** The review is open, on this document. */
  predicate IsOpenFor(s: State, review: nat, id: nat) {
    review in s.reviews && s.reviews[review].document == id && s.reviews[review].status == Open
  }

  ghost predicate HasOpenReview(s: State, id: nat) {
    exists r | r in s.reviews :: s.reviews[r].document == id && s.reviews[r].status == Open
  }

  /** The service behind the review queue; it does not look at the document's status itself. */
  ghost function OpenUnguarded(s: State, id: nat, review: nat, actor: nat): State
    requires id in s.documents
  {
    if HasOpenReview(s, id) || review in s.reviews then s
    else Log(s.(reviews := s.reviews[review := Review(id, Open, actor, None, None, "", None)]), ReviewOpened, id, actor)
  }

  /** What the locked decision itself demands. */
  predicate MayDecide(s: State, review: nat, decision: ReviewStatus, reason: string, today: int) {
    && review in s.reviews && s.reviews[review].status == Open && s.reviews[review].document in s.documents
    && decision != Open && (decision == Refused ==> !IsBlank(reason))
    && (decision == Approved ==> MissingPublication(s.documents[s.reviews[review].document].file, today) == [])
  }

  function Applied(d: Document, decision: ReviewStatus, at: int): Document {
    match decision
    case Approved => d.(status := Published, publishedAt := Some(at), withdrawnAt := None)
    case Refused => d.(status := Rejected, publishedAt := None)
    case _ => d
  }

  function DecisionEvent(decision: ReviewStatus): EventKind {
    match decision
    case Approved => ReviewApproved
    case Refused => ReviewRejected
    case _ => ReviewCancelled
  }

  /** The view's separation of duties: the user is linked to an author of the document under review. */
  predicate IsOwnWork(s: State, review: nat, user: nat) {
    && review in s.reviews && s.reviews[review].document in s.documents
    && AuthoredBy(s.documents[s.reviews[review].document].file, user)
  }

  predicate MayClose(s: State, id: nat, reason: string, actor: Option<nat>, from: set<PublicationStatus>) {
    id in s.documents && !IsBlank(reason) && actor.Some? && s.documents[id].status in from
  }

  ghost function FileStep(s: State, a: Action): State
    requires a.Create? || a.Edit? || a.Declare? || a.Rule?
  {
    match a
    case Create(id, file, actor) =>
      if id in s.documents then s
      else Log(Put(s, id, Document(file.(rights := None), Draft, None, None)), DocumentCreated, id, actor)
    case Edit(id, file) =>
      if id in s.documents then PutFile(s, id, file.(rights := s.documents[id].file.rights)) else s
    case Declare(id, r, actor, moderator) =>
      if id !in s.documents || (Accepted(s.documents[id].file) && !moderator) then s
      else Log(PutFile(s, id, s.documents[id].file.(rights := Some(Declared(r)))), RightsDeclared, id, actor)
    case Rule(id, accept, decision, reference, rejection, actor, today) =>
      if id !in s.documents || s.documents[id].file.rights.None? ||
          !MayRule(accept, decision, reference, rejection) then s
      else
        var ruled := Ruled(s.documents[id].file.rights.value, accept, decision, reference, rejection, today);
        var kind := if accept then RightsAccepted else RightsTurnedDown;
        Log(PutFile(s, id, s.documents[id].file.(rights := Some(ruled))), kind, id, actor)
  }

  predicate MaySubmit(s: State, id: nat) {
    id in s.documents && s.documents[id].status in SUBMITTABLE && MissingDeposit(s.documents[id].file) == []
  }

  /** The submit view's write; it does not look at the status again. */
  function SubmitWrite(s: State, id: nat, actor: nat): State
    requires id in s.documents
  {
    Log(Put(s, id, s.documents[id].(status := Submitted)), DocumentSubmitted, id, actor)
  }

  /** An edit saves every column of the row it loaded, the workflow's own included. */
  function EditWrite(s: State, id: nat, seen: Document, file: File): State
    requires id in s.documents
  {
    var now := s.documents[id].file;
    Put(s, id, seen.(file := file.(authors := now.authors, rights := now.rights)))
  }

  function SubmitStep(s: State, id: nat, actor: nat): State {
    if MaySubmit(s, id) then SubmitWrite(s, id, actor) else s
  }

  ghost function OpenStep(s: State, id: nat, review: nat, actor: nat): State {
    if id in s.documents && s.documents[id].status == Submitted then OpenUnguarded(s, id, review, actor) else s
  }

  /** The assign view's write: the reviewer column, whatever the review says by then. */
  function AssignWrite(s: State, review: nat, actor: nat): State
    requires review in s.reviews
  {
    s.(reviews := s.reviews[review := s.reviews[review].(reviewer := Some(actor))])
  }

  function AssignStep(s: State, review: nat, actor: nat): State {
    if review in s.reviews && s.reviews[review].status == Open then AssignWrite(s, review, actor) else s
  }

  /** The locked decision. */
  function Decided(s: State, review: nat, decision: ReviewStatus, reason: string, actor: nat, at: int,
      today: int): State {
    if !MayDecide(s, review, decision, reason, today) then s
    else
      var r, id := s.reviews[review], s.reviews[review].document;
      var closed := r.(status := decision, decidedBy := Some(actor), reason := reason, decidedAt := Some(at));
      var applied := Put(s.(reviews := s.reviews[review := closed]), id, Applied(s.documents[id], decision, at));
      Log(applied, DecisionEvent(decision), id, actor)
  }

  function DecideStep(
    s: State, review: nat, decision: ReviewStatus, reason: string, actor: nat, desk: Desk, at: int, today: int): State
  {
    if desk == ReviewQueue && IsOwnWork(s, review, actor) then s
    else Decided(s, review, decision, reason, actor, at, today)
  }

  function WithdrawStep(s: State, id: nat, reason: string, actor: Option<nat>, at: int): State {
    if !MayClose(s, id, reason, actor, {Published}) then s
    else Log(Put(s, id, s.documents[id].(status := Withdrawn, withdrawnAt := Some(at))), DocumentWithdrawn, id,
        actor.value)
  }

  function ArchiveStep(s: State, id: nat, reason: string, actor: Option<nat>, at: int): State {
    if !MayClose(s, id, reason, actor, {Published, Withdrawn}) then s
    else Log(Put(s, id, s.documents[id].(status := Archived)), DocumentArchived, id, actor.value)
  }

  ghost function Step(s: State, a: Action): State {
    match a
    case Submit(id, actor) => SubmitStep(s, id, actor)
    case OpenReview(id, review, actor) => OpenStep(s, id, review, actor)
    case Assign(review, actor) => AssignStep(s, review, actor)
    case Decide(review, decision, reason, actor, desk, at, today) =>
      DecideStep(s, review, decision, reason, actor, desk, at, today)
    case Withdraw(id, reason, actor, at) => WithdrawStep(s, id, reason, actor, at)
    case Archive(id, reason, actor, at) => ArchiveStep(s, id, reason, actor, at)
    case _ => FileStep(s, a)
  }

  ghost function Run(s: State, actions: seq<Action>): State {
    if actions == [] then s else Step(Run(s, actions[..|actions| - 1]), actions[|actions| - 1])
  }

  // ----- the audit log replays to the stored status -----

  function Effect(status: PublicationStatus, kind: EventKind): PublicationStatus {
    match kind
    case DocumentCreated => Draft
    case DocumentSubmitted => Submitted
    case ReviewApproved => Published
    case ReviewRejected => Rejected
    case DocumentWithdrawn => Withdrawn
    case DocumentArchived => Archived
    case _ => status
  }

  /** The status that the events about one document, in order from DRAFT, add up to. */
  function Replay(audit: seq<Event>, id: nat): PublicationStatus {
    if audit == [] then Draft
    else
      var last := audit[|audit| - 1];
      var before := Replay(audit[..|audit| - 1], id);
      if last.target == id then Effect(before, last.kind) else before
  }

  lemma ReplayAppend(audit: seq<Event>, e: Event, id: nat)
    ensures Replay(audit + [e], id) == if e.target == id then Effect(Replay(audit, id), e.kind) else Replay(audit, id)
  {
    assert (audit + [e])[..|audit|] == audit;
  }

  // ----- invariants of every reachable state -----

  ghost predicate Coherent(s: State) {
    // a review belongs to a document, and an open one waits for a submitted document
    && (forall r | r in s.reviews :: s.reviews[r].document in s.documents)
    && (forall r | r in s.reviews && s.reviews[r].status == Open ::
         s.documents[s.reviews[r].document].status == Submitted)
    // at most one open review per document
    && (forall r, q | r in s.reviews && q in s.reviews && s.reviews[r].status == Open && s.reviews[q].status == Open
          && s.reviews[r].document == s.reviews[q].document :: r == q)
    // dates agree with the status
    && (forall id | id in s.documents && s.documents[id].status == Published ::
          s.documents[id].publishedAt.Some? && s.documents[id].withdrawnAt.None?)
    && (forall id | id in s.documents && s.documents[id].status == Withdrawn :: s.documents[id].withdrawnAt.Some?)
    // closed reviews carry their decision
    && (forall r | r in s.reviews && s.reviews[r].status != Open ::
         s.reviews[r].decidedAt.Some? && s.reviews[r].decidedBy.Some?)
    && (forall r | r in s.reviews && s.reviews[r].status == Refused :: !IsBlank(s.reviews[r].reason))
  }

  /** The state diagram: how one step may change a document's status. */
  predicate MayMove(from: PublicationStatus, to: PublicationStatus) {
    || from == to
    || (from in SUBMITTABLE && to == Submitted)
    || (from == Submitted && (to == Published || to == Rejected))
    || (from == Published && (to == Withdrawn || to == Archived))
    || (from == Withdrawn && to == Archived)
  }

  /** No document is lost and every status moves along the diagram. */
  ghost predicate Follows(s: State, s': State) {
    forall id | id in s.documents :: id in s'.documents && MayMove(s.documents[id].status, s'.documents[id].status)
  }

  function StatusOf(s: State, id: nat): PublicationStatus {
    if id in s.documents then s.documents[id].status else Draft
  }

  /** Statuses change for the target of the one event logged only, and as that event says. */
  ghost predicate Logged(s: State, s': State) {
    && s.documents.Keys <= s'.documents.Keys
    && ((&& s'.audit == s.audit && s'.documents.Keys == s.documents.Keys
         && forall id :: StatusOf(s', id) == StatusOf(s, id))
        || (exists e :: IsLoggedAs(s, s', e)))
  }

  ghost predicate IsLoggedAs(s: State, s': State, e: Event) {
    && s'.audit == s.audit + [e] && s'.documents.Keys == s.documents.Keys + {e.target}
    && (e.target !in s.documents ==> e.kind == DocumentCreated)
    && StatusOf(s', e.target) == Effect(StatusOf(s, e.target), e.kind)
    && forall id | id != e.target :: StatusOf(s', id) == StatusOf(s, id)
  }

  // ----- each step is logged as what it does, whatever state it starts from -----

  lemma PutIsLogged(s: State, r: State, id: nat, d: Document, kind: EventKind, actor: nat)
    requires r.documents == s.documents[id := d] && r.audit == s.audit + [Event(kind, id, actor)]
    requires id !in s.documents ==> kind == DocumentCreated
    requires d.status == Effect(StatusOf(s, id), kind)
    ensures Logged(s, r)
  {
    assert IsLoggedAs(s, r, Event(kind, id, actor));
  }

  lemma OpenIsLogged(s: State, id: nat, review: nat, actor: nat)
    requires id in s.documents
    ensures Logged(s, OpenUnguarded(s, id, review, actor))
  {
    var r := OpenUnguarded(s, id, review, actor);
    if r != s {
      assert r.documents == s.documents[id := s.documents[id]];
      PutIsLogged(s, r, id, s.documents[id], ReviewOpened, actor);
    }
  }

  lemma FileStepIsLogged(s: State, a: Action)
    requires a.Create? || a.Edit? || a.Declare? || a.Rule?
    ensures Logged(s, FileStep(s, a))
  {
    var r := FileStep(s, a);
    if r.audit != s.audit {
      var e := r.audit[|s.audit|];
      PutIsLogged(s, r, e.target, r.documents[e.target], e.kind, e.actor);
    }
  }

  /** What a decision leaves behind: its review closed with actor, reason and date, its document decided. */
  lemma DecidedReads(s: State, review: nat, decision: ReviewStatus, reason: string, actor: nat, at: int, today: int)
    requires MayDecide(s, review, decision, reason, today)
    ensures var s' := Decided(s, review, decision, reason, actor, at, today);
            && IsDecided(s.documents, s'.documents, s.reviews[review].document, decision, at)
            && s'.reviews == s.reviews[review := s.reviews[review].(
                 status := decision, decidedBy := Some(actor), reason := reason, decidedAt := Some(at))]
  {
    assert s.documents == s.documents[s.reviews[review].document := s.documents[s.reviews[review].document]];
  }

  lemma DecidedIsLogged(s: State, review: nat, decision: ReviewStatus, reason: string, actor: nat, at: int, today: int)
    ensures Logged(s, Decided(s, review, decision, reason, actor, at, today))
  {
    var r := Decided(s, review, decision, reason, actor, at, today);
    if r != s {
      var id := s.reviews[review].document;
      PutIsLogged(s, r, id, Applied(s.documents[id], decision, at), DecisionEvent(decision), actor);
    }
  }

  lemma WithdrawIsLogged(s: State, id: nat, reason: string, closer: Option<nat>, at: int)
    ensures Logged(s, WithdrawStep(s, id, reason, closer, at))
  {
    var r := WithdrawStep(s, id, reason, closer, at);
    if r != s {
      var d := s.documents[id].(status := Withdrawn, withdrawnAt := Some(at));
      PutIsLogged(s, r, id, d, DocumentWithdrawn, closer.value);
    }
  }

  lemma StepIsLogged(s: State, a: Action)
    ensures Logged(s, Step(s, a))
  {
    var r := Step(s, a);
    match a
    case Submit(id, actor) =>
      if r != s {
        PutIsLogged(s, r, id, s.documents[id].(status := Submitted), DocumentSubmitted, actor);
      }
    case OpenReview(id, review, actor) =>
      if id in s.documents {
        OpenIsLogged(s, id, review, actor);
      }
    case Decide(review, decision, reason, actor, _, at, today) =>
      DecidedIsLogged(s, review, decision, reason, actor, at, today);
    case Withdraw(id, reason, closer, at) => WithdrawIsLogged(s, id, reason, closer, at);
    case Archive(id, _, closer, _) =>
      if r != s {
        PutIsLogged(s, r, id, s.documents[id].(status := Archived), DocumentArchived, closer.value);
      }
    case Assign(_, _) =>
    case _ => FileStepIsLogged(s, a);
  }

  // ----- each step keeps the invariants and the diagram -----

  lemma StepKeeps(s: State, a: Action)
    requires Coherent(s)
    ensures Coherent(Step(s, a)) && Follows(s, Step(s, a))
  {
    match a
    case Submit(id, actor) => SubmitKeeps(s, id, actor);
    case OpenReview(id, review, actor) => OpenKeeps(s, id, review, actor);
    case Assign(review, actor) => AssignKeeps(s, review, actor);
    case Decide(review, decision, reason, actor, _, at, today) =>
      DecidedKeeps(s, review, decision, reason, actor, at, today);
    case Withdraw(id, reason, actor, at) => WithdrawKeeps(s, id, reason, actor, at);
    case Archive(id, reason, actor, at) => ArchiveKeeps(s, id, reason, actor, at);
    case Create(_, _, _) => CreateKeeps(s, a);
    case _ => FileStepKeeps(s, a);
  }

  lemma FileStepKeeps(s: State, a: Action)
    requires Coherent(s) && (a.Edit? || a.Declare? || a.Rule?)
    ensures Coherent(FileStep(s, a)) && Follows(s, FileStep(s, a))
  {
    FileOnlyKeeps(s, FileStep(s, a));
  }

  /** A step that leaves reviews and the workflow's own columns alone keeps everything. */
  lemma FileOnlyKeeps(s: State, r: State)
    requires Coherent(s) && r.reviews == s.reviews && r.documents.Keys == s.documents.Keys
    requires forall id | id in s.documents :: r.documents[id].(file := s.documents[id].file) == s.documents[id]
    ensures Coherent(r) && Follows(s, r)
  {
  }

  lemma CreateKeeps(s: State, a: Action)
    requires Coherent(s) && a.Create?
    ensures Coherent(FileStep(s, a)) && Follows(s, FileStep(s, a))
  {
  }

  lemma SubmitKeeps(s: State, id: nat, actor: nat)
    requires Coherent(s)
    ensures Coherent(SubmitStep(s, id, actor)) && Follows(s, SubmitStep(s, id, actor))
  {
  }

  lemma OpenKeeps(s: State, id: nat, review: nat, actor: nat)
    requires Coherent(s)
    ensures Coherent(OpenStep(s, id, review, actor)) && Follows(s, OpenStep(s, id, review, actor))
  {
  }

  lemma AssignKeeps(s: State, review: nat, actor: nat)
    requires Coherent(s)
    ensures Coherent(AssignStep(s, review, actor)) && Follows(s, AssignStep(s, review, actor))
  {
  }

  lemma DecidedKeeps(s: State, review: nat, decision: ReviewStatus, reason: string, actor: nat, at: int, today: int)
    requires Coherent(s)
    ensures var s' := Decided(s, review, decision, reason, actor, at, today); Coherent(s') && Follows(s, s')
  {
  }

  lemma WithdrawKeeps(s: State, id: nat, reason: string, actor: Option<nat>, at: int)
    requires Coherent(s)
    ensures Coherent(WithdrawStep(s, id, reason, actor, at)) && Follows(s, WithdrawStep(s, id, reason, actor, at))
  {
  }

  lemma ArchiveKeeps(s: State, id: nat, reason: string, actor: Option<nat>, at: int)
    requires Coherent(s)
    ensures Coherent(ArchiveStep(s, id, reason, actor, at)) && Follows(s, ArchiveStep(s, id, reason, actor, at))
  {
  }

  lemma {:induction false} RunCoherent(s: State, actions: seq<Action>)
    requires Coherent(s)
    ensures Coherent(Run(s, actions))
  {
    if actions != [] {
      RunCoherent(s, actions[..|actions| - 1]);
      StepKeeps(Run(s, actions[..|actions| - 1]), actions[|actions| - 1]);
    }
  }

  ghost predicate Replays(s: State) {
    forall id | id in s.documents :: Replay(s.audit, id) == s.documents[id].status
  }

  lemma LoggedReplays(s: State, s': State)
    requires Replays(s) && Logged(s, s')
    ensures Replays(s')
  {
    if s'.audit == s.audit {
      forall id | id in s'.documents ensures Replay(s'.audit, id) == s'.documents[id].status {
        assert StatusOf(s', id) == StatusOf(s, id);
      }
    } else {
      var e :| IsLoggedAs(s, s', e);
      forall id | id in s'.documents ensures Replay(s'.audit, id) == s'.documents[id].status {
        ReplayAppend(s.audit, e, id);
        assert id != e.target ==> StatusOf(s', id) == StatusOf(s, id);
      }
    }
  }

  /** Over every run, replaying a document's events in order gives exactly the status stored for it. */
  lemma {:induction false} AuditReplaysToStatus(actions: seq<Action>)
    ensures Replays(Run(EMPTY, actions))
  {
    if actions != [] {
      var front := actions[..|actions| - 1];
      AuditReplaysToStatus(front);
      StepIsLogged(Run(EMPTY, front), actions[|actions| - 1]);
      LoggedReplays(Run(EMPTY, front), Run(EMPTY, actions));
    }
  }

  /** Nothing leads out of the archive, because no open review can be pending on an archived document. */
  lemma {:induction false} ArchivedIsAbsorbing(s: State, id: nat, actions: seq<Action>)
    requires Coherent(s) && id in s.documents && s.documents[id].status == Archived
    ensures id in Run(s, actions).documents && Run(s, actions).documents[id].status == Archived
  {
    if actions != [] {
      var front := actions[..|actions| - 1];
      RunCoherent(s, front);
      ArchivedIsAbsorbing(s, id, front);
      StepKeeps(Run(s, front), actions[|actions| - 1]);
    }
  }

  /** No closed review loses or changes a field. */
  ghost predicate KeepsClosed(s: State, s': State) {
    forall q | q in s.reviews && s.reviews[q].status != Open :: q in s'.reviews && s'.reviews[q] == s.reviews[q]
  }

  lemma StepKeepsClosed(s: State, a: Action)
    ensures KeepsClosed(s, Step(s, a))
  {
  }

  /** A closed review is final: no locked step changes any of its fields. */
  lemma {:induction false} ClosedReviewIsFinal(s: State, review: nat, actions: seq<Action>)
    requires review in s.reviews && s.reviews[review].status != Open
    ensures review in Run(s, actions).reviews && Run(s, actions).reviews[review] == s.reviews[review]
  {
    if actions != [] {
      var front := actions[..|actions| - 1];
      ClosedReviewIsFinal(s, review, front);
      StepKeepsClosed(Run(s, front), actions[|actions| - 1]);
    }
  }

  /** The log only grows. */
  lemma {:induction false} AuditAppendOnly(s: State, actions: seq<Action>)
    ensures s.audit <= Run(s, actions).audit
  {
    if actions != [] {
      var front := actions[..|actions| - 1];
      AuditAppendOnly(s, front);
      StepIsLogged(Run(s, front), actions[|actions| - 1]);
    }
  }

  // ----- how rights become approved -----

  function RightsOf(s: State, id: nat): Option<Rights> {
    if id in s.documents then s.documents[id].file.rights else None
  }

  ghost predicate IsApproved(s: State, id: nat) {
    id in s.documents && s.documents[id].file.rights.Some?
    && s.documents[id].file.rights.value.authorization == RightsApproved
  }

  /** The step declares the document's rights: anyone may before they are approved, a moderator always. */
  ghost predicate Declares(s: State, a: Action, id: nat) {
    a.Declare? && a.id == id && id in s.documents && (a.moderator || !IsApproved(s, id))
  }

  /** The step rules on them: there is a declaration, and the ruling has its decision and its reference or reason. */
  ghost predicate Rules(s: State, a: Action, id: nat) {
    && a.Rule? && a.id == id && id in s.documents && s.documents[id].file.rights.Some?
    && a.reviewerDecision != ""
    && (a.accept ==> !IsBlank(a.auditReference)) && (!a.accept ==> !IsBlank(a.rejection))
  }

  /** The rights as declared: what they say, and nothing decided. */
  ghost predicate IsDeclaration(declared: Rights, now: Rights) {
    && now.authorization == PendingReview && now.authorizationDate == None
    && now.reviewerDecision == "" && now.rejectionReason == "" && now.auditReference == ""
    && SaysTheSame(declared, now)
  }

  ghost predicate SaysTheSame(a: Rights, b: Rights) {
    && a.holderName == b.holderName && a.accessModel == b.accessModel && a.withdrawalRule == b.withdrawalRule
    && a.consentReference == b.consentReference && a.validFrom == b.validFrom && a.validUntil == b.validUntil
  }

  /** The rights as ruled on: what they say stays, and only an acceptance approves and dates them. */
  ghost predicate IsRuling(before: Rights, a: Action, now: Rights)
    requires a.Rule?
  {
    && now.authorization == (if a.accept then RightsApproved else RightsRejected)
    && now.authorizationDate == (if a.accept then Some(a.today) else None)
    && now.reviewerDecision == a.reviewerDecision && now.auditReference == a.auditReference
    && now.rejectionReason == a.rejection
    && SaysTheSame(before, now)
  }

  /** What one step makes of a document's rights. */
  lemma RightsAfterStep(s: State, a: Action, id: nat)
    ensures var before, now := RightsOf(s, id), RightsOf(Step(s, a), id);
            if Declares(s, a, id) then now.Some? && IsDeclaration(a.rights, now.value)
            else if Rules(s, a, id) then now.Some? && IsRuling(before.value, a, now.value)
            else now == before
  {
  }

  /** After step k the rights were neither declared nor ruled on. */
  ghost predicate Untouched(actions: seq<Action>, k: nat, id: nat) {
    forall j | k < j < |actions| ::
      !Declares(Run(EMPTY, actions[..j]), actions[j], id) && !Rules(Run(EMPTY, actions[..j]), actions[j], id)
  }

  lemma UntouchedExtends(front: seq<Action>, last: Action, k: nat, id: nat)
    requires Untouched(front, k, id)
    requires !Declares(Run(EMPTY, front), last, id) && !Rules(Run(EMPTY, front), last, id)
    ensures Untouched(front + [last], k, id)
  {
    var actions := front + [last];
    forall j | k < j < |actions|
      ensures !Declares(Run(EMPTY, actions[..j]), actions[j], id) && !Rules(Run(EMPTY, actions[..j]), actions[j], id)
    {
      assert actions[..j] == if j < |front| then front[..j] else front;
    }
  }

  /** Approved rights were approved by an accepting ruling, and neither declared nor ruled on again since. */
  lemma {:induction false} ApprovedByRuling(actions: seq<Action>, id: nat) returns (k: nat)
    requires IsApproved(Run(EMPTY, actions), id)
    ensures k < |actions| && Rules(Run(EMPTY, actions[..k]), actions[k], id) && actions[k].accept
    ensures var rights := Run(EMPTY, actions).documents[id].file.rights.value;
            && rights.authorizationDate == Some(actions[k].today)
            && rights.reviewerDecision == actions[k].reviewerDecision
            && rights.auditReference == actions[k].auditReference
    ensures Untouched(actions, k, id)
  {
    var front, last := actions[..|actions| - 1], actions[|actions| - 1];
    assert actions == front + [last];
    ApprovedAfterStep(Run(EMPTY, front), last, id);
    if Rules(Run(EMPTY, front), last, id) {
      k := |front|;
    } else {
      k := ApprovedByRuling(front, id);
      assert front[..k] == actions[..k];
      UntouchedExtends(front, last, k, id);
    }
  }

  lemma ApprovedAfterStep(s: State, a: Action, id: nat)
    requires IsApproved(Step(s, a), id)
    ensures !Declares(s, a, id)
    ensures var rights := Step(s, a).documents[id].file.rights.value;
            if Rules(s, a, id) then
              && a.accept && rights.authorizationDate == Some(a.today)
              && rights.reviewerDecision == a.reviewerDecision && rights.auditReference == a.auditReference
            else
              IsApproved(s, id) && s.documents[id].file.rights == Step(s, a).documents[id].file.rights
  {
    RightsAfterStep(s, a, id);
  }

  // ----- how a document becomes public -----

  /**
   The step approves an open review of this document while nothing is missing from its file; in the
   review queue, by a user who is linked to none of its authors.
   */
  ghost predicate Publishes(s: State, a: Action, id: nat) {
    && a.Decide? && a.decision == Approved
    && (a.desk == ReviewQueue ==>
          id in s.documents && forall author | author in s.documents[id].file.authors ::
            author.linkedUser != Some(a.actor))
    && a.review in s.reviews && s.reviews[a.review].status == Open && s.reviews[a.review].document == id
    && id in s.documents && s.documents[id].status == Submitted && Publishable(s.documents[id].file, a.today)
  }

  ghost predicate IsPublic(s: State, id: nat) {
    id in s.documents && s.documents[id].status == Published
  }

  lemma OnlyApprovalPublishes(s: State, a: Action, id: nat)
    requires Coherent(s) && IsPublic(Step(s, a), id)
    ensures Publishes(s, a, id) || IsPublic(s, id)
    ensures !IsPublic(s, id) ==>
              && Step(s, a).audit == s.audit + [Event(ReviewApproved, id, a.actor)]
              && Step(s, a).documents[id].publishedAt == Some(a.at)
              && Step(s, a).reviews[a.review].decidedBy == Some(a.actor)
  {
    if a.Decide? && MayDecide(s, a.review, a.decision, a.reason, a.today) && a.decision == Approved {
      NothingMissingIffPublishable(s.documents[s.reviews[a.review].document].file, a.today);
    }
  }

  ghost predicate PublicAfter(actions: seq<Action>, k: nat, id: nat) {
    forall j | k < j <= |actions| :: IsPublic(Run(EMPTY, actions[..j]), id)
  }

  lemma PublicExtends(front: seq<Action>, last: Action, k: nat, id: nat)
    requires PublicAfter(front, k, id) && IsPublic(Run(EMPTY, front + [last]), id)
    ensures PublicAfter(front + [last], k, id)
  {
    var actions := front + [last];
    forall j | k < j <= |actions| ensures IsPublic(Run(EMPTY, actions[..j]), id) {
      assert actions[..j] == if j <= |front| then front[..j] else actions;
    }
  }

  /** A published document was published by such a step, and has stayed so ever since. */
  lemma {:induction false} PublishedByApproval(actions: seq<Action>, id: nat) returns (k: nat)
    requires IsPublic(Run(EMPTY, actions), id)
    ensures k < |actions| && Publishes(Run(EMPTY, actions[..k]), actions[k], id)
    ensures PublicAfter(actions, k, id)
  {
    LastStepPublishes(actions, id);
    var front, last := actions[..|actions| - 1], actions[|actions| - 1];
    assert actions == front + [last];
    if IsPublic(Run(EMPTY, front), id) {
      k := PublishedByApproval(front, id);
      assert front[..k] == actions[..k];
      PublicExtends(front, last, k, id);
    } else {
      k := |front|;
      assert actions[..|actions|] == actions;
    }
  }

  /** Before it was published its rights were approved by an accepting ruling, the last word on them by then. */
  lemma PublishedAfterRuling(actions: seq<Action>, id: nat) returns (ruled: nat, published: nat)
    requires IsPublic(Run(EMPTY, actions), id)
    ensures ruled < published < |actions| && Publishes(Run(EMPTY, actions[..published]), actions[published], id)
    ensures Rules(Run(EMPTY, actions[..ruled]), actions[ruled], id) && actions[ruled].accept
    ensures Untouched(actions[..published], ruled, id)
  {
    published := PublishedByApproval(actions, id);
    var before := actions[..published];
    ruled := ApprovedByRuling(before, id);
    assert before[..ruled] == actions[..ruled];
  }

  lemma LastStepPublishes(actions: seq<Action>, id: nat)
    requires IsPublic(Run(EMPTY, actions), id)
    ensures actions != []
    ensures var front := actions[..|actions| - 1];
            IsPublic(Run(EMPTY, front), id) || Publishes(Run(EMPTY, front), actions[|actions| - 1], id)
  {
    var front := actions[..|actions| - 1];
    RunCoherent(EMPTY, front);
    OnlyApprovalPublishes(Run(EMPTY, front), actions[|actions| - 1], id);
  }

  /**
   Separation of duties holds in the review queue alone: an author's own approval publishes exactly at
   the admin site.
   */
  lemma OwnApprovalPublishesIffAdmin(s: State, review: nat, actor: nat, desk: Desk, at: int, today: int)
    requires Coherent(s) && IsOwnWork(s, review, actor) && MayDecide(s, review, Approved, "", today)
    ensures var id := s.reviews[review].document;
            IsPublic(Step(s, Decide(review, Approved, "", actor, desk, at, today)), id) <==> desk == AdminSite
  {
  }

  // ----- why the queue's own guard matters -----

  /** The unguarded opening keeps the invariants exactly when the document is submitted. */
  lemma UnguardedOpenIffSubmitted(s: State, id: nat, review: nat, actor: nat)
    requires Coherent(s) && id in s.documents && review !in s.reviews
    ensures Coherent(OpenUnguarded(s, id, review, actor)) <==> s.documents[id].status == Submitted
  {
    if s.documents[id].status == Submitted {
      StepKeeps(s, OpenReview(id, review, actor));
    } else {
      var reviewed := OpenUnguarded(s, id, review, actor);
      assert reviewed.reviews[review].status == Open;
    }
  }

  /** An archived document, nothing missing from its file. */
  ghost predicate ReadyInArchive(s: State, id: nat, today: int) {
    && id in s.documents && s.documents[id].status == Archived
    && MissingPublication(s.documents[id].file, today) == []
  }

  /** Without the SUBMITTED check, opening and approving would republish an archived document. */
  lemma UnguardedOpenRevivesArchive(s: State, id: nat, review: nat, actor: nat, at: int, today: int)
    requires Coherent(s) && ReadyInArchive(s, id, today) && review !in s.reviews
    ensures var reviewed := OpenUnguarded(s, id, review, actor);
            && !Coherent(reviewed)
            && IsPublic(Step(reviewed, Decide(review, Approved, "", actor, AdminSite, at, today)), id)
    ensures Step(s, OpenReview(id, review, actor)) == s
  {
    UnguardedOpenIffSubmitted(s, id, review, actor);
  }

  // ----- the services themselves -----

  /** What a decision makes of the documents: an approval dates, a rejection undates, a cancellation changes nothing. */
  ghost predicate IsDecided(before: map<nat, Document>, after: map<nat, Document>, id: nat, decision: ReviewStatus,
      at: int)
    requires id in before
  {
    match decision
    case Approved => after == before[id := Document(before[id].file, Published, Some(at), None)]
    case Refused => after == before[id := Document(before[id].file, Rejected, None, before[id].withdrawnAt)]
    case _ => after == before
  }

  class Workflow {
    var documents: map<nat, Document>
    var reviews: map<nat, Review>
    var audit: seq<Event>

    function Contents(): State
      reads this
    {
      State(documents, reviews, audit)
    }

    constructor ()
      ensures Contents() == EMPTY
    {
      documents, reviews, audit := map[], map[], [];
    }

    method RecordAuditEvent(kind: EventKind, target: nat, actor: nat)
      modifies this`audit
      ensures audit == old(audit) + [Event(kind, target, actor)]
    {
      audit := audit + [Event(kind, target, actor)];
    }

    method CreateDocument(id: nat, file: File, actor: nat)
      requires id !in documents
      modifies this
      ensures Contents() == Step(old(Contents()), Create(id, file, actor))
      ensures id in documents && documents[id].status == Draft && documents[id].file == file.(rights := None)
      ensures documents[id].publishedAt == None && documents[id].withdrawnAt == None
      ensures audit == old(audit) + [Event(DocumentCreated, id, actor)]
    {
      documents := documents[id := Document(file.(rights := None), Draft, None, None)];
      RecordAuditEvent(DocumentCreated, id, actor);
    }

    /**
     The metadata edit's write: the row as it was loaded, some time before, with the new metadata.
     Authors and rights are other tables.
     */
    method SaveLoadedDocument(id: nat, loaded: Document, file: File)
      requires id in documents
      modifies this
      ensures Contents() == EditWrite(old(Contents()), id, loaded, file)
      ensures documents == old(documents)[id := documents[id]] && reviews == old(reviews) && audit == old(audit)
      ensures documents[id].status == loaded.status && documents[id].publishedAt == loaded.publishedAt
              && documents[id].withdrawnAt == loaded.withdrawnAt
      ensures documents[id].file.rights == old(documents)[id].file.rights
              && documents[id].file.authors == old(documents)[id].file.authors
      ensures documents[id].file.(rights := file.rights, authors := file.authors) == file
    {
      var now := documents[id].file;
      documents := documents[id := loaded.(file := file.(authors := now.authors, rights := now.rights))];
    }

    /** Refused once a moderator has approved the declaration, except to a moderator. */
    method DeclareRights(id: nat, rights: Rights, actor: nat, moderator: bool) returns (declared: bool)
      modifies this
      ensures Contents() == Step(old(Contents()), Declare(id, rights, actor, moderator))
      ensures declared <==> Declares(old(Contents()), Declare(id, rights, actor, moderator), id)
      ensures declared ==> id in documents && documents[id].file.rights.Some?
                           && IsDeclaration(rights, documents[id].file.rights.value)
                           && audit == old(audit) + [Event(RightsDeclared, id, actor)]
    {
      if id !in documents {
        return false;
      }
      var d := documents[id];
      if Accepted(d.file) && !moderator {
        return false;
      }
      documents := documents[id := d.(file := d.file.(rights := Some(Declared(rights))))];
      RecordAuditEvent(RightsDeclared, id, actor);
      return true;
    }

    method DecideRights(id: nat, accept: bool, decision: string, reference: string, rejection: string, actor: nat,
        today: int)
      returns (decided: bool)
      modifies this
      ensures Contents() == Step(old(Contents()), Rule(id, accept, decision, reference, rejection, actor, today))
      ensures decided <==>
                Rules(old(Contents()), Rule(id, accept, decision, reference, rejection, actor, today), id)
      ensures decided ==>
                && id in documents && documents[id].file.rights.Some?
                && IsRuling(old(documents)[id].file.rights.value,
                            Rule(id, accept, decision, reference, rejection, actor, today),
                            documents[id].file.rights.value)
                && audit == old(audit) + [Event(if accept then RightsAccepted else RightsTurnedDown, id, actor)]
    {
      if id !in documents {
        return false;
      }
      var d := documents[id];
      if d.file.rights.None? || !MayRule(accept, decision, reference, rejection) {
        return false;
      }
      var ruled := Ruled(d.file.rights.value, accept, decision, reference, rejection, today);
      documents := documents[id := d.(file := d.file.(rights := Some(ruled)))];
      RecordAuditEvent(if accept then RightsAccepted else RightsTurnedDown, id, actor);
      return true;
    }

    /** The submit view's reading of the document, unlocked: whether it may be submitted, and what it lacks. */
    method CheckSubmission(id: nat) returns (may: bool, missing: seq<Requirement>)
      ensures may <==> id in documents && documents[id].status in {Draft, Rejected, Withdrawn}
                       && MissingDeposit(documents[id].file) == []
      ensures may <==> MaySubmit(Contents(), id)
      ensures missing == if id in documents && documents[id].status in {Draft, Rejected, Withdrawn}
                         then MissingDeposit(documents[id].file) else []
    {
      may, missing := false, [];
      if id !in documents {
        return;
      }
      var d := documents[id];
      if d.status == Submitted || d.status !in SUBMITTABLE {
        return;
      }
      missing := MissingDeposit(d.file);
      may := missing == [];
    }

    /** Its write, in a later transaction: the status column and the event, whatever the row says by then. */
    method WriteSubmission(id: nat, actor: nat)
      requires id in documents
      modifies this
      ensures Contents() == SubmitWrite(old(Contents()), id, actor)
      ensures documents == old(documents)[id := old(documents)[id].(status := Submitted)] && reviews == old(reviews)
      ensures audit == old(audit) + [Event(DocumentSubmitted, id, actor)]
    {
      documents := documents[id := documents[id].(status := Submitted)];
      RecordAuditEvent(DocumentSubmitted, id, actor);
    }

    /** The view when nothing comes between. */
    method SubmitDocument(id: nat, actor: nat) returns (missing: seq<Requirement>)
      modifies this
      ensures Contents() == Step(old(Contents()), Submit(id, actor))
      ensures id in old(documents) ==>
                && id in documents
                && (documents[id].status == Submitted
                    <==> (old(documents)[id].status == Submitted
                          || (old(documents)[id].status in SUBMITTABLE && missing == [])))
                && (old(documents)[id].status in SUBMITTABLE ==> missing == MissingDeposit(old(documents)[id].file))
    {
      var may;
      may, missing := CheckSubmission(id);
      if may {
        WriteSubmission(id, actor);
      }
    }

    /** Finds the open review of a document, if any. */
    method FindOpen(id: nat) returns (found: Option<nat>)
      ensures found.Some? ==> IsOpenFor(Contents(), found.value, id)
      ensures found.None? ==> !HasOpenReview(Contents(), id)
    {
      var open := set r | r in reviews && reviews[r].document == id && reviews[r].status == Open;
      if open == {} {
        assert forall r | r in reviews :: reviews[r].document == id && reviews[r].status == Open ==> r in open;
        return None;
      }
      var r :| r in open;
      return Some(r);
    }

    /** Idempotent: a document already under review returns its open review. */
    method OpenPublicationReview(id: nat, freshId: nat, actor: nat) returns (review: nat)
      requires id in documents && freshId !in reviews
      modifies this
      ensures Contents() == OpenUnguarded(old(Contents()), id, freshId, actor)
      ensures IsOpenFor(Contents(), review, id)
      ensures HasOpenReview(old(Contents()), id) ==> Contents() == old(Contents())
      ensures !HasOpenReview(old(Contents()), id) ==>
                && review == freshId && documents == old(documents)
                && reviews == old(reviews)[freshId := Review(id, Open, actor, None, None, "", None)]
                && audit == old(audit) + [Event(ReviewOpened, id, actor)]
    {
      var existing := FindOpen(id);
      if existing.Some? {
        return existing.value;
      }
      review := freshId;
      reviews := reviews[review := Review(id, Open, actor, None, None, "", None)];
      RecordAuditEvent(ReviewOpened, id, actor);
    }

    /** The queue's entry point: only a submitted document may go under review. */
    method PostReview(id: nat, freshId: nat, actor: nat) returns (review: Option<nat>)
      requires freshId !in reviews
      modifies this
      ensures Contents() == Step(old(Contents()), OpenReview(id, freshId, actor))
      ensures review.Some? <==> id in old(documents) && old(documents)[id].status == Submitted
      ensures review.Some? ==> IsOpenFor(Contents(), review.value, id)
    {
      if id !in documents || documents[id].status != Submitted {
        return None;
      }
      var r := OpenPublicationReview(id, freshId, actor);
      return Some(r);
    }

    /** The assign view's reading of the review, unlocked. */
    method CheckAssignment(review: nat) returns (may: bool)
      ensures may <==> review in reviews && reviews[review].status == Open
    {
      return review in reviews && reviews[review].status == Open;
    }

    /** Its write, in a later statement. */
    method SaveReviewer(review: nat, actor: nat)
      requires review in reviews
      modifies this`reviews
      ensures Contents() == AssignWrite(old(Contents()), review, actor)
      ensures reviews == old(reviews)[review := old(reviews)[review].(reviewer := Some(actor))]
    {
      reviews := reviews[review := reviews[review].(reviewer := Some(actor))];
    }

    /** Taking a review when nothing comes between; a closed one cannot be taken. */
    method AssignReview(review: nat, actor: nat) returns (taken: bool)
      modifies this`reviews
      ensures Contents() == Step(old(Contents()), Assign(review, actor))
      ensures taken <==> review in old(reviews) && old(reviews)[review].status == Open
    {
      taken := CheckAssignment(review);
      if taken {
        SaveReviewer(review, actor);
      }
    }

    method RecordPublicationDecision(review: nat, decision: ReviewStatus, reason: string, actor: nat, at: int,
        today: int)
      returns (decided: bool)
      requires review in reviews ==> reviews[review].document in documents
      modifies this
      ensures Contents() == Step(old(Contents()), Decide(review, decision, reason, actor, AdminSite, at, today))
      ensures decided <==> MayDecide(old(Contents()), review, decision, reason, today)
      ensures decided ==>
                && review in old(reviews) && old(reviews)[review].status == Open
                && reviews == old(reviews)[review := old(reviews)[review].(
                     status := decision, decidedBy := Some(actor), reason := reason, decidedAt := Some(at))]
                && IsDecided(old(documents), documents, old(reviews)[review].document, decision, at)
                && |audit| == |old(audit)| + 1 && audit[..|old(audit)|] == old(audit)
                && audit[|old(audit)|].target == old(reviews)[review].document && audit[|old(audit)|].actor == actor
    {
      if decision == Open || (decision == Refused && IsBlank(reason)) || review !in reviews {
        return false;
      }
      var r := reviews[review];
      if r.status != Open {
        return false;
      }
      var document := documents[r.document];
      if decision == Approved && MissingPublication(document.file, today) != [] {
        return false;
      }
      reviews := reviews[review := r.(status := decision, decidedBy := Some(actor), reason := reason,
          decidedAt := Some(at))];
      var event := ApplyPublicationDecision(r.document, decision, at);
      RecordAuditEvent(event, r.document, actor);
      return true;
    }

    /** The review queue's decision: refused to the document's own authors before anything else. */
    method PostDecision(review: nat, decision: ReviewStatus, reason: string, actor: nat, at: int, today: int)
      returns (decided: bool)
      requires review in reviews ==> reviews[review].document in documents
      modifies this
      ensures Contents() == Step(old(Contents()), Decide(review, decision, reason, actor, ReviewQueue, at, today))
      ensures decided <==>
                MayDecide(old(Contents()), review, decision, reason, today) &&
                    !IsOwnWork(old(Contents()), review, actor)
    {
      if review !in reviews {
        return false;
      }
      var file := documents[reviews[review].document].file;
      if AuthoredBy(file, actor) {
        return false;
      }
      if reviews[review].status != Open || (decision == Approved && MissingPublication(file, today) != []) {
        return false;
      }
      decided := RecordPublicationDecision(review, decision, reason, actor, at, today);
    }

    method ApplyPublicationDecision(id: nat, decision: ReviewStatus, at: int) returns (event: EventKind)
      requires id in documents
      modifies this`documents
      ensures documents == old(documents)[id := Applied(old(documents)[id], decision, at)]
      ensures IsDecided(old(documents), documents, id, decision, at)
      ensures event == DecisionEvent(decision)
    {
      if decision == Approved {
        documents := documents[id := documents[id].(status := Published, publishedAt := Some(at), withdrawnAt := None)];
        return ReviewApproved;
      }
      if decision == Refused {
        documents := documents[id := documents[id].(status := Rejected, publishedAt := None)];
        return ReviewRejected;
      }
      assert documents == documents[id := documents[id]];
      return ReviewCancelled;
    }

    method WithdrawDocument(id: nat, reason: string, actor: Option<nat>, at: int) returns (done: bool)
      modifies this
      ensures Contents() == Step(old(Contents()), Withdraw(id, reason, actor, at))
      ensures done <==> MayClose(old(Contents()), id, reason, actor, {Published})
      ensures done ==>
                && documents == old(documents)[id := old(documents)[id].(status := Withdrawn, withdrawnAt := Some(at))]
                && reviews == old(reviews) && audit == old(audit) + [Event(DocumentWithdrawn, id, actor.value)]
    {
      done := ClosePublication(id, Withdrawn, DocumentWithdrawn, reason, actor, at, {Published});
    }

    method ArchiveDocument(id: nat, reason: string, actor: Option<nat>, at: int) returns (done: bool)
      modifies this
      ensures Contents() == Step(old(Contents()), Archive(id, reason, actor, at))
      ensures done <==> MayClose(old(Contents()), id, reason, actor, {Published, Withdrawn})
      ensures done ==>
                && documents == old(documents)[id := old(documents)[id].(status := Archived)]
                && reviews == old(reviews) && audit == old(audit) + [Event(DocumentArchived, id, actor.value)]
    {
      done := ClosePublication(id, Archived, DocumentArchived, reason, actor, at, {Published, Withdrawn});
    }

    method ClosePublication(id: nat, target: PublicationStatus, kind: EventKind, reason: string,
                            actor: Option<nat>, at: int, allowedFrom: set<PublicationStatus>)
      returns (done: bool)
      modifies this
      ensures done <==> MayClose(old(Contents()), id, reason, actor, allowedFrom)
      ensures done <==>
                && !IsBlank(reason) && actor.Some?
                && id in old(documents) && old(documents)[id].status in allowedFrom
      ensures !done ==> Contents() == old(Contents())
      ensures done ==> Contents() == Log(Put(old(Contents()), id, old(documents)[id].(
                status := target,
                withdrawnAt := if target == Withdrawn then Some(at) else old(documents)[id].withdrawnAt)), kind, id,
                    actor.value)
    {
      if IsBlank(reason) || actor.None? || id !in documents || documents[id].status !in allowedFrom {
        return false;
      }
      documents := documents[id := documents[id].(status := target)];
      if target == Withdrawn {
        documents := documents[id := documents[id].(withdrawnAt := Some(at))];
      }
      RecordAuditEvent(kind, id, actor.value);
      return true;
    }
  }
}
