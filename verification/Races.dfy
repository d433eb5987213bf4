/**
 The staff views check a document in one statement and write it in a later one, with no lock in
 between. Here each check and each write is a step of its own, interleaved with those of other
 requests and with the locked transactions of the workflow.
 */
module Races {
  import opened Prelude
  import opened Strings
  import opened Catalog
  import opened Publication

  /** A request that has passed its checks and has not written yet. */
  datatype Pending =
    | ToOpen(id: nat, review: nat, actor: nat)
    | ToSubmit(id: nat, actor: nat)
    | ToEdit(id: nat, seen: Document)
    | ToDecide(review: nat, decision: ReviewStatus, reason: string, actor: nat)
    | ToAssign(review: nat, actor: nat)

  datatype Racing = Racing(state: State, pending: map<nat, Pending>)

  /** `file` holds the metadata an edit writes; authors and rights are other tables. */
  datatype Move =
    | Locked(action: Action)
    | Check(request: nat, wish: Pending)
    | Write(request: nat, file: File, at: int, today: int)

  const START := Racing(EMPTY, map[])

  /** The check passes; an edit remembers the whole row it has loaded. */
  predicate Passes(s: State, wish: Pending) {
    match wish
    case ToOpen(id, _, _) => id in s.documents && s.documents[id].status == Submitted
    case ToSubmit(id, _) => MaySubmit(s, id)
    case ToEdit(id, seen) => id in s.documents && s.documents[id] == seen
    case ToDecide(review, _, _, actor) => review in s.reviews && !IsOwnWork(s, review, actor)
    case ToAssign(review, _) => review in s.reviews && s.reviews[review].status == Open
  }

  ghost function Written(s: State, wish: Pending, file: File, at: int, today: int): State {
    match wish
    case ToOpen(id, review, actor) => if id in s.documents then OpenUnguarded(s, id, review, actor) else s
    case ToSubmit(id, actor) => if id in s.documents then SubmitWrite(s, id, actor) else s
    case ToEdit(id, seen) => if id in s.documents then EditWrite(s, id, seen, file) else s
    case ToDecide(review, decision, reason, actor) => Decided(s, review, decision, reason, actor, at, today)
    case ToAssign(review, actor) => if review in s.reviews then AssignWrite(s, review, actor) else s
  }

  ghost function Step(r: Racing, move: Move): Racing {
    match move
    case Locked(action) => r.(state := Publication.Step(r.state, action))
    case Check(request, wish) =>
      if request !in r.pending && Passes(r.state, wish) then r.(pending := r.pending[request := wish]) else r
    case Write(request, file, at, today) =>
      if request !in r.pending then r
      else Racing(Written(r.state, r.pending[request], file, at, today), r.pending - {request})
  }

  ghost function Run(moves: seq<Move>): Racing {
    if moves == [] then START else Step(Run(moves[..|moves| - 1]), moves[|moves| - 1])
  }

  // ----- what a check has seen -----

  /** The check of a wish, requirement by requirement, on the state it reads. */
  ghost predicate WasAllowed(s: State, wish: Pending) {
    match wish
    case ToOpen(id, _, _) => id in s.documents && s.documents[id].status == Submitted
    case ToSubmit(id, _) =>
      && id in s.documents && s.documents[id].status in {Draft, Rejected, Withdrawn}
      && MissingDeposit(s.documents[id].file) == []
    case ToEdit(id, seen) => id in s.documents && s.documents[id] == seen
    case ToDecide(review, _, _, actor) =>
      && review in s.reviews
      && (s.reviews[review].document in s.documents ==>
            forall author | author in s.documents[s.reviews[review].document].file.authors ::
              author.linkedUser != Some(actor))
    case ToAssign(review, _) => review in s.reviews && s.reviews[review].status == Open
  }

  lemma PendingAfterStep(r: Racing, move: Move, request: nat)
    requires request in Step(r, move).pending
    ensures || (request in r.pending && Step(r, move).pending[request] == r.pending[request])
            || (move == Check(request, Step(r, move).pending[request])
                && WasAllowed(r.state, Step(r, move).pending[request]))
  {
  }

  /** Whoever is about to write has passed the check for it, on the state of that moment. */
  lemma {:induction false} PendingWasChecked(moves: seq<Move>, request: nat) returns (k: nat)
    requires request in Run(moves).pending
    ensures k < |moves| && moves[k] == Check(request, Run(moves).pending[request])
    ensures WasAllowed(Run(moves[..k]).state, Run(moves).pending[request])
  {
    var front, last := moves[..|moves| - 1], moves[|moves| - 1];
    PendingAfterStep(Run(front), last, request);
    if request in Run(front).pending && Run(moves).pending[request] == Run(front).pending[request] {
      k := PendingWasChecked(front, request);
      assert front[..k] == moves[..k];
    } else {
      k := |front|;
    }
  }

  /** No unlocked write touches the rights or the authors of a document. */
  lemma WritesKeepRights(r: Racing, move: Move, id: nat)
    requires !move.Locked? && id in r.state.documents
    ensures id in Step(r, move).state.documents
    ensures var before, after := r.state.documents[id].file, Step(r, move).state.documents[id].file;
            after.rights == before.rights && after.authors == before.authors
  {
  }

  // ----- writes that come too late -----

  /** The document or review has left the status the check saw, so that the write does what no check allowed. */
  ghost predicate IsStaleWrite(s: State, wish: Pending) {
    match wish
    case ToOpen(id, review, _) =>
      id in s.documents && s.documents[id].status != Submitted && review !in s.reviews && !HasOpenReview(s, id)
    case ToSubmit(id, _) =>
      id in s.documents && s.documents[id].status != Submitted && s.documents[id].status !in SUBMITTABLE
    case ToEdit(id, seen) => id in s.documents && s.documents[id].status != seen.status
    case ToDecide(_, _, _, _) => false
    case ToAssign(review, actor) =>
      review in s.reviews && s.reviews[review].status != Open && s.reviews[review].reviewer != Some(actor)
  }

  ghost predicate IsStale(r: Racing, move: Move) {
    move.Write? && move.request in r.pending && IsStaleWrite(r.state, r.pending[move.request])
  }

  /** What a step must keep: the invariants, the replay of the audit log, the status diagram, and closed reviews. */
  ghost predicate IsGood(s: State, s': State) {
    Coherent(s') && Replays(s') && Follows(s, s') && KeepsClosed(s, s')
  }

  /** Every step of the run has been good. */
  ghost predicate AllGood(moves: seq<Move>) {
    moves == []
    || (var before := moves[..|moves| - 1]; AllGood(before) && IsGood(Run(before).state, Run(moves).state))
  }

  /** No write of the run has been stale. */
  ghost predicate NoneStale(moves: seq<Move>) {
    moves == []
    || (var before := moves[..|moves| - 1]; NoneStale(before) && !IsStale(Run(before), moves[|moves| - 1]))
  }

  /** The row an edit has loaded had dates that agreed with its status. */
  ghost predicate SeenDated(wish: Pending) {
    wish.ToEdit? ==>
      && (wish.seen.status == Published ==> wish.seen.publishedAt.Some? && wish.seen.withdrawnAt.None?)
      && (wish.seen.status == Withdrawn ==> wish.seen.withdrawnAt.Some?)
  }

  ghost predicate Sound(r: Racing) {
    Coherent(r.state) && Replays(r.state) && forall request | request in r.pending :: SeenDated(r.pending[request])
  }

  lemma SubmitWriteKeeps(s: State, id: nat, actor: nat)
    requires Coherent(s) && Replays(s) && id in s.documents
    ensures IsGood(s, SubmitWrite(s, id, actor)) <==> !IsStaleWrite(s, ToSubmit(id, actor))
  {
    var s' := SubmitWrite(s, id, actor);
    PutIsLogged(s, s', id, s.documents[id].(status := Submitted), DocumentSubmitted, actor);
    LoggedReplays(s, s');
    SubmitWriteCoherent(s, id, actor);
    assert s'.documents[id].status == Submitted;
  }

  lemma SubmitWriteCoherent(s: State, id: nat, actor: nat)
    requires Coherent(s) && id in s.documents
    ensures Coherent(SubmitWrite(s, id, actor))
  {
  }

  lemma OpenWriteKeeps(s: State, id: nat, review: nat, actor: nat)
    requires Coherent(s) && Replays(s) && id in s.documents
    ensures IsGood(s, OpenUnguarded(s, id, review, actor)) <==> !IsStaleWrite(s, ToOpen(id, review, actor))
  {
    OpenIsLogged(s, id, review, actor);
    LoggedReplays(s, OpenUnguarded(s, id, review, actor));
    if review !in s.reviews {
      UnguardedOpenIffSubmitted(s, id, review, actor);
    }
  }

  lemma EditWriteKeeps(s: State, id: nat, seen: Document, file: File)
    requires Coherent(s) && Replays(s) && id in s.documents && SeenDated(ToEdit(id, seen))
    ensures var s' := EditWrite(s, id, seen, file);
            && (Replays(s') <==> s.documents[id].status == seen.status)
            && (Replays(s') ==> IsGood(s, s'))
  {
    var s' := EditWrite(s, id, seen, file);
    assert Replay(s.audit, id) == s.documents[id].status;
    assert s'.documents[id].status == seen.status;
  }

  lemma DecisionKeeps(s: State, review: nat, decision: ReviewStatus, reason: string, actor: nat, at: int, today: int)
    requires Coherent(s) && Replays(s)
    ensures IsGood(s, Decided(s, review, decision, reason, actor, at, today))
  {
    DecidedKeeps(s, review, decision, reason, actor, at, today);
    DecidedIsLogged(s, review, decision, reason, actor, at, today);
    LoggedReplays(s, Decided(s, review, decision, reason, actor, at, today));
  }

  /** A late assignment keeps everything but, perhaps, the closed review it writes to. */
  lemma AssignWriteKeeps(s: State, review: nat, actor: nat)
    requires Coherent(s) && Replays(s) && review in s.reviews
    ensures IsGood(s, AssignWrite(s, review, actor)) <==> !IsStaleWrite(s, ToAssign(review, actor))
  {
    assert Coherent(AssignWrite(s, review, actor)) && Replays(AssignWrite(s, review, actor));
    AssignWriteClosed(s, review, actor);
  }

  lemma AssignWriteClosed(s: State, review: nat, actor: nat)
    requires review in s.reviews
    ensures KeepsClosed(s, AssignWrite(s, review, actor)) <==>
              s.reviews[review].status == Open || s.reviews[review].reviewer == Some(actor)
  {
    assert AssignWrite(s, review, actor).reviews[review].reviewer == Some(actor);
  }

  /** One write: good exactly when it is not stale. */
  lemma WriteIsGoodIff(s: State, wish: Pending, file: File, at: int, today: int)
    requires Coherent(s) && Replays(s) && SeenDated(wish)
    ensures IsGood(s, Written(s, wish, file, at, today)) <==> !IsStaleWrite(s, wish)
  {
    match wish
    case ToOpen(id, review, actor) =>
      if id in s.documents {
        OpenWriteKeeps(s, id, review, actor);
      }
    case ToSubmit(id, actor) =>
      if id in s.documents {
        SubmitWriteKeeps(s, id, actor);
      }
    case ToEdit(id, seen) =>
      if id in s.documents {
        EditWriteKeeps(s, id, seen, file);
      }
    case ToDecide(review, decision, reason, actor) => DecisionKeeps(s, review, decision, reason, actor, at, today);
    case ToAssign(review, actor) =>
      if review in s.reviews {
        AssignWriteKeeps(s, review, actor);
      }
  }

  lemma StepIsGoodIff(r: Racing, move: Move)
    requires Sound(r)
    ensures IsGood(r.state, Step(r, move).state) <==> !IsStale(r, move)
    ensures !IsStale(r, move) ==> Sound(Step(r, move))
  {
    match move
    case Locked(action) =>
      StepKeeps(r.state, action);
      StepKeepsClosed(r.state, action);
      StepIsLogged(r.state, action);
      LoggedReplays(r.state, Publication.Step(r.state, action));
    case Check(_, _) =>
    case Write(request, file, at, today) =>
      if request in r.pending {
        WriteIsGoodIff(r.state, r.pending[request], file, at, today);
      }
  }

  lemma {:induction false} RunSound(moves: seq<Move>)
    requires NoneStale(moves)
    ensures Sound(Run(moves))
  {
    if moves != [] {
      RunSound(moves[..|moves| - 1]);
      StepIsGoodIff(Run(moves[..|moves| - 1]), moves[|moves| - 1]);
    }
  }

  /**
   For every interleaving: each of its steps keeps the invariants, the replay of the audit log, the
   status diagram and closed reviews exactly when each of its writes still finds the document or
   review as the check allowed.
   */
  lemma {:induction false} RacesAreGoodIffNoneStale(moves: seq<Move>)
    ensures AllGood(moves) <==> NoneStale(moves)
  {
    if moves != [] {
      var before := moves[..|moves| - 1];
      RacesAreGoodIffNoneStale(before);
      if NoneStale(before) {
        RunSound(before);
        StepIsGoodIff(Run(before), moves[|moves| - 1]);
      }
    }
  }

  // ----- the archive -----

  ghost predicate InArchive(s: State, id: nat) {
    id in s.documents && s.documents[id].status == Archived
  }

  /** The step that takes an archived document out: a submission, or an edit that loaded it before. */
  ghost predicate TakesOut(r: Racing, move: Move, id: nat) {
    && move.Write? && move.request in r.pending
    && var wish := r.pending[move.request];
       (wish.ToSubmit? && wish.id == id) || (wish.ToEdit? && wish.id == id && wish.seen.status != Archived)
  }

  /** From a sound state, a step takes a document out of the archive exactly when it is such a write. */
  lemma LeavesArchiveIff(r: Racing, move: Move, id: nat)
    requires Sound(r) && InArchive(r.state, id)
    ensures !InArchive(Step(r, move).state, id) <==> TakesOut(r, move, id)
  {
    if !move.Write? || move.request !in r.pending {
      StepIsGoodIff(r, move);
    } else {
      var wish := r.pending[move.request];
      if wish.ToDecide? {
        WriteIsGoodIff(r.state, wish, move.file, move.at, move.today);
      }
    }
  }

  /** Through any run without stale writes the archive is final. */
  lemma {:induction false} ArchiveIsFinal(moves: seq<Move>, k: nat, id: nat)
    requires k <= |moves| && NoneStale(moves) && InArchive(Run(moves[..k]).state, id)
    ensures InArchive(Run(moves).state, id)
    decreases |moves|
  {
    if k == |moves| {
      assert moves[..k] == moves;
    } else {
      var before := moves[..|moves| - 1];
      assert before[..k] == moves[..k];
      ArchiveIsFinal(before, k, id);
      RunSound(before);
      StepIsGoodIff(Run(before), moves[|moves| - 1]);
    }
  }

  // ----- closed reviews -----

  /** A late assignment of a closed review to another reviewer. */
  ghost predicate RewritesClosed(r: Racing, move: Move) {
    && move.Write? && move.request in r.pending && r.pending[move.request].ToAssign?
    && IsStaleWrite(r.state, r.pending[move.request])
  }

  /** From any state, a step keeps every closed review exactly when it is no such write. */
  lemma ClosedReviewsKeptIff(r: Racing, move: Move)
    ensures KeepsClosed(r.state, Step(r, move).state) <==> !RewritesClosed(r, move)
  {
    if move.Locked? {
      StepKeepsClosed(r.state, move.action);
    } else if move.Write? && move.request in r.pending {
      var wish := r.pending[move.request];
      if wish.ToAssign? && wish.review in r.state.reviews {
        AssignWriteClosed(r.state, wish.review, wish.actor);
      }
    }
  }

  ghost predicate NoneRewrites(moves: seq<Move>) {
    moves == []
    || (var before := moves[..|moves| - 1]; NoneRewrites(before) && !RewritesClosed(Run(before), moves[|moves| - 1]))
  }

  /** Through any run without such writes, whatever else is stale in it, a closed review is final. */
  lemma {:induction false} ClosedReviewIsFinal(moves: seq<Move>, k: nat, review: nat)
    requires k <= |moves| && NoneRewrites(moves)
    requires review in Run(moves[..k]).state.reviews && Run(moves[..k]).state.reviews[review].status != Open
    ensures review in Run(moves).state.reviews
    ensures Run(moves).state.reviews[review] == Run(moves[..k]).state.reviews[review]
    decreases |moves|
  {
    if k == |moves| {
      assert moves[..k] == moves;
    } else {
      var before := moves[..|moves| - 1];
      assert before[..k] == moves[..k];
      ClosedReviewIsFinal(before, k, review);
      ClosedReviewsKeptIff(Run(before), moves[|moves| - 1]);
    }
  }

  // ----- how a document becomes public -----

  /** The document's open review may be approved. */
  ghost predicate MayApprove(s: State, review: nat, reason: string, today: int, id: nat) {
    MayDecide(s, review, Approved, reason, today) && s.reviews[review].document == id
  }

  /** The step is an approval of the document, with nothing missing from its file at that moment. */
  ghost predicate Approves(r: Racing, move: Move, id: nat) {
    || (&& move.Locked? && move.action.Decide? && move.action.decision == Approved
        && MayApprove(r.state, move.action.review, move.action.reason, move.action.today, id)
        && !(move.action.desk == ReviewQueue && IsOwnWork(r.state, move.action.review, move.action.actor)))
    || (&& move.Write? && move.request in r.pending && r.pending[move.request].ToDecide?
        && var wish := r.pending[move.request];
           wish.decision == Approved && MayApprove(r.state, wish.review, wish.reason, move.today, id))
  }

  /** The step saves an edit of the document that was loaded while the document was public. */
  ghost predicate RestoresPublic(r: Racing, move: Move, id: nat) {
    && move.Write? && move.request in r.pending && r.pending[move.request].ToEdit?
    && var wish := r.pending[move.request]; wish.id == id && id in r.state.documents && wish.seen.status == Published
  }

  lemma LockedMakesPublicIff(s: State, a: Action, id: nat)
    requires !IsPublic(s, id)
    ensures IsPublic(Publication.Step(s, a), id) <==>
              && a.Decide? && a.decision == Approved && MayApprove(s, a.review, a.reason, a.today, id)
              && !(a.desk == ReviewQueue && IsOwnWork(s, a.review, a.actor))
  {
  }

  lemma WriteMakesPublicIff(s: State, wish: Pending, file: File, at: int, today: int, id: nat)
    requires !IsPublic(s, id)
    ensures IsPublic(Written(s, wish, file, at, today), id) <==>
              || (wish.ToDecide? && wish.decision == Approved && MayApprove(s, wish.review, wish.reason, today, id))
              || (wish.ToEdit? && wish.id == id && id in s.documents && wish.seen.status == Published)
  {
  }

  /** A document that is not public becomes so exactly by an approval or by such an edit. */
  lemma MakesPublicIff(r: Racing, move: Move, id: nat)
    requires !IsPublic(r.state, id)
    ensures IsPublic(Step(r, move).state, id) <==> Approves(r, move, id) || RestoresPublic(r, move, id)
  {
    if move.Locked? {
      LockedMakesPublicIff(r.state, move.action, id);
    } else if move.Write? && move.request in r.pending {
      WriteMakesPublicIff(r.state, r.pending[move.request], move.file, move.at, move.today, id);
    }
  }

  /** The day an approval is judged by. */
  function DayOf(move: Move): int {
    if move.Write? then move.today else if move.Locked? && move.action.Decide? then move.action.today else 0
  }

  /** Approving goes through the locked gate: nothing is missing from the file at that moment. */
  lemma ApprovesPublishable(r: Racing, move: Move, id: nat)
    requires Approves(r, move, id)
    ensures id in r.state.documents && Publishable(r.state.documents[id].file, DayOf(move))
  {
    NothingMissingIffPublishable(r.state.documents[id].file, DayOf(move));
  }

  lemma LastMoveApproves(moves: seq<Move>, id: nat)
    requires NoneStale(moves) && IsPublic(Run(moves).state, id)
    ensures moves != []
    ensures var before := moves[..|moves| - 1];
            IsPublic(Run(before).state, id) || Approves(Run(before), moves[|moves| - 1], id)
  {
    var before := moves[..|moves| - 1];
    if !IsPublic(Run(before).state, id) {
      MakesPublicIff(Run(before), moves[|moves| - 1], id);
    }
  }

  ghost predicate PublicSince(moves: seq<Move>, k: nat, id: nat) {
    forall j | k < j <= |moves| :: IsPublic(Run(moves[..j]).state, id)
  }

  lemma PublicStays(before: seq<Move>, last: Move, k: nat, id: nat)
    requires PublicSince(before, k, id) && IsPublic(Run(before + [last]).state, id)
    ensures PublicSince(before + [last], k, id)
  {
    var moves := before + [last];
    forall j | k < j <= |moves| ensures IsPublic(Run(moves[..j]).state, id) {
      assert moves[..j] == if j <= |before| then before[..j] else moves;
    }
  }

  /** In a run without stale writes a public document was approved, and has stayed public ever since. */
  lemma {:induction false} PublicByApproval(moves: seq<Move>, id: nat) returns (k: nat)
    requires NoneStale(moves) && IsPublic(Run(moves).state, id)
    ensures k < |moves| && Approves(Run(moves[..k]), moves[k], id)
    ensures PublicSince(moves, k, id)
  {
    LastMoveApproves(moves, id);
    var before, last := moves[..|moves| - 1], moves[|moves| - 1];
    assert moves == before + [last];
    if IsPublic(Run(before).state, id) {
      k := PublicByApproval(before, id);
      assert before[..k] == moves[..k];
      PublicStays(before, last, k, id);
    } else {
      k := |before|;
      assert moves[..|moves|] == moves;
    }
  }

  // ----- runs that fail -----

  /** A submission checked while the document was withdrawn and written after it was archived. */
  lemma StaleSubmissionRevives(
    r: Racing, id: nat, actor: nat, request: nat, closer: nat, reason: string, at: int, file: File, later: int,
    day: int)
    requires Sound(r) && request !in r.pending && !IsBlank(reason)
    requires MaySubmit(r.state, id) && r.state.documents[id].status == Withdrawn
    ensures var checked := Step(r, Check(request, ToSubmit(id, actor)));
            var archived := Step(checked, Locked(Archive(id, reason, Some(closer), at)));
            var written := Step(archived, Write(request, file, later, day));
            InArchive(archived.state, id) && StatusOf(written.state, id) == Submitted
  {
  }

  lemma RefusalMovesOn(s: State, review: nat, reason: string, actor: nat, at: int, day: int)
    requires Coherent(s) && MayDecide(s, review, Refused, reason, day)
    ensures var id, t := s.reviews[review].document, Decided(s, review, Refused, reason, actor, at, day);
            && Coherent(t) && t.reviews.Keys == s.reviews.Keys
            && id in t.documents && t.documents[id].status == Rejected && s.documents[id].status == Submitted
  {
    DecidedKeeps(s, review, Refused, reason, actor, at, day);
  }

  /** An opening that passed its check and is written after another review refused the document. */
  lemma StaleOpeningFindsNoSubmission(
    r: Racing, id: nat, review: nat, actor: nat, request: nat, other: nat, reason: string, decider: nat, at: int,
    file: File, later: int, day: int)
    requires Sound(r) && request in r.pending && r.pending[request] == ToOpen(id, review, actor)
    requires review !in r.state.reviews
    requires MayDecide(r.state, other, Refused, reason, day) && r.state.reviews[other].document == id
    ensures var refused := Step(r, Locked(Decide(other, Refused, reason, decider, AdminSite, at, day)));
            && Passes(r.state, r.pending[request])
            && Coherent(refused.state) && !Coherent(Step(refused, Write(request, file, later, day)).state)
  {
    AdminDecides(r, other, Refused, reason, decider, at, day);
    RefusalMovesOn(r.state, other, reason, decider, at, day);
    var refused := r.(state := Decided(r.state, other, Refused, reason, decider, at, day));
    LateOpeningBreaks(refused, id, review, actor, request, file, later, day);
  }

  lemma AdminDecides(r: Racing, review: nat, decision: ReviewStatus, reason: string, actor: nat, at: int, day: int)
    ensures Step(r, Locked(Decide(review, decision, reason, actor, AdminSite, at, day)))
         == r.(state := Decided(r.state, review, decision, reason, actor, at, day))
  {
  }

  lemma LateOpeningBreaks(
    r: Racing, id: nat, review: nat, actor: nat, request: nat, file: File, later: int, day: int)
    requires Coherent(r.state) && request in r.pending && r.pending[request] == ToOpen(id, review, actor)
    requires id in r.state.documents && r.state.documents[id].status != Submitted && review !in r.state.reviews
    ensures !Coherent(Step(r, Write(request, file, later, day)).state)
  {
    UnguardedOpenIffSubmitted(r.state, id, review, actor);
  }

  lemma StaleEditIsUnlogged(s: State, id: nat, seen: Document, file: File)
    requires Coherent(s) && Replays(s) && id in s.documents && SeenDated(ToEdit(id, seen))
    requires s.documents[id].status != seen.status
    ensures var saved := EditWrite(s, id, seen, file);
            saved.documents[id].status == seen.status && saved.audit == s.audit && !Replays(saved)
  {
    EditWriteKeeps(s, id, seen, file);
  }

  lemma WithdrawalMovesOn(s: State, id: nat, reason: string, closer: nat, at: int)
    requires Coherent(s) && Replays(s) && IsPublic(s, id) && !IsBlank(reason)
    ensures var t := WithdrawStep(s, id, reason, Some(closer), at);
            Coherent(t) && Replays(t) && id in t.documents && t.documents[id].status == Withdrawn
  {
    WithdrawKeeps(s, id, reason, Some(closer), at);
    WithdrawIsLogged(s, id, reason, Some(closer), at);
    LoggedReplays(s, WithdrawStep(s, id, reason, Some(closer), at));
  }

  /** An edit that loaded the document while it was public and is saved after its withdrawal makes it public again. */
  lemma StaleEditRepublishes(
    r: Racing, id: nat, request: nat, closer: nat, reason: string, at: int, file: File, later: int, day: int)
    requires Sound(r) && request !in r.pending && IsPublic(r.state, id) && !IsBlank(reason)
    ensures var loaded := Step(r, Check(request, ToEdit(id, r.state.documents[id])));
            var withdrawn := Step(loaded, Locked(Withdraw(id, reason, Some(closer), at)));
            var saved := Step(withdrawn, Write(request, file, later, day));
            && !IsPublic(withdrawn.state, id) && IsPublic(saved.state, id)
            && saved.state.audit == withdrawn.state.audit && !Replays(saved.state)
  {
    WithdrawalMovesOn(r.state, id, reason, closer, at);
    StaleEditIsUnlogged(WithdrawStep(r.state, id, reason, Some(closer), at), id, r.state.documents[id], file);
  }

  /** An assignment checked on an open review and written after its decision rewrites the closed review. */
  lemma StaleAssignmentRewrites(
    r: Racing, review: nat, actor: nat, request: nat, reason: string, decider: nat, at: int,
    file: File, later: int, day: int)
    requires Sound(r) && request !in r.pending && MayDecide(r.state, review, Cancelled, reason, day)
    requires r.state.reviews[review].reviewer != Some(actor)
    ensures var checked := Step(r, Check(request, ToAssign(review, actor)));
            var closed := Step(checked, Locked(Decide(review, Cancelled, reason, decider, AdminSite, at, day)));
            var written := Step(closed, Write(request, file, later, day));
            && review in closed.state.reviews && closed.state.reviews[review].status == Cancelled
            && !KeepsClosed(closed.state, written.state)
  {
    var checked := Step(r, Check(request, ToAssign(review, actor)));
    AdminDecides(checked, review, Cancelled, reason, decider, at, day);
    AssignWriteClosed(Decided(r.state, review, Cancelled, reason, decider, at, day), review, actor);
  }

  // ----- separation of duties -----

  /** The step publishes the document by a decision of a user linked to one of its authors. */
  ghost predicate SelfPublishes(r: Racing, move: Move, id: nat) {
    && !IsPublic(r.state, id) && IsPublic(Step(r, move).state, id)
    && ((&& move.Locked? && move.action.Decide? && AuthoredBy(r.state.documents[id].file, move.action.actor))
        || (&& move.Write? && move.request in r.pending && r.pending[move.request].ToDecide?
            && AuthoredBy(r.state.documents[id].file, r.pending[move.request].actor)))
  }

  /** The open review of this document may be approved and the actor is one of its authors. */
  ghost predicate ApprovesOwn(s: State, review: nat, reason: string, actor: nat, today: int, id: nat) {
    MayDecide(s, review, Approved, reason, today) && s.reviews[review].document == id && IsOwnWork(s, review, actor)
  }

  /**
   A user publishes work of their own exactly by approving at the admin site, or by a queue decision
   whose check came before the user was linked to one of the authors.
   */
  lemma SelfPublicationIff(r: Racing, move: Move, id: nat)
    requires Sound(r) && id in r.state.documents
    ensures SelfPublishes(r, move, id) <==>
              || (&& move.Locked? && move.action.Decide? && move.action.desk == AdminSite
                  && move.action.decision == Approved
                  && ApprovesOwn(r.state, move.action.review, move.action.reason, move.action.actor,
                       move.action.today, id))
              || (&& move.Write? && move.request in r.pending && r.pending[move.request].ToDecide?
                  && r.pending[move.request].decision == Approved
                  && var wish := r.pending[move.request];
                     ApprovesOwn(r.state, wish.review, wish.reason, wish.actor, move.today, id))
  {
  }
}
