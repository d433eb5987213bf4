/** The failing interleavings of the staff views, carried out from an empty catalogue. */
module StaleRuns {
  import opened Prelude
  import opened Strings
  import opened Catalog
  import P = Publication
  import opened Races

  /** What user 1 deposits and user 2 decides with. */
  datatype Deposit = Deposit(file: File, rights: Rights, reason: string)

  function Approved(d: Deposit): Rights {
    P.Ruled(P.Declared(d.rights), true, d.reason, d.reason, "", 0)
  }

  /** The file once its rights are declared and approved. */
  function Ready(d: Deposit): File {
    d.file.(rights := Some(Approved(d)))
  }

  /** Nothing is missing from the file, user 2 is none of its authors, and the reason says something. */
  ghost predicate IsComplete(d: Deposit) {
    && MissingDeposit(Ready(d)) == [] && MissingPublication(Ready(d), 0) == []
    && !AuthoredBy(Ready(d), 2) && !IsBlank(d.reason)
  }

  /** Every publishable file by other authors will do. */
  lemma PublishableIsComplete(d: Deposit)
    requires Publishable(Ready(d), 0) && !AuthoredBy(d.file, 2) && !IsBlank(d.reason)
    ensures IsComplete(d)
  {
    NothingMissingIffPublishable(Ready(d), 0);
  }

  /** One such deposit. */
  function Sample(): Deposit {
    var file := File("t", Some(0), Some(0), VoluntaryTeacherDeposit, Free, [Authorship(MainAuthor, None)], None);
    Deposit(file, Rights("h", PendingReview, None, Free, "w", "", "", "", "", None, None), "r")
  }

  lemma SampleIsComplete()
    ensures IsComplete(Sample())
  {
    var d := Sample();
    assert d.file.authors[0].role == MainAuthor && 'r' == d.reason[0];
    PublishableIsComplete(d);
  }

  // ----- the prefixes, one locked step after the other -----

  function ToDraft(d: Deposit): seq<Move> {
    [Locked(P.Create(0, d.file, 1))]
  }

  function ToDeclared(d: Deposit): seq<Move> {
    ToDraft(d) + [Locked(P.Declare(0, d.rights, 1, false))]
  }

  function ToReady(d: Deposit): seq<Move> {
    ToDeclared(d) + [Locked(P.Rule(0, true, d.reason, d.reason, "", 2, 0))]
  }

  function ToSubmitted(d: Deposit): seq<Move> {
    ToReady(d) + [Locked(P.Submit(0, 1))]
  }

  function ToUnderReview(d: Deposit): seq<Move> {
    ToSubmitted(d) + [Locked(P.OpenReview(0, 0, 2))]
  }

  function ToPublic(d: Deposit): seq<Move> {
    ToUnderReview(d) + [Locked(P.Decide(0, P.Approved, "", 2, P.ReviewQueue, 0, 0))]
  }

  function ToWithdrawn(d: Deposit): seq<Move> {
    ToPublic(d) + [Locked(P.Withdraw(0, d.reason, Some(2), 1))]
  }

  /** The run is free of stale writes and holds document 0 alone, as given. */
  ghost predicate Reaches(moves: seq<Move>, document: Document) {
    NoneStale(moves) && Run(moves).pending == map[] && Run(moves).state.documents == map[0 := document]
  }

  /** Review 0 is the only one, open, on document 0, and nobody's yet. */
  ghost predicate OneReview(s: P.State) {
    && s.reviews.Keys == {0} && s.reviews[0].document == 0 && s.reviews[0].status == P.Open
    && s.reviews[0].reviewer == None
  }

  lemma RunAppend(moves: seq<Move>, move: Move)
    ensures Run(moves + [move]) == Races.Step(Run(moves), move)
    ensures NoneStale(moves) && !move.Write? ==> NoneStale(moves + [move])
  {
    assert (moves + [move])[..|moves|] == moves;
  }

  lemma ReachesDraft(d: Deposit)
    ensures Reaches(ToDraft(d), Document(d.file.(rights := None), Draft, None, None))
    ensures Run(ToDraft(d)).state.reviews == map[]
  {
    assert [] + ToDraft(d) == ToDraft(d);
    RunAppend([], ToDraft(d)[0]);
  }

  lemma ReachesDeclared(d: Deposit)
    ensures Reaches(ToDeclared(d), Document(d.file.(rights := Some(P.Declared(d.rights))), Draft, None, None))
    ensures Run(ToDeclared(d)).state.reviews == map[]
  {
    ReachesDraft(d);
    RunAppend(ToDraft(d), Locked(P.Declare(0, d.rights, 1, false)));
  }

  lemma ReachesReady(d: Deposit)
    requires IsComplete(d)
    ensures Reaches(ToReady(d), Document(Ready(d), Draft, None, None))
    ensures Run(ToReady(d)).state.reviews == map[]
  {
    ReachesDeclared(d);
    NotBlankIsNotEmpty(d.reason);
    RunAppend(ToDeclared(d), Locked(P.Rule(0, true, d.reason, d.reason, "", 2, 0)));
  }

  lemma NotBlankIsNotEmpty(s: string)
    requires !IsBlank(s)
    ensures s != ""
  {
  }

  lemma ReachesSubmitted(d: Deposit)
    requires IsComplete(d)
    ensures Reaches(ToSubmitted(d), Document(Ready(d), Submitted, None, None))
    ensures Run(ToSubmitted(d)).state.reviews == map[]
  {
    ReachesReady(d);
    RunAppend(ToReady(d), Locked(P.Submit(0, 1)));
  }

  lemma ReachesUnderReview(d: Deposit)
    requires IsComplete(d)
    ensures Reaches(ToUnderReview(d), Document(Ready(d), Submitted, None, None))
    ensures OneReview(Run(ToUnderReview(d)).state)
  {
    ReachesSubmitted(d);
    RunAppend(ToSubmitted(d), Locked(P.OpenReview(0, 0, 2)));
  }

  lemma ReachesPublic(d: Deposit)
    requires IsComplete(d)
    ensures Reaches(ToPublic(d), Document(Ready(d), Published, Some(0), None))
  {
    ReachesUnderReview(d);
    RunAppend(ToUnderReview(d), Locked(P.Decide(0, P.Approved, "", 2, P.ReviewQueue, 0, 0)));
  }

  lemma ReachesWithdrawn(d: Deposit)
    requires IsComplete(d)
    ensures Reaches(ToWithdrawn(d), Document(Ready(d), Withdrawn, Some(0), Some(1)))
  {
    ReachesPublic(d);
    RunAppend(ToPublic(d), Locked(P.Withdraw(0, d.reason, Some(2), 1)));
  }

  // ----- the failing runs -----

  lemma RunAppendThree(moves: seq<Move>, a: Move, b: Move, c: Move)
    ensures Run(moves + [a] + [b]) == Races.Step(Races.Step(Run(moves), a), b)
    ensures Run(moves + [a] + [b] + [c]) == Races.Step(Run(moves + [a] + [b]), c)
  {
    RunAppend(moves, a);
    RunAppend(moves + [a], b);
    RunAppend(moves + [a] + [b], c);
  }

  /** An edit loaded while the document was public and saved after its withdrawal: public again, and not logged. */
  lemma EditRepublishes(d: Deposit)
    requires IsComplete(d)
    ensures var public := Document(Ready(d), Published, Some(0), None);
            var withdrawn := ToPublic(d) + [Check(0, ToEdit(0, public))]
              + [Locked(P.Withdraw(0, d.reason, Some(2), 1))];
            var saved := withdrawn + [Write(0, d.file, 2, 0)];
            && !P.IsPublic(Run(withdrawn).state, 0)
            && P.IsPublic(Run(saved).state, 0) && !P.Replays(Run(saved).state)
  {
    var public := Document(Ready(d), Published, Some(0), None);
    ReachesPublic(d);
    RunSound(ToPublic(d));
    RunAppendThree(ToPublic(d), Check(0, ToEdit(0, public)), Locked(P.Withdraw(0, d.reason, Some(2), 1)),
                   Write(0, d.file, 2, 0));
    StaleEditRepublishes(Run(ToPublic(d)), 0, 0, 2, d.reason, 1, d.file, 2, 0);
  }

  /** A submission checked on the withdrawn document and written after its archiving. */
  lemma SubmissionRevives(d: Deposit)
    requires IsComplete(d)
    ensures var archived := ToWithdrawn(d) + [Check(0, ToSubmit(0, 1))]
              + [Locked(P.Archive(0, d.reason, Some(2), 2))];
            && InArchive(Run(archived).state, 0)
            && P.StatusOf(Run(archived + [Write(0, d.file, 3, 0)]).state, 0) == Submitted
  {
    ReachesWithdrawn(d);
    RunSound(ToWithdrawn(d));
    RunAppendThree(ToWithdrawn(d), Check(0, ToSubmit(0, 1)), Locked(P.Archive(0, d.reason, Some(2), 2)),
                   Write(0, d.file, 3, 0));
    StaleSubmissionRevives(Run(ToWithdrawn(d)), 0, 1, 0, 2, d.reason, 2, d.file, 3, 0);
  }

  /** An assignment checked on the open review and written after its cancellation. */
  lemma AssignmentRewrites(d: Deposit)
    requires IsComplete(d)
    ensures var closed := ToUnderReview(d) + [Check(0, ToAssign(0, 3))]
              + [Locked(P.Decide(0, P.Cancelled, "", 2, P.AdminSite, 0, 0))];
            && 0 in Run(closed).state.reviews && Run(closed).state.reviews[0].status == P.Cancelled
            && !P.KeepsClosed(Run(closed).state, Run(closed + [Write(0, d.file, 1, 0)]).state)
  {
    ReachesUnderReview(d);
    RunSound(ToUnderReview(d));
    RunAppendThree(ToUnderReview(d), Check(0, ToAssign(0, 3)),
                   Locked(P.Decide(0, P.Cancelled, "", 2, P.AdminSite, 0, 0)), Write(0, d.file, 1, 0));
    StaleAssignmentRewrites(Run(ToUnderReview(d)), 0, 3, 0, "", 2, 0, d.file, 1, 0);
  }

  /** An opening checked on the submitted document and written after another review refused it. */
  lemma OpeningFindsNoSubmission(d: Deposit)
    requires IsComplete(d)
    ensures var refused := ToSubmitted(d) + [Check(0, ToOpen(0, 1, 3))] + [Locked(P.OpenReview(0, 0, 2))]
              + [Locked(P.Decide(0, P.Refused, d.reason, 2, P.AdminSite, 0, 0))];
            && P.Coherent(Run(refused).state)
            && !P.Coherent(Run(refused + [Write(0, d.file, 1, 0)]).state)
  {
    ReachesSubmitted(d);
    var before := ToSubmitted(d) + [Check(0, ToOpen(0, 1, 3))] + [Locked(P.OpenReview(0, 0, 2))];
    var refuse := Locked(P.Decide(0, P.Refused, d.reason, 2, P.AdminSite, 0, 0));
    PendingOpening(d);
    RunSound(before);
    RunAppend(before, refuse);
    RunAppend(before + [refuse], Write(0, d.file, 1, 0));
    StaleOpeningFindsNoSubmission(Run(before), 0, 1, 3, 0, 0, d.reason, 2, 0, d.file, 1, 0);
  }

  lemma PendingOpening(d: Deposit)
    requires IsComplete(d)
    ensures var before := ToSubmitted(d) + [Check(0, ToOpen(0, 1, 3))] + [Locked(P.OpenReview(0, 0, 2))];
            && NoneStale(before) && OneReview(Run(before).state)
            && Run(before).pending == map[0 := ToOpen(0, 1, 3)]
            && Run(before).state.documents == map[0 := Document(Ready(d), Submitted, None, None)]
  {
    ReachesSubmitted(d);
    RunAppend(ToSubmitted(d), Check(0, ToOpen(0, 1, 3)));
    RunAppend(ToSubmitted(d) + [Check(0, ToOpen(0, 1, 3))], Locked(P.OpenReview(0, 0, 2)));
  }
}
