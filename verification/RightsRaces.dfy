/**
 Declaring and ruling on the rights of one document, request by request. Both views read the row in
 one statement and save all of it in another, with no lock in between; a document has one row.
 */
module RightsRaces {
  import opened Prelude
  import opened Strings
  import opened Catalog
  import P = Publication

  /** A declaration that was let through, having found a row or none; a ruling, with the row it has loaded. */
  datatype Pending =
    | ToDeclare(rights: Rights, moderator: bool, found: bool)
    | ToRule(seen: Rights, accept: bool, decision: string, reference: string, rejection: string)

  datatype State = State(row: Option<Rights>, pending: map<nat, Pending>)

  datatype Move =
    | CheckDeclaration(request: nat, rights: Rights, moderator: bool)
    | LoadRuling(request: nat, accept: bool, decision: string, reference: string, rejection: string)
    | Write(request: nat, today: int)

  const START := State(None, map[])

  ghost predicate IsApproved(row: Option<Rights>) {
    row.Some? && row.value.authorization == RightsApproved
  }

  /** A declaration that found no row inserts one, in vain if there is one by then; all else saves every column. */
  function Written(row: Option<Rights>, wish: Pending, today: int): Option<Rights> {
    match wish
    case ToDeclare(rights, _, found) => if row.Some? && !found then row else Some(P.Declared(rights))
    case ToRule(seen, accept, decision, reference, rejection) =>
      Some(P.Ruled(seen, accept, decision, reference, rejection, today))
  }

  function Step(s: State, move: Move): State {
    match move
    case CheckDeclaration(request, rights, moderator) =>
      if request in s.pending || (s.row.Some? && s.row.value.authorization == RightsApproved && !moderator) then s
      else s.(pending := s.pending[request := ToDeclare(rights, moderator, s.row.Some?)])
    case LoadRuling(request, accept, decision, reference, rejection) =>
      if request in s.pending || s.row.None? || !P.MayRule(accept, decision, reference, rejection) then s
      else s.(pending := s.pending[request := ToRule(s.row.value, accept, decision, reference, rejection)])
    case Write(request, today) =>
      if request !in s.pending then s
      else State(Written(s.row, s.pending[request], today), s.pending - {request})
  }

  function Run(moves: seq<Move>): State {
    if moves == [] then START else Step(Run(moves[..|moves| - 1]), moves[|moves| - 1])
  }

  // ----- approval comes from a ruling, in every interleaving -----

  /** The step saves an accepting ruling that has its decision and its reference. */
  ghost predicate Accepts(s: State, move: Move) {
    && move.Write? && move.request in s.pending && s.pending[move.request].ToRule?
    && s.pending[move.request].accept && s.pending[move.request].decision != ""
    && !IsBlank(s.pending[move.request].reference)
  }

  /** Rulings under way have what a ruling needs. */
  ghost predicate Sound(s: State) {
    forall request | request in s.pending && s.pending[request].ToRule? ::
      var p := s.pending[request];
      p.decision != "" && (p.accept ==> !IsBlank(p.reference)) && (!p.accept ==> !IsBlank(p.rejection))
  }

  lemma {:induction false} RunSound(moves: seq<Move>)
    ensures Sound(Run(moves))
  {
    if moves != [] {
      RunSound(moves[..|moves| - 1]);
    }
  }

  lemma ApprovedAfterStep(s: State, move: Move)
    requires Sound(s) && IsApproved(Step(s, move).row)
    ensures if Accepts(s, move) then
              && Step(s, move).row.value.authorizationDate == Some(move.today)
              && Step(s, move).row.value.auditReference == s.pending[move.request].reference
            else Step(s, move).row == s.row
  {
  }

  /** However requests interleave, approved rights were approved by an accepting ruling, and not written since. */
  lemma {:induction false} ApprovedByRuling(moves: seq<Move>) returns (k: nat)
    requires IsApproved(Run(moves).row)
    ensures k < |moves| && Accepts(Run(moves[..k]), moves[k])
    ensures Run(moves).row.value.authorizationDate == Some(moves[k].today)
    ensures Run(moves).row.value.auditReference == Run(moves[..k]).pending[moves[k].request].reference
    ensures Run(moves[..k + 1]).row == Run(moves).row
  {
    var front, last := moves[..|moves| - 1], moves[|moves| - 1];
    RunSound(front);
    ApprovedAfterStep(Run(front), last);
    assert moves[..|moves|] == moves;
    if Accepts(Run(front), last) {
      k := |front|;
    } else {
      k := ApprovedByRuling(front);
      assert front[..k] == moves[..k] && front[..k + 1] == moves[..k + 1];
    }
  }

  // ----- what a late write undoes -----

  /** A declaration of someone who is no moderator, checked before the approval that it overwrites. */
  ghost predicate IsLateDeclaration(s: State, move: Move) {
    && move.Write? && move.request in s.pending && s.pending[move.request].ToDeclare?
    && IsApproved(s.row) && !s.pending[move.request].moderator && s.pending[move.request].found
  }

  /** A ruling on a row that says something else by now. */
  ghost predicate IsLateRuling(s: State, move: Move) {
    && move.Write? && move.request in s.pending && s.pending[move.request].ToRule?
    && s.row.Some? && !P.SaysTheSame(s.row.value, s.pending[move.request].seen)
  }

  /** The approval stands, or a moderator declares anew, or there is another ruling. */
  ghost predicate KeepsApproval(s: State, move: Move) {
    IsApproved(s.row) && !IsApproved(Step(s, move).row) ==>
      && move.Write? && move.request in s.pending
      && (s.pending[move.request].ToRule? || s.pending[move.request].moderator)
  }

  /** A ruling leaves what was declared as it is. */
  ghost predicate KeepsDeclared(s: State, move: Move) {
    move.Write? && move.request in s.pending && s.pending[move.request].ToRule? && s.row.Some? ==>
      Step(s, move).row.Some? && P.SaysTheSame(s.row.value, Step(s, move).row.value)
  }

  lemma ApprovalKeptIff(s: State, move: Move)
    ensures KeepsApproval(s, move) <==> !IsLateDeclaration(s, move)
  {
  }

  lemma DeclaredKeptIff(s: State, move: Move)
    ensures KeepsDeclared(s, move) <==> !IsLateRuling(s, move)
  {
  }

  ghost predicate AllKept(moves: seq<Move>) {
    moves == []
    || (var before, last := moves[..|moves| - 1], moves[|moves| - 1];
        AllKept(before) && KeepsApproval(Run(before), last) && KeepsDeclared(Run(before), last))
  }

  ghost predicate NoneLate(moves: seq<Move>) {
    moves == []
    || (var before, last := moves[..|moves| - 1], moves[|moves| - 1];
        NoneLate(before) && !IsLateDeclaration(Run(before), last) && !IsLateRuling(Run(before), last))
  }

  /**
   For every interleaving: approvals stand against all but moderators and later rulings, and every
   ruling leaves the declaration as it is, iff no write comes too late.
   */
  lemma {:induction false} RightsKeptIffNoneLate(moves: seq<Move>)
    ensures AllKept(moves) <==> NoneLate(moves)
  {
    if moves != [] {
      RightsKeptIffNoneLate(moves[..|moves| - 1]);
      ApprovalKeptIff(Run(moves[..|moves| - 1]), moves[|moves| - 1]);
      DeclaredKeptIff(Run(moves[..|moves| - 1]), moves[|moves| - 1]);
    }
  }

  // ----- runs that fail -----

  lemma RunAppend(moves: seq<Move>, move: Move)
    ensures Run(moves + [move]) == Step(Run(moves), move)
  {
    assert (moves + [move])[..|moves|] == moves;
  }

  /** The declaration is made, and a moderator has loaded it to approve it. */
  function ToLoaded(rights: Rights, decision: string, reference: string): seq<Move> {
    [CheckDeclaration(0, rights, false)] + [Write(0, 0)] + [LoadRuling(1, true, decision, reference, "")]
  }

  lemma ReachesLoaded(rights: Rights, decision: string, reference: string)
    requires decision != "" && !IsBlank(reference)
    ensures Run(ToLoaded(rights, decision, reference))
         == State(Some(P.Declared(rights)), map[1 := ToRule(P.Declared(rights), true, decision, reference, "")])
  {
    RunAppend([], CheckDeclaration(0, rights, false));
    assert [] + [CheckDeclaration(0, rights, false)] == [CheckDeclaration(0, rights, false)];
    RunAppend([CheckDeclaration(0, rights, false)], Write(0, 0));
    RunAppend([CheckDeclaration(0, rights, false)] + [Write(0, 0)], LoadRuling(1, true, decision, reference, ""));
  }

  /** Another declaration in between: what is approved is the first, and the later one is gone. */
  lemma StaleRulingRestores(first: Rights, second: Rights, decision: string, reference: string)
    requires decision != "" && !IsBlank(reference) && !P.SaysTheSame(first, second)
    ensures var before := ToLoaded(first, decision, reference) + [CheckDeclaration(2, second, false)] + [Write(2, 0)];
            && Run(before).row.Some? && P.SaysTheSame(Run(before).row.value, second)
            && IsApproved(Run(before + [Write(1, 0)]).row)
            && P.SaysTheSame(Run(before + [Write(1, 0)]).row.value, first)
  {
    ReachesLoaded(first, decision, reference);
    RunAppend(ToLoaded(first, decision, reference), CheckDeclaration(2, second, false));
    RunAppend(ToLoaded(first, decision, reference) + [CheckDeclaration(2, second, false)], Write(2, 0));
    RunAppend(ToLoaded(first, decision, reference) + [CheckDeclaration(2, second, false)] + [Write(2, 0)], Write(1, 0));
  }

  /** A declaration checked before the approval and written after it takes the approval away, without a moderator. */
  lemma StaleDeclarationWithdraws(first: Rights, second: Rights, decision: string, reference: string)
    requires decision != "" && !IsBlank(reference)
    ensures var before := ToLoaded(first, decision, reference) + [CheckDeclaration(2, second, false)] + [Write(1, 0)];
            && IsApproved(Run(before).row) && !IsApproved(Run(before + [Write(2, 0)]).row)
  {
    ReachesLoaded(first, decision, reference);
    RunAppend(ToLoaded(first, decision, reference), CheckDeclaration(2, second, false));
    RunAppend(ToLoaded(first, decision, reference) + [CheckDeclaration(2, second, false)], Write(1, 0));
    RunAppend(ToLoaded(first, decision, reference) + [CheckDeclaration(2, second, false)] + [Write(1, 0)], Write(2, 0));
  }
}
