/**
 Attaching and detaching the authors of one document, request by request. An attachment reads the
 highest position in one statement and inserts in another; the transaction of a detachment deletes
 its row and lists the others in its first statements and commits their new positions later. Only
 the deleted row is locked in between. A detachment whose row is gone by then deletes nothing and,
 positions being 1 to n, writes nothing. The rows are held by ascending position.
 */
module AuthorRaces {
  import opened Prelude

  datatype Row = Row(id: nat, author: nat, position: nat)

  type Rows = seq<Row>

  /** An attachment that has read the highest position, or a detachment under way with its deleted row and its list. */
  datatype Pending =
    | ToInsert(author: nat, position: nat)
    | ToRenumber(entry: Row, listed: Rows)

  datatype State = State(rows: Rows, nextId: nat, pending: map<nat, Pending>)

  datatype Move =
    | Read(request: nat, author: nat)
    | Insert(request: nat)
    | Delete(request: nat, author: nat)
    | Commit(request: nat)

  // ----- tables -----

  /** Positions are 1, 2, 3, … in order. */
  ghost predicate Contiguous(rows: Rows) {
    forall i | 0 <= i < |rows| :: rows[i].position == i + 1
  }

  ghost predicate Distinct(rows: Rows) {
    forall i, j | 0 <= i < j < |rows| :: rows[i].author != rows[j].author && rows[i].id != rows[j].id
  }

  ghost predicate Valid(rows: Rows) {
    Contiguous(rows) && Distinct(rows)
  }

  predicate HasAuthor(rows: Rows, author: nat) {
    exists i | 0 <= i < |rows| :: rows[i].author == author
  }

  predicate HasId(rows: Rows, id: nat) {
    exists i | 0 <= i < |rows| :: rows[i].id == id
  }

  predicate IsTaken(rows: Rows, position: nat) {
    exists i | 0 <= i < |rows| :: rows[i].position == position
  }

  function MaxPosition(rows: Rows): (r: nat)
    ensures forall i | 0 <= i < |rows| :: rows[i].position <= r
    ensures if rows == [] then r == 0 else IsTaken(rows, r)
  {
    if rows == [] then 0
    else
      var rest := MaxPosition(rows[1..]);
      assert rows[0].position == Max(rows[0].position, rest) || rest == Max(rows[0].position, rest);
      assert rest > 0 && rows[1..] != [] ==> IsTaken(rows, rest) by {
        if rest > 0 && rows[1..] != [] {
          var i :| 0 <= i < |rows[1..]| && rows[1..][i].position == rest;
          assert rows[i + 1].position == rest;
        }
      }
      Max(rows[0].position, rest)
  }

  // ----- inserting -----

  /** The row at its place in the order of positions. */
  function Placed(rows: Rows, row: Row): Rows {
    if rows == [] || row.position < rows[0].position then [row] + rows else [rows[0]] + Placed(rows[1..], row)
  }

  /** One of the two unique constraints refuses the row. */
  predicate IsRefused(rows: Rows, author: nat, position: nat) {
    HasAuthor(rows, author) || IsTaken(rows, position)
  }

  function Inserted(rows: Rows, id: nat, author: nat, position: nat): Rows {
    if IsRefused(rows, author, position) then rows else Placed(rows, Row(id, author, position))
  }

  // ----- renumbering -----

  function Without(rows: Rows, id: nat): Rows {
    if rows == [] then []
    else if rows[0].id == id then Without(rows[1..], id) else [rows[0]] + Without(rows[1..], id)
  }

  function IndexOf(rows: Rows, id: nat): (i: nat)
    ensures i <= |rows| && (i < |rows| ==> rows[i].id == id)
    ensures forall j | 0 <= j < i :: rows[j].id != id
  {
    if rows == [] || rows[0].id == id then 0 else 1 + IndexOf(rows[1..], id)
  }

  /** One UPDATE by primary key: it fails when the row is gone or the position taken. */
  function Moved(rows: Rows, id: nat, position: nat): Option<Rows> {
    var i := IndexOf(rows, id);
    if i == |rows| || IsTaken(rows, position) then None else Some(rows[i := rows[i].(position := position)])
  }

  /** The renumbering loop from the k-th listed row on; a failed write fails the whole. */
  function Renumbered(rows: Rows, listed: Rows, k: nat): Option<Rows>
    decreases |listed| - k
  {
    if k >= |listed| then Some(rows)
    else if listed[k].position == k + 1 then Renumbered(rows, listed, k + 1)
    else
      match Moved(rows, listed[k].id, k + 1)
      case None => None
      case Some(moved) => Renumbered(moved, listed, k + 1)
  }

  /** The table after the transaction: renumbered without the row, or rolled back. */
  function Committed(rows: Rows, entry: Row, listed: Rows): Rows {
    match Renumbered(Without(rows, entry.id), listed, 0)
    case None => rows
    case Some(r) => r
  }

  // ----- moves -----

  /** The row is deleted by a transaction that has not committed. */
  ghost predicate IsLocked(s: State, id: nat) {
    exists q | q in s.pending :: s.pending[q].ToRenumber? && s.pending[q].entry.id == id
  }

  /** The transaction has to write a row that another one has deleted: it waits. */
  ghost predicate Waits(s: State, request: nat)
    requires request in s.pending && s.pending[request].ToRenumber?
  {
    var p := s.pending[request];
    exists k | 0 <= k < |p.listed| :: p.listed[k].position != k + 1 && IsLocked(s, p.listed[k].id)
  }

  ghost function Step(s: State, move: Move): State {
    match move
    case Read(request, author) =>
      if request in s.pending then s
      else s.(pending := s.pending[request := ToInsert(author, MaxPosition(s.rows) + 1)])
    case Insert(request) =>
      if request !in s.pending || !s.pending[request].ToInsert? || AwaitsDeletion(s, s.pending[request]) then s
      else
        var p := s.pending[request];
        State(Inserted(s.rows, s.nextId, p.author, p.position), s.nextId + 1, s.pending - {request})
    case Delete(request, author) =>
      var i := FindAuthor(s.rows, author);
      if request in s.pending || i == |s.rows| || IsLocked(s, s.rows[i].id) then s
      else s.(pending := s.pending[request := ToRenumber(s.rows[i], Without(s.rows, s.rows[i].id))])
    case Commit(request) =>
      if request !in s.pending || !s.pending[request].ToRenumber? || Waits(s, request) then s
      else
        var p := s.pending[request];
        s.(rows := Committed(s.rows, p.entry, p.listed), pending := s.pending - {request})
  }

  function FindAuthor(rows: Rows, author: nat): (i: nat)
    ensures i <= |rows| && (i < |rows| ==> rows[i].author == author)
    ensures i == |rows| <==> !HasAuthor(rows, author)
  {
    if rows == [] || rows[0].author == author then 0
    else
      assert HasAuthor(rows, author) <==> HasAuthor(rows[1..], author) by {
        if i :| 0 <= i < |rows| && rows[i].author == author {
          assert rows[1..][i - 1].author == author;
        }
        if i :| 0 <= i < |rows[1..]| && rows[1..][i].author == author {
          assert rows[i + 1].author == author;
        }
      }
      1 + FindAuthor(rows[1..], author)
  }

  /** A row of the author, or at the position, is being deleted: the insertion waits for that transaction. */
  ghost predicate AwaitsDeletion(s: State, p: Pending)
    requires p.ToInsert?
  {
    exists q | q in s.pending ::
      && s.pending[q].ToRenumber?
      && (s.pending[q].entry.author == p.author || s.pending[q].entry.position == p.position)
  }

  /** A document with its first author, or none. */
  ghost predicate IsNew(s: State) {
    Valid(s.rows) && |s.rows| <= 1 && s.pending == map[] && forall i | 0 <= i < |s.rows| :: s.rows[i].id < s.nextId
  }

  ghost function Run(s: State, moves: seq<Move>): State {
    if moves == [] then s else Step(Run(s, moves[..|moves| - 1]), moves[|moves| - 1])
  }

  // ----- one insertion -----

  lemma {:induction false} PlacedLast(rows: Rows, row: Row)
    requires forall i | 0 <= i < |rows| :: rows[i].position <= row.position
    ensures Placed(rows, row) == rows + [row]
  {
    if rows != [] {
      PlacedLast(rows[1..], row);
    }
  }

  lemma MaxOfContiguous(rows: Rows)
    requires Contiguous(rows)
    ensures MaxPosition(rows) == |rows|
    ensures forall p: nat :: IsTaken(rows, p) <==> 1 <= p <= |rows|
  {
    if rows != [] {
      assert rows[|rows| - 1].position == |rows|;
    }
    forall p: nat ensures IsTaken(rows, p) <==> 1 <= p <= |rows| {
      if 1 <= p <= |rows| {
        assert rows[p - 1].position == p;
      }
    }
  }

  /**
   In a contiguous table an insertion is refused exactly when the author is there or the position
   read is not past the last.
   */
  lemma InsertionRefusedIff(rows: Rows, author: nat, position: nat)
    requires Contiguous(rows) && position >= 1
    ensures IsRefused(rows, author, position) <==> HasAuthor(rows, author) || position <= |rows|
  {
    MaxOfContiguous(rows);
  }

  lemma AppendValid(rows: Rows, row: Row)
    requires Valid(rows) && !HasAuthor(rows, row.author) && !HasId(rows, row.id)
    ensures Valid(rows + [row]) <==> row.position == |rows| + 1
  {
    var r := rows + [row];
    assert r[|rows|] == row;
    forall i, j | 0 <= i < j < |r| ensures r[i].author != r[j].author && r[i].id != r[j].id {
      assert r[i] == rows[i];
      assert j < |rows| ==> r[j] == rows[j];
    }
  }

  /** It keeps the table valid exactly when it is refused, or its position is the next one. */
  lemma InsertionKeepsIff(rows: Rows, id: nat, author: nat, position: nat)
    requires Valid(rows) && position >= 1 && !HasId(rows, id)
    ensures Valid(Inserted(rows, id, author, position)) <==> HasAuthor(rows, author) || position <= |rows| + 1
    ensures !HasAuthor(rows, author) && position == |rows| + 1 ==>
              Inserted(rows, id, author, position) == rows + [Row(id, author, position)]
  {
    InsertionRefusedIff(rows, author, position);
    if !IsRefused(rows, author, position) {
      PlacedLast(rows, Row(id, author, position));
      AppendValid(rows, Row(id, author, position));
    }
  }

  // ----- one commit -----

  /**
   The table while a deletion of row e renumbers the first m rows: the row is gone and the k rows
   written so far stand at their ranks.
   */
  function MovedUp(rows: Rows, e: nat, k: nat): (r: Rows)
    requires e < |rows|
    ensures |r| == |rows| - 1
  {
    seq(|rows| - 1, i requires 0 <= i < |rows| - 1 =>
      var row := rows[if i < e then i else i + 1]; if i < k then row.(position := i + 1) else row)
  }

  lemma {:induction false} WithoutAt(rows: Rows, e: nat)
    requires Distinct(rows) && e < |rows|
    ensures Without(rows, rows[e].id) == rows[..e] + rows[e + 1..]
  {
    var rest := rows[1..];
    if e == 0 {
      WithoutAbsent(rest, rows[0].id);
    } else {
      assert rest[e - 1] == rows[e] && rest[e..] == rows[e + 1..];
      WithoutAt(rest, e - 1);
      assert rows[..e] == [rows[0]] + rest[..e - 1];
    }
  }

  lemma {:induction false} WithoutAbsent(rows: Rows, id: nat)
    requires forall i | 0 <= i < |rows| :: rows[i].id != id
    ensures Without(rows, id) == rows
  {
    if rows != [] {
      WithoutAbsent(rows[1..], id);
    }
  }

  /** The listing of a valid table without its row e. */
  ghost predicate IsListing(rows: Rows, e: nat, listed: Rows, m: nat) {
    && e < m <= |rows| && |listed| == m - 1
    && forall k | 0 <= k < m - 1 :: listed[k] == rows[if k < e then k else k + 1]
  }

  /** The write of the k-th listed row meets no other row. */
  lemma OneMove(rows: Rows, e: nat, k: nat)
    requires Valid(rows) && e <= k < |rows| - 1
    ensures Moved(MovedUp(rows, e, k), rows[k + 1].id, k + 1) == Some(MovedUp(rows, e, k + 1))
  {
    var t := MovedUp(rows, e, k);
    assert t[k] == rows[k + 1];
    assert IndexOf(t, rows[k + 1].id) == k;
    assert forall i | 0 <= i < |t| :: t[i].position == if i < k then i + 1 else i + 2;
    assert t[k := t[k].(position := k + 1)] == MovedUp(rows, e, k + 1);
  }

  /** Over rows that are as they were listed the loop writes every rank, and no write is refused. */
  lemma {:induction false} RenumberedMovesUp(rows: Rows, e: nat, listed: Rows, m: nat, k: nat)
    requires Valid(rows) && IsListing(rows, e, listed, m) && k <= m - 1
    ensures Renumbered(MovedUp(rows, e, k), listed, k) == Some(MovedUp(rows, e, m - 1))
    decreases m - k
  {
    if k < m - 1 {
      RenumberedMovesUp(rows, e, listed, m, k + 1);
      if k < e {
        assert MovedUp(rows, e, k) == MovedUp(rows, e, k + 1);
      } else {
        OneMove(rows, e, k);
      }
    }
  }

  lemma MovedSameIds(rows: Rows, id: nat, position: nat, other: nat)
    requires Moved(rows, id, position).Some? && !HasId(rows, other)
    ensures !HasId(Moved(rows, id, position).value, other)
  {
  }

  /** A listed row that has to move and is gone fails the transaction. */
  lemma {:induction false} LostRowFails(rows: Rows, listed: Rows, k: nat, lost: nat)
    requires k <= lost < |listed| && listed[lost].position != lost + 1 && !HasId(rows, listed[lost].id)
    ensures Renumbered(rows, listed, k) == None
    decreases |listed| - k
  {
    if listed[k].position == k + 1 {
      LostRowFails(rows, listed, k + 1, lost);
    } else if k < lost {
      var moved := Moved(rows, listed[k].id, k + 1);
      if moved.Some? {
        MovedSameIds(rows, listed[k].id, k + 1, listed[lost].id);
        LostRowFails(moved.value, listed, k + 1, lost);
      }
    }
  }

  /** A row to be moved has been deleted since it was listed. */
  ghost predicate HasLost(rows: Rows, listed: Rows) {
    exists k :: 0 <= k < |listed| && listed[k].position != k + 1 && !HasId(rows, listed[k].id)
  }

  lemma {:induction false} WithoutFewer(rows: Rows, id: nat, other: nat)
    requires !HasId(rows, other)
    ensures !HasId(Without(rows, id), other)
  {
    if rows != [] {
      assert rows[0].id != other;
      assert forall i | 0 <= i < |rows[1..]| :: rows[1..][i] == rows[i + 1];
      WithoutFewer(rows[1..], id, other);
    }
  }

  /** The table a transaction that is not rolled back leaves. */
  lemma CommitMovesUp(rows: Rows, e: nat, listed: Rows)
    requires Valid(rows) && IsListing(rows, e, listed, |listed| + 1)
    ensures Committed(rows, rows[e], listed) == MovedUp(rows, e, |listed|)
  {
    WithoutAt(rows, e);
    assert Without(rows, rows[e].id) == MovedUp(rows, e, 0);
    RenumberedMovesUp(rows, e, listed, |listed| + 1, 0);
  }

  lemma CommitRollsBack(rows: Rows, entry: Row, listed: Rows)
    requires HasLost(rows, listed)
    ensures Committed(rows, entry, listed) == rows
  {
    var k :| 0 <= k < |listed| && listed[k].position != k + 1 && !HasId(rows, listed[k].id);
    WithoutFewer(rows, entry.id, listed[k].id);
    LostRowFails(Without(rows, entry.id), listed, 0, k);
  }

  lemma MovedUpValidIff(rows: Rows, e: nat, m: nat)
    requires Valid(rows) && e < m <= |rows|
    ensures Valid(MovedUp(rows, e, m - 1)) <==> m == |rows|
  {
    var r := MovedUp(rows, e, m - 1);
    if m < |rows| {
      assert r[|r| - 1] == rows[|rows| - 1];
    }
  }

  // ----- what every run without stale writes keeps -----

  /**
   A detachment under way: its deleted row is where it was, and either the whole listed table is
   still the front of the table, or a row it has to move is gone for good.
   */
  ghost predicate IsAhead(s: State, entry: Row, listed: Rows) {
    && 1 <= entry.position <= |s.rows| && s.rows[entry.position - 1] == entry
    && (forall k | 0 <= k < |listed| :: listed[k].id < s.nextId)
    && (IsListing(s.rows, entry.position - 1, listed, |listed| + 1) || HasLost(s.rows, listed))
  }

  ghost predicate IsFit(s: State, p: Pending) {
    match p
    case ToInsert(_, position) => position >= 1
    case ToRenumber(entry, listed) => IsAhead(s, entry, listed)
  }

  ghost predicate Sound(s: State) {
    && Valid(s.rows)
    && (forall i | 0 <= i < |s.rows| :: s.rows[i].id < s.nextId)
    && (forall q | q in s.pending :: IsFit(s, s.pending[q]))
    && (forall q, r | q in s.pending && r in s.pending && q != r
          && s.pending[q].ToRenumber? && s.pending[r].ToRenumber? :: s.pending[q].entry.id != s.pending[r].entry.id)
  }

  // ----- stale writes -----

  /** An absent author goes to a position past the next one. */
  ghost predicate IsStaleInsertion(s: State, p: Pending) {
    p.ToInsert? && !HasAuthor(s.rows, p.author) && p.position > |s.rows| + 1
  }

  /** A renumbering that will go through leaves out rows inserted since it listed the others. */
  ghost predicate IsStaleCommit(s: State, request: nat)
    requires request in s.pending && s.pending[request].ToRenumber?
  {
    var p := s.pending[request];
    !Waits(s, request) && !HasLost(s.rows, p.listed) && |s.rows| > |p.listed| + 1
  }

  ghost predicate IsStale(s: State, move: Move) {
    || (move.Insert? && move.request in s.pending && IsStaleInsertion(s, s.pending[move.request]))
    || (move.Commit? && move.request in s.pending && s.pending[move.request].ToRenumber?
        && IsStaleCommit(s, move.request))
  }

  /** A deleted row is in the table until its transaction commits. */
  lemma AbsentIsNotAwaited(s: State, p: Pending)
    requires Sound(s) && p.ToInsert? && !HasAuthor(s.rows, p.author) && p.position > |s.rows|
    ensures !AwaitsDeletion(s, p)
  {
    forall q | q in s.pending && s.pending[q].ToRenumber?
      ensures s.pending[q].entry.author != p.author && s.pending[q].entry.position != p.position
    {
      assert IsFit(s, s.pending[q]);
    }
  }

  lemma FreshId(s: State)
    requires Sound(s)
    ensures !HasId(s.rows, s.nextId)
  {
  }

  lemma ListedIsListing(rows: Rows, e: nat)
    requires Valid(rows) && e < |rows|
    ensures IsListing(rows, e, Without(rows, rows[e].id), |Without(rows, rows[e].id)| + 1)
    ensures |Without(rows, rows[e].id)| == |rows| - 1
  {
    WithoutAt(rows, e);
  }

  /** A row more at the end disturbs no detachment under way. */
  lemma AppendKeepsAhead(s: State, row: Row, entry: Row, listed: Rows)
    requires Sound(s) && row.id == s.nextId && IsAhead(s, entry, listed)
    ensures IsAhead(s.(rows := s.rows + [row], nextId := s.nextId + 1), entry, listed)
  {
    var r := s.rows + [row];
    assert forall i | 0 <= i < |s.rows| :: r[i] == s.rows[i];
    if HasLost(s.rows, listed) {
      var k :| 0 <= k < |listed| && listed[k].position != k + 1 && !HasId(s.rows, listed[k].id);
      assert !HasId(r, listed[k].id);
    }
  }

  /** The detachment of a row further down moves no row in front of it. */
  lemma CommitKeepsAhead(s: State, e: nat, entry: Row, listed: Rows)
    requires Sound(s) && e < |s.rows| && IsAhead(s, entry, listed) && entry.position - 1 < e
    ensures IsAhead(s.(rows := MovedUp(s.rows, e, |s.rows| - 1)), entry, listed)
  {
    var r := MovedUp(s.rows, e, |s.rows| - 1);
    assert r[entry.position - 1] == entry;
    if HasLost(s.rows, listed) {
      var k :| 0 <= k < |listed| && listed[k].position != k + 1 && !HasId(s.rows, listed[k].id);
      assert !HasId(r, listed[k].id);
    } else if e <= |listed| {
      var gone := s.rows[e];
      assert listed[e - 1] == gone && gone.position == e + 1;
      assert !HasId(r, gone.id);
    }
  }

  lemma InsertIsValidIff(s: State, request: nat)
    requires Sound(s) && request in s.pending && s.pending[request].ToInsert?
    ensures Valid(Step(s, Insert(request)).rows) <==> !IsStaleInsertion(s, s.pending[request])
    ensures !IsStaleInsertion(s, s.pending[request]) ==> Sound(Step(s, Insert(request)))
  {
    var p := s.pending[request];
    var r := Step(s, Insert(request));
    assert IsFit(s, p);
    FreshId(s);
    if !HasAuthor(s.rows, p.author) && p.position > |s.rows| {
      AbsentIsNotAwaited(s, p);
    }
    if !AwaitsDeletion(s, p) {
      InsertionKeepsIff(s.rows, s.nextId, p.author, p.position);
      InsertionRefusedIff(s.rows, p.author, p.position);
      if !IsStaleInsertion(s, p) {
        var row := Row(s.nextId, p.author, p.position);
        forall q | q in r.pending ensures IsFit(r, r.pending[q]) {
          assert IsFit(s, s.pending[q]);
          if s.pending[q].ToRenumber? {
            AppendKeepsAhead(s, row, s.pending[q].entry, s.pending[q].listed);
          }
        }
      }
    }
  }

  /** Two requests that renumber. */
  ghost predicate BothRenumber(s: State, request: nat, q: nat) {
    && request in s.pending && s.pending[request].ToRenumber?
    && q in s.pending && q != request && s.pending[q].ToRenumber?
  }

  lemma EntriesApart(s: State, request: nat, q: nat)
    requires Sound(s) && BothRenumber(s, request, q)
    ensures s.pending[q].entry.position != s.pending[request].entry.position
  {
    assert IsFit(s, s.pending[request]) && IsFit(s, s.pending[q]);
  }

  /** A row deleted further down is among those to be moved. */
  lemma FurtherDownWaits(s: State, request: nat, q: nat)
    requires Sound(s) && BothRenumber(s, request, q)
    requires !HasLost(s.rows, s.pending[request].listed) && |s.rows| == |s.pending[request].listed| + 1
    ensures s.pending[q].entry.position > s.pending[request].entry.position ==> Waits(s, request)
  {
    var p, other := s.pending[request], s.pending[q];
    assert IsFit(s, p) && IsFit(s, other);
    if other.entry.position > p.entry.position {
      var k := other.entry.position - 2;
      assert p.listed[k] == other.entry && IsLocked(s, p.listed[k].id);
    }
  }

  /** The rows after a transaction that is neither waiting nor rolled back. */
  lemma CommitGoesThrough(s: State, request: nat)
    requires Sound(s) && request in s.pending && s.pending[request].ToRenumber? && !Waits(s, request)
    requires !HasLost(s.rows, s.pending[request].listed)
    ensures var p := s.pending[request];
            var rows := MovedUp(s.rows, p.entry.position - 1, |p.listed|);
            && Step(s, Commit(request)) == s.(rows := rows, pending := s.pending - {request})
            && (Valid(rows) <==> |s.rows| == |p.listed| + 1)
  {
    var p := s.pending[request];
    assert IsFit(s, p);
    CommitMovesUp(s.rows, p.entry.position - 1, p.listed);
    MovedUpValidIff(s.rows, p.entry.position - 1, |p.listed| + 1);
  }

  /** The other detachments under way are of rows further up. */
  lemma OthersAreFurtherUp(s: State, request: nat, q: nat)
    requires Sound(s) && BothRenumber(s, request, q) && !Waits(s, request)
    requires !HasLost(s.rows, s.pending[request].listed) && |s.rows| == |s.pending[request].listed| + 1
    ensures s.pending[q].entry.position < s.pending[request].entry.position <= |s.rows|
    ensures s.pending[request].entry.position >= 1
    ensures IsAhead(s, s.pending[q].entry, s.pending[q].listed)
  {
    assert IsFit(s, s.pending[q]) && IsFit(s, s.pending[request]);
    EntriesApart(s, request, q);
    FurtherDownWaits(s, request, q);
  }

  /** Once the rows have moved up they are as they were. */
  lemma OthersStayAhead(s: State, request: nat, q: nat, e: nat)
    requires Sound(s) && BothRenumber(s, request, q) && !Waits(s, request)
    requires !HasLost(s.rows, s.pending[request].listed) && |s.rows| == |s.pending[request].listed| + 1
    requires s.pending[request].entry.position == e + 1 && e < |s.rows|
    ensures IsAhead(s.(rows := MovedUp(s.rows, e, |s.rows| - 1)), s.pending[q].entry, s.pending[q].listed)
  {
    var other := s.pending[q];
    assert IsAhead(s, other.entry, other.listed) && other.entry.position - 1 < e by {
      OthersAreFurtherUp(s, request, q);
    }
    CommitKeepsAhead(s, e, other.entry, other.listed);
  }

  /** Fewer requests under way, over other valid rows for which they are fit. */
  lemma OtherRowsSound(s: State, rows: Rows, request: nat)
    requires Sound(s) && Valid(rows) && forall i | 0 <= i < |rows| :: rows[i].id < s.nextId
    requires forall q | q in s.pending && q != request && s.pending[q].ToRenumber? ::
               IsAhead(s.(rows := rows), s.pending[q].entry, s.pending[q].listed)
    ensures Sound(s.(rows := rows, pending := s.pending - {request}))
  {
    var r := s.(rows := rows, pending := s.pending - {request});
    forall q | q in r.pending ensures IsFit(r, r.pending[q]) {
      assert IsFit(s, s.pending[q]);
      assert r.pending[q] == s.pending[q];
    }
  }

  lemma MovedUpIds(rows: Rows, e: nat, k: nat, bound: nat)
    requires e < |rows| && forall i | 0 <= i < |rows| :: rows[i].id < bound
    ensures forall i | 0 <= i < |rows| - 1 :: MovedUp(rows, e, k)[i].id < bound
  {
  }

  lemma MovedUpSound(s: State, request: nat)
    requires Sound(s) && request in s.pending && s.pending[request].ToRenumber? && !Waits(s, request)
    requires !HasLost(s.rows, s.pending[request].listed) && |s.rows| == |s.pending[request].listed| + 1
    ensures Sound(Step(s, Commit(request)))
  {
    var p := s.pending[request];
    assert IsFit(s, p);
    var rows := MovedUp(s.rows, p.entry.position - 1, |p.listed|);
    CommitGoesThrough(s, request);
    MovedUpIds(s.rows, p.entry.position - 1, |p.listed|, s.nextId);
    assert Sound(s.(rows := rows, pending := s.pending - {request})) by {
      forall q | q in s.pending && q != request && s.pending[q].ToRenumber?
        ensures IsAhead(s.(rows := rows), s.pending[q].entry, s.pending[q].listed)
      {
        OthersStayAhead(s, request, q, p.entry.position - 1);
      }
      OtherRowsSound(s, rows, request);
    }
  }

  lemma CommitIsValidIff(s: State, request: nat)
    requires Sound(s) && request in s.pending && s.pending[request].ToRenumber?
    ensures Valid(Step(s, Commit(request)).rows) <==> !IsStaleCommit(s, request)
    ensures !IsStaleCommit(s, request) ==> Sound(Step(s, Commit(request)))
  {
    var p := s.pending[request];
    assert IsFit(s, p);
    if !Waits(s, request) {
      if HasLost(s.rows, p.listed) {
        CommitRollsBack(s.rows, p.entry, p.listed);
        SameRowsSound(s, Step(s, Commit(request)));
      } else {
        CommitGoesThrough(s, request);
        if |s.rows| == |p.listed| + 1 {
          MovedUpSound(s, request);
        }
      }
    }
  }

  /** Fewer requests under way, the same rows. */
  lemma SameRowsSound(s: State, r: State)
    requires Sound(s) && r.rows == s.rows && r.nextId == s.nextId && r.pending.Keys <= s.pending.Keys
    requires forall q | q in r.pending :: r.pending[q] == s.pending[q]
    ensures Sound(r)
  {
    forall q | q in r.pending ensures IsFit(r, r.pending[q]) {
      assert IsFit(s, s.pending[q]);
    }
  }

  /** One more request under way, fit for the rows there are. */
  lemma OneMoreSound(s: State, request: nat, p: Pending)
    requires Sound(s) && request !in s.pending && IsFit(s, p)
    requires p.ToRenumber? ==> !IsLocked(s, p.entry.id)
    ensures Sound(s.(pending := s.pending[request := p]))
  {
    var r := s.(pending := s.pending[request := p]);
    forall q | q in r.pending ensures IsFit(r, r.pending[q]) {
      assert q in s.pending ==> IsFit(s, s.pending[q]);
    }
  }

  lemma BeginKeepsSound(s: State, move: Move)
    requires Sound(s) && (move.Read? || move.Delete?)
    ensures Sound(Step(s, move))
  {
    if move.request !in s.pending {
      if move.Read? {
        OneMoreSound(s, move.request, ToInsert(move.author, MaxPosition(s.rows) + 1));
      } else {
        var i := FindAuthor(s.rows, move.author);
        if i < |s.rows| && !IsLocked(s, s.rows[i].id) {
          ListedIsListing(s.rows, i);
          OneMoreSound(s, move.request, ToRenumber(s.rows[i], Without(s.rows, s.rows[i].id)));
        }
      }
    }
  }

  /** One step keeps positions at 1 to n exactly when it is no stale write. */
  lemma StepIsValidIff(s: State, move: Move)
    requires Sound(s)
    ensures Valid(Step(s, move).rows) <==> !IsStale(s, move)
    ensures !IsStale(s, move) ==> Sound(Step(s, move))
  {
    match move
    case Read(_, _) | Delete(_, _) => BeginKeepsSound(s, move);
    case Insert(request) =>
      if request in s.pending && s.pending[request].ToInsert? {
        InsertIsValidIff(s, request);
      }
    case Commit(request) =>
      if request in s.pending && s.pending[request].ToRenumber? {
        CommitIsValidIff(s, request);
      }
  }

  // ----- every run -----

  /** After every step of the run positions are 1 to n. */
  ghost predicate AllValid(s: State, moves: seq<Move>) {
    moves == [] || (AllValid(s, moves[..|moves| - 1]) && Valid(Run(s, moves).rows))
  }

  ghost predicate NoneStale(s: State, moves: seq<Move>) {
    moves == []
    || (var before := moves[..|moves| - 1];
        NoneStale(s, before) && !IsStale(Run(s, before), moves[|moves| - 1]))
  }

  lemma {:induction false} RunSound(s: State, moves: seq<Move>)
    requires IsNew(s) && NoneStale(s, moves)
    ensures Sound(Run(s, moves))
  {
    if moves != [] {
      RunSound(s, moves[..|moves| - 1]);
      StepIsValidIff(Run(s, moves[..|moves| - 1]), moves[|moves| - 1]);
    }
  }

  /**
   For every interleaving from a new document: positions are exactly 1 to n after each step iff no
   insertion of an absent author goes past the next position, and no renumbering leaves out a row
   inserted since it listed the others.
   */
  lemma {:induction false} ContiguousIffNoneStale(s: State, moves: seq<Move>)
    requires IsNew(s)
    ensures AllValid(s, moves) <==> NoneStale(s, moves)
  {
    if moves != [] {
      var before := moves[..|moves| - 1];
      ContiguousIffNoneStale(s, before);
      if NoneStale(s, before) {
        RunSound(s, before);
        StepIsValidIff(Run(s, before), moves[|moves| - 1]);
      }
    }
  }

  // ----- runs with nothing in between -----

  /** Reading and inserting back to back append an author who is not there. */
  lemma AttachmentAlone(s: State, request: nat, author: nat)
    requires Sound(s) && s.pending == map[]
    ensures var r := Step(Step(s, Read(request, author)), Insert(request));
            && Valid(r.rows)
            && r.rows == if HasAuthor(s.rows, author) then s.rows else s.rows + [Row(s.nextId, author, |s.rows| + 1)]
  {
    MaxOfContiguous(s.rows);
    FreshId(s);
    InsertionKeepsIff(s.rows, s.nextId, author, |s.rows| + 1);
  }

  /** Deleting and committing back to back remove the author's row and close the gap. */
  lemma DetachmentAlone(s: State, request: nat, author: nat)
    requires Sound(s) && s.pending == map[] && HasAuthor(s.rows, author)
    ensures var r := Step(Step(s, Delete(request, author)), Commit(request));
            && Valid(r.rows) && r.rows == MovedUp(s.rows, FindAuthor(s.rows, author), |s.rows| - 1)
            && r.pending == map[] && !HasAuthor(r.rows, author)
    ensures var r, e := Step(Step(s, Delete(request, author)), Commit(request)), FindAuthor(s.rows, author);
            && |r.rows| == |s.rows| - 1
            && forall i | 0 <= i < |r.rows| ::
                 && r.rows[i].author == s.rows[if i < e then i else i + 1].author
                 && r.rows[i].id == s.rows[if i < e then i else i + 1].id
                 && r.rows[i].position == i + 1
  {
    Detaches(s, request, author);
  }

  lemma NothingLost(rows: Rows, e: nat)
    requires Valid(rows) && e < |rows|
    ensures !HasLost(rows, Without(rows, rows[e].id))
  {
    var listed := Without(rows, rows[e].id);
    ListedIsListing(rows, e);
    forall k | 0 <= k < |listed| ensures HasId(rows, listed[k].id) {
      assert rows[if k < e then k else k + 1].id == listed[k].id;
    }
  }

  // ----- runs that fail -----

  /** Nothing under way; a new document is such a state. */
  ghost predicate IsQuiet(s: State) {
    Sound(s) && s.pending == map[]
  }

  lemma NewIsQuiet(s: State)
    requires IsNew(s)
    ensures IsQuiet(s)
  {
  }

  lemma MovedUpAuthors(rows: Rows, e: nat, k: nat, author: nat)
    requires e < |rows| && !HasAuthor(rows, author)
    ensures !HasAuthor(MovedUp(rows, e, k), author)
  {
  }

  /** The insertion of an absent author at the next position. */
  lemma InsertsNext(s: State, request: nat, author: nat)
    requires Sound(s) && !HasAuthor(s.rows, author)
    requires request in s.pending && s.pending[request] == ToInsert(author, |s.rows| + 1)
    ensures Step(s, Insert(request)) ==
            State(s.rows + [Row(s.nextId, author, |s.rows| + 1)], s.nextId + 1, s.pending - {request})
    ensures Sound(Step(s, Insert(request)))
  {
    FreshId(s);
    AbsentIsNotAwaited(s, s.pending[request]);
    InsertionKeepsIff(s.rows, s.nextId, author, |s.rows| + 1);
    InsertIsValidIff(s, request);
  }

  /** An insertion at a position that is taken. */
  lemma TakenIsRefused(s: State, request: nat)
    requires Contiguous(s.rows) && request in s.pending && s.pending[request].ToInsert?
    requires 1 <= s.pending[request].position <= |s.rows| && !AwaitsDeletion(s, s.pending[request])
    ensures Step(s, Insert(request)).rows == s.rows && request !in Step(s, Insert(request)).pending
  {
    MaxOfContiguous(s.rows);
  }

  lemma AppendedAuthors(rows: Rows, row: Row, author: nat)
    ensures HasAuthor(rows + [row], author) <==> HasAuthor(rows, author) || author == row.author
  {
    var r := rows + [row];
    assert r[|rows|] == row;
    if i :| 0 <= i < |rows| && rows[i].author == author {
      assert r[i] == rows[i];
    }
  }

  lemma ReadsNext(s: State, request: nat, author: nat)
    requires Sound(s) && request !in s.pending
    ensures Step(s, Read(request, author)) == s.(pending := s.pending[request := ToInsert(author, |s.rows| + 1)])
    ensures Sound(Step(s, Read(request, author)))
  {
    MaxOfContiguous(s.rows);
    BeginKeepsSound(s, Read(request, author));
  }

  lemma Deletes(s: State, request: nat, author: nat)
    requires Sound(s) && request !in s.pending && HasAuthor(s.rows, author)
    requires forall q | q in s.pending :: s.pending[q].ToInsert?
    ensures var r, e := Step(s, Delete(request, author)), FindAuthor(s.rows, author);
            && Sound(r) && e < |s.rows|
            && r == s.(pending := s.pending[request := ToRenumber(s.rows[e], Without(s.rows, s.rows[e].id))])
            && !Waits(r, request)
  {
    var e := FindAuthor(s.rows, author);
    BeginKeepsSound(s, Delete(request, author));
    ListedIsListing(s.rows, e);
    var r := Step(s, Delete(request, author));
    forall k | 0 <= k < |r.pending[request].listed| ensures !IsLocked(r, r.pending[request].listed[k].id) {
      assert r.pending[request].listed[k] == s.rows[if k < e then k else k + 1];
    }
  }

  /** A detachment with attachments read before it commits. */
  lemma Detaches(s: State, request: nat, gone: nat)
    requires Sound(s) && request !in s.pending && HasAuthor(s.rows, gone)
    requires forall q | q in s.pending :: s.pending[q].ToInsert?
    ensures var r, e := Step(Step(s, Delete(request, gone)), Commit(request)), FindAuthor(s.rows, gone);
            e < |s.rows| && Sound(r) && r == s.(rows := MovedUp(s.rows, e, |s.rows| - 1))
  {
    var begun, e := Step(s, Delete(request, gone)), FindAuthor(s.rows, gone);
    Deletes(s, request, gone);
    NothingLost(s.rows, e);
    ListedIsListing(s.rows, e);
    assert begun.pending - {request} == s.pending;
    CommitGoesThrough(begun, request);
    MovedUpSound(begun, request);
  }

  /** An insertion past the next position. */
  lemma LateInsertion(s: State, request: nat, author: nat)
    requires Sound(s) && !HasAuthor(s.rows, author)
    requires request in s.pending && s.pending[request] == ToInsert(author, |s.rows| + 2)
    ensures !Valid(Step(s, Insert(request)).rows)
  {
    InsertIsValidIff(s, request);
  }

  /** A detachment while the attachment of another author has read its position. */
  lemma DetachedInBetween(read: State, author: nat, gone: nat)
    requires Sound(read) && !HasAuthor(read.rows, author) && HasAuthor(read.rows, gone)
    requires read.pending == map[0 := ToInsert(author, |read.rows| + 1)]
    ensures var detached := Step(Step(read, Delete(1, gone)), Commit(1));
            Valid(detached.rows) && !Valid(Step(detached, Insert(0)).rows)
  {
    Detaches(read, 1, gone);
    MovedUpAuthors(read.rows, FindAuthor(read.rows, gone), |read.rows| - 1, author);
    LateInsertion(Step(Step(read, Delete(1, gone)), Commit(1)), 0, author);
  }

  /** An attachment that has read before a detachment and inserts after it leaves a gap. */
  lemma LateInsertionLeavesGap(s: State, author: nat, gone: nat)
    requires IsQuiet(s) && !HasAuthor(s.rows, author) && HasAuthor(s.rows, gone)
    ensures var detached := Step(Step(Step(s, Read(0, author)), Delete(1, gone)), Commit(1));
            Valid(detached.rows) && !Valid(Step(detached, Insert(0)).rows)
  {
    ReadsNext(s, 0, author);
    DetachedInBetween(Step(s, Read(0, author)), author, gone);
  }

  /** The first of two insertions at one position takes it. */
  lemma SecondIsRefused(both: State, author: nat, other: nat)
    requires Sound(both) && !HasAuthor(both.rows, author) && !HasAuthor(both.rows, other) && author != other
    requires both.pending == map[0 := ToInsert(author, |both.rows| + 1), 1 := ToInsert(other, |both.rows| + 1)]
    ensures var first := Step(both, Insert(0));
            && HasAuthor(first.rows, author) && !HasAuthor(first.rows, other)
            && Step(first, Insert(1)).rows == first.rows && 1 !in Step(first, Insert(1)).pending
  {
    InsertsNext(both, 0, author);
    AppendedAuthors(both.rows, Row(both.nextId, author, |both.rows| + 1), author);
    AppendedAuthors(both.rows, Row(both.nextId, author, |both.rows| + 1), other);
    TakenIsRefused(Step(both, Insert(0)), 1);
  }

  lemma RunAppend(s: State, moves: seq<Move>, move: Move)
    ensures Run(s, moves + [move]) == Step(Run(s, moves), move)
  {
    assert (moves + [move])[..|moves|] == moves;
  }

  lemma RunOfFour(s: State, a: Move, b: Move, c: Move, d: Move)
    ensures Run(s, [a] + [b] + [c] + [d]) == Step(Step(Step(Step(s, a), b), c), d)
  {
    RunAppend(s, [a] + [b] + [c], d);
    RunAppend(s, [a] + [b], c);
    RunAppend(s, [a], b);
    RunAppend(s, [], a);
    assert [] + [a] == [a];
  }

  /** One such run, on the new document of one author. */
  lemma GapOnNewDocument(first: nat, author: nat)
    requires first != author
    ensures var s := State([Row(0, first, 1)], 1, map[]);
            IsNew(s) && !Valid(Run(s, [Read(0, author)] + [Delete(1, first)] + [Commit(1)] + [Insert(0)]).rows)
  {
    var s := State([Row(0, first, 1)], 1, map[]);
    assert s.rows[0].author == first;
    RunOfFour(s, Read(0, author), Delete(1, first), Commit(1), Insert(0));
    NewIsQuiet(s);
    LateInsertionLeavesGap(s, author, first);
  }

  /** Of two attachments that have read the same position the second is refused, although its author is not there. */
  lemma SecondInsertionRefused(s: State, author: nat, other: nat)
    requires IsQuiet(s) && author != other && !HasAuthor(s.rows, author) && !HasAuthor(s.rows, other)
    ensures var first := Step(Step(Step(s, Read(0, author)), Read(1, other)), Insert(0));
            && HasAuthor(first.rows, author) && !HasAuthor(first.rows, other)
            && Step(first, Insert(1)).rows == first.rows && 1 !in Step(first, Insert(1)).pending
  {
    ReadsNext(s, 0, author);
    ReadsNext(Step(s, Read(0, author)), 1, other);
    SecondIsRefused(Step(Step(s, Read(0, author)), Read(1, other)), author, other);
  }

  /** An attachment from reading to inserting, whatever else is under way. */
  lemma Attaches(s: State, request: nat, author: nat)
    requires Sound(s) && request !in s.pending && !HasAuthor(s.rows, author)
    ensures Step(Step(s, Read(request, author)), Insert(request)) ==
            s.(rows := s.rows + [Row(s.nextId, author, |s.rows| + 1)], nextId := s.nextId + 1)
    ensures Sound(Step(Step(s, Read(request, author)), Insert(request)))
  {
    ReadsNext(s, request, author);
    InsertsNext(Step(s, Read(request, author)), request, author);
    assert Step(s, Read(request, author)).pending - {request} == s.pending;
  }

  /** A detachment under way, an attachment having appended a row since. */
  lemma LateCommit(begun: State, inserted: State, request: nat, row: Row)
    requires Sound(begun) && Sound(inserted) && inserted.rows == begun.rows + [row]
    requires request in begun.pending && begun.pending[request].ToRenumber? && !Waits(begun, request)
    requires |begun.rows| == |begun.pending[request].listed| + 1
    requires !HasLost(begun.rows, begun.pending[request].listed)
    requires inserted.pending == begun.pending
    ensures !Valid(Step(inserted, Commit(request)).rows)
  {
    StillListed(begun.rows, row, begun.pending[request].listed);
    StillGoes(begun, inserted, request);
    CommitIsValidIff(inserted, request);
  }

  /** An attachment while a detachment is under way. */
  lemma AttachedInBetween(begun: State, author: nat)
    requires Sound(begun) && !HasAuthor(begun.rows, author)
    requires 0 in begun.pending && begun.pending[0].ToRenumber? && !Waits(begun, 0) && 1 !in begun.pending
    requires |begun.rows| == |begun.pending[0].listed| + 1 && !HasLost(begun.rows, begun.pending[0].listed)
    ensures var inserted := Step(Step(begun, Read(1, author)), Insert(1));
            Valid(inserted.rows) && !Valid(Step(inserted, Commit(0)).rows)
  {
    Attaches(begun, 1, author);
    LateCommit(begun, Step(Step(begun, Read(1, author)), Insert(1)), 0,
               Row(begun.nextId, author, |begun.rows| + 1));
  }

  /** An attachment read and inserted while a detachment is under way is left out of its renumbering: a gap. */
  lemma InsertionDuringDetachmentLeavesGap(s: State, author: nat, gone: nat)
    requires IsQuiet(s) && !HasAuthor(s.rows, author) && HasAuthor(s.rows, gone)
    ensures var inserted := Step(Step(Step(s, Delete(0, gone)), Read(1, author)), Insert(1));
            Valid(inserted.rows) && !Valid(Step(inserted, Commit(0)).rows)
  {
    Deletes(s, 0, gone);
    ListedIsListing(s.rows, FindAuthor(s.rows, gone));
    NothingLost(s.rows, FindAuthor(s.rows, gone));
    AttachedInBetween(Step(s, Delete(0, gone)), author);
  }

  /** Rows not lost stay so when one is appended. */
  lemma StillListed(rows: Rows, row: Row, listed: Rows)
    requires !HasLost(rows, listed)
    ensures !HasLost(rows + [row], listed)
  {
    forall k | 0 <= k < |listed| && listed[k].position != k + 1 ensures HasId(rows + [row], listed[k].id) {
      var i :| 0 <= i < |rows| && rows[i].id == listed[k].id;
      assert (rows + [row])[i] == rows[i];
    }
  }

  /** No row is locked that was not before. */
  lemma StillGoes(s: State, r: State, request: nat)
    requires request in s.pending && s.pending[request].ToRenumber? && !Waits(s, request)
    requires request in r.pending && r.pending[request] == s.pending[request]
    requires forall q | q in r.pending && r.pending[q].ToRenumber? :: q in s.pending && s.pending[q] == r.pending[q]
    ensures !Waits(r, request)
  {
    var p := s.pending[request];
    forall k | 0 <= k < |p.listed| && p.listed[k].position != k + 1 ensures !IsLocked(r, p.listed[k].id) {
      assert !IsLocked(s, p.listed[k].id);
    }
  }
}
