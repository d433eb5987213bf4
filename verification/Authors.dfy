/**
 The authors of one document, each request uninterrupted by others: rows under two unique
 constraints, (document, author) and (document, position). The rows are held as the query lists
 them, by ascending position; that every write leaves them so is part of what is proved.
 */
module Authors {
  import opened Prelude

  datatype Row = Row(author: nat, position: nat)

  ghost predicate Ascending(rows: seq<Row>) {
    forall i, j | 0 <= i < j < |rows| :: rows[i].position < rows[j].position
  }

  ghost predicate DistinctAuthors(rows: seq<Row>) {
    forall i, j | 0 <= i < j < |rows| :: rows[i].author != rows[j].author
  }

  /** Positions are 1, 2, 3, … in order. */
  ghost predicate Contiguous(rows: seq<Row>) {
    forall i | 0 <= i < |rows| :: rows[i].position == i + 1
  }

  ghost predicate Valid(rows: seq<Row>) {
    Contiguous(rows) && DistinctAuthors(rows)
  }

  /** The authors as the document shows them. */
  function Shown(rows: seq<Row>): (authors: seq<nat>)
    ensures |authors| == |rows| && forall i | 0 <= i < |rows| :: authors[i] == rows[i].author
  {
    if rows == [] then [] else [rows[0].author] + Shown(rows[1..])
  }

  function MaxPosition(rows: seq<Row>): (r: nat)
    ensures forall i | 0 <= i < |rows| :: rows[i].position <= r
    ensures if rows == [] then r == 0 else exists i | 0 <= i < |rows| :: rows[i].position == r
  {
    if rows == [] then 0 else Max(rows[0].position, MaxPosition(rows[1..]))
  }

  /** Where the author's row is; the number of rows when there is none. */
  function Find(rows: seq<Row>, author: nat): (i: nat)
    ensures i <= |rows| && (i < |rows| ==> rows[i].author == author)
    ensures forall j | 0 <= j < i :: rows[j].author != author
  {
    if rows == [] || rows[0].author == author then 0 else 1 + Find(rows[1..], author)
  }

  /** Every row at its rank. */
  function Renumbered(rows: seq<Row>): (r: seq<Row>) {
    seq(|rows|, i requires 0 <= i < |rows| => rows[i].(position := i + 1))
  }

  function Removed<T>(rows: seq<T>, i: nat): (r: seq<T>)
    requires i < |rows|
    ensures |r| == |rows| - 1 && forall j | 0 <= j < |r| :: r[j] == rows[if j < i then j else j + 1]
  {
    seq(|rows| - 1, j requires 0 <= j < |rows| - 1 => rows[if j < i then j else j + 1])
  }

  function Attached(rows: seq<Row>, author: nat): seq<Row> {
    if Find(rows, author) < |rows| then rows else rows + [Row(author, MaxPosition(rows) + 1)]
  }

  function Detached(rows: seq<Row>, author: nat): seq<Row> {
    var i := Find(rows, author);
    if i < |rows| then Renumbered(Removed(rows, i)) else rows
  }

  lemma FindIffShown(rows: seq<Row>, author: nat)
    ensures Find(rows, author) < |rows| <==> author in Shown(rows)
  {
    assert Find(rows, author) < |rows| ==> Shown(rows)[Find(rows, author)] == author;
  }

  /** Whether row i may take the position under the unique constraint. */
  predicate IsFree(rows: seq<Row>, i: nat, position: nat) {
    forall j | 0 <= j < |rows| && j != i :: rows[j].position != position
  }

  /** Positions 0 and 1 are both taken: the one kind of table on which the renumbering meets the constraint. */
  predicate Blocked(rows: seq<Row>) {
    |rows| > 1 && rows[0].position == 0 && rows[1].position == 1
  }

  /** The rows once the first `done` of the query have been written. */
  ghost predicate WrittenUpTo(before: seq<Row>, now: seq<Row>, done: nat) {
    && |now| == |before|
    && forall i | 0 <= i < |now| :: now[i] == if i < done then before[i].(position := i + 1) else before[i]
  }

  /** Distinct positions in order are at least their rank, unless the first is 0. */
  lemma {:induction false} RankBelow(rows: seq<Row>, j: nat)
    requires Ascending(rows) && !Blocked(rows) && j < |rows|
    ensures j > 0 || rows[0].position > 0 ==> rows[j].position >= j + 1
  {
    if j > 0 {
      RankBelow(rows, j - 1);
      assert rows[j - 1].position < rows[j].position;
    }
  }

  lemma NextWrite(before: seq<Row>, now: seq<Row>, done: nat)
    requires Ascending(before) && WrittenUpTo(before, now, done) && done < |before|
    ensures !Blocked(before) ==> IsFree(now, done, done + 1)
    ensures !Blocked(before) ==> Ascending(now[done := now[done].(position := done + 1)])
    ensures Blocked(before) && done == 0 ==> !IsFree(now, 0, 1)
  {
    if !Blocked(before) {
      forall j | 0 <= j < |now| ensures j < done ==> now[j].position == j + 1
                                ensures j > done ==> now[j].position > done + 1
      {
        RankBelow(before, j);
      }
    }
  }

  lemma AppendKeeps(rows: seq<Row>, row: Row)
    requires Ascending(rows) && DistinctAuthors(rows)
    requires Find(rows, row.author) == |rows| && MaxPosition(rows) < row.position
    ensures Ascending(rows + [row]) && DistinctAuthors(rows + [row])
    ensures Contiguous(rows) ==> row.position == |rows| + 1 ==> Contiguous(rows + [row])
  {
    var r := rows + [row];
    forall i, j | 0 <= i < j < |r|
      ensures r[i].position < r[j].position && r[i].author != r[j].author
    {
      assert r[i] == rows[i];
      assert j < |rows| ==> r[j] == rows[j];
    }
  }

  lemma ContiguousMax(rows: seq<Row>)
    requires Contiguous(rows)
    ensures MaxPosition(rows) == |rows| && Ascending(rows)
  {
    assert rows != [] ==> rows[|rows| - 1].position == |rows|;
  }

  lemma RemovedKeeps(rows: seq<Row>, i: nat)
    requires i < |rows| && Ascending(rows) && DistinctAuthors(rows)
    ensures Ascending(Removed(rows, i)) && DistinctAuthors(Removed(rows, i))
    ensures rows[0].position > 0 ==> !Blocked(Removed(rows, i))
  {
  }

  class DocumentAuthors {
    var rows: seq<Row>

    /** A document starts with the teacher who deposits it as only author, or with none. */
    constructor (teacher: Option<nat>)
      ensures Valid(rows)
      ensures rows == if teacher.Some? then [Row(teacher.value, 1)] else []
    {
      rows := if teacher.Some? then [Row(teacher.value, 1)] else [];
    }

    /** One UPDATE; the unique constraint refuses it when another row holds the position. */
    method SavePosition(i: nat, position: nat) returns (ok: bool)
      requires i < |rows|
      modifies this
      ensures ok == IsFree(old(rows), i, position)
      ensures rows == if ok then old(rows)[i := old(rows)[i].(position := position)] else old(rows)
    {
      ok := IsFree(rows, i, position);
      if ok {
        rows := rows[i := rows[i].(position := position)];
      }
    }

    /** Reading the highest position and inserting with nothing in between: refused when the author is already there. */
    method Attach(author: nat) returns (ok: bool)
      requires Ascending(rows) && DistinctAuthors(rows)
      modifies this
      ensures Ascending(rows) && DistinctAuthors(rows)
      ensures ok == (author !in Shown(old(rows)))
      ensures rows == Attached(old(rows), author)
    {
      FindIffShown(rows, author);
      var next := MaxPosition(rows) + 1;
      ok := Find(rows, author) == |rows|;
      if ok {
        AppendKeeps(rows, Row(author, next));
        rows := rows + [Row(author, next)];
      }
    }

    /**
     The loop over the query's rows. Positions stay distinct and ascending after every single
     write; one refused write rolls everything back.
     */
    method Renumber() returns (ok: bool)
      requires Ascending(rows)
      modifies this
      ensures ok <==> !Blocked(old(rows))
      ensures rows == if ok then Renumbered(old(rows)) else old(rows)
    {
      var saved := rows;
      ok := true;
      for k := 0 to |saved|
        invariant WrittenUpTo(saved, rows, k) && Ascending(rows)
        invariant k > 0 ==> !Blocked(saved)
      {
        NextWrite(saved, rows, k);
        if rows[k].position != k + 1 {
          ok := SavePosition(k, k + 1);
          if !ok {
            rows := saved;
            return;
          }
        }
      }
    }

    /**
     Removing the row and closing the gap; not found when the author is not attached, rolled back when a
     write is refused.
     */
    method Detach(author: nat) returns (found: bool, ok: bool)
      requires Ascending(rows) && DistinctAuthors(rows)
      modifies this
      ensures Ascending(rows) && DistinctAuthors(rows)
      ensures found == (author in Shown(old(rows)))
      ensures ok <==> !found || !Blocked(Removed(old(rows), Find(old(rows), author)))
      ensures rows == if ok then Detached(old(rows), author) else old(rows)
    {
      FindIffShown(rows, author);
      var saved, i := rows, Find(rows, author);
      found, ok := i < |rows|, true;
      if found {
        ghost var removed := Removed(rows, i);
        RemovedKeeps(rows, i);
        RenumberedIsValid(removed);
        rows := Removed(rows, i);
        ok := Renumber();
        if !ok {
          rows := saved;
        }
        assert rows == if ok then Renumbered(removed) else saved;
      }
    }
  }

  // ----- the table stands for a plain list of distinct authors -----

  ghost predicate NoRepeat(authors: seq<nat>) {
    forall i, j | 0 <= i < j < |authors| :: authors[i] != authors[j]
  }

  function Without(authors: seq<nat>, author: nat): seq<nat> {
    if authors == [] then []
    else (if authors[0] == author then [] else [authors[0]]) + Without(authors[1..], author)
  }

  lemma {:induction false} WithoutOne(authors: seq<nat>, i: nat)
    requires i <= |authors| && NoRepeat(authors)
    requires i < |authors|
    ensures Without(authors, authors[i]) == Removed(authors, i)
  {
    if i > 0 {
      WithoutOne(authors[1..], i - 1);
      assert Removed(authors, i) == [authors[0]] + Removed(authors[1..], i - 1);
    } else {
      assert Removed(authors, 0) == authors[1..];
      WithoutAbsent(authors[1..], authors[0]);
    }
  }

  lemma {:induction false} WithoutAbsent(authors: seq<nat>, author: nat)
    requires author !in authors
    ensures Without(authors, author) == authors
  {
    if authors != [] {
      WithoutAbsent(authors[1..], author);
    }
  }

  lemma AppendShown(rows: seq<Row>, row: Row)
    ensures Shown(rows + [row]) == Shown(rows) + [row.author]
  {
    assert forall i | 0 <= i < |rows| :: (rows + [row])[i] == rows[i];
  }

  /** Attaching appends to the shown list and keeps positions contiguous. */
  lemma AttachAppends(rows: seq<Row>, author: nat)
    requires Valid(rows)
    ensures Valid(Attached(rows, author))
    ensures Shown(Attached(rows, author)) == if author in Shown(rows) then Shown(rows) else Shown(rows) + [author]
  {
    FindIffShown(rows, author);
    if author !in Shown(rows) {
      ContiguousMax(rows);
      AppendKeeps(rows, Row(author, |rows| + 1));
      AppendShown(rows, Row(author, |rows| + 1));
    }
  }

  lemma RemovedShown(rows: seq<Row>, i: nat)
    requires i < |rows|
    ensures Shown(Removed(rows, i)) == Removed(Shown(rows), i)
  {
  }

  lemma RenumberedIsValid(rows: seq<Row>)
    requires DistinctAuthors(rows)
    ensures Ascending(Renumbered(rows))
    ensures Valid(Renumbered(rows)) && Shown(Renumbered(rows)) == Shown(rows)
  {
    assert forall i | 0 <= i < |rows| :: Renumbered(rows)[i].author == rows[i].author;
  }

  /** Positions from 1 on are never blocked, so no detachment of a reachable table is refused. */
  lemma DetachNeverBlocked(rows: seq<Row>, i: nat)
    requires Valid(rows) && i < |rows|
    ensures !Blocked(Removed(rows, i))
  {
    RemovedKeeps(rows, i);
  }

  /** Detaching removes the author from the shown list, keeps the others in order and closes the gap. */
  lemma DetachRemoves(rows: seq<Row>, author: nat)
    requires Valid(rows)
    ensures Valid(Detached(rows, author))
    ensures Shown(Detached(rows, author)) == Without(Shown(rows), author)
  {
    FindIffShown(rows, author);
    var i := Find(rows, author);
    if i < |rows| {
      RemovedKeeps(rows, i);
      RenumberedIsValid(Removed(rows, i));
      RemovedShown(rows, i);
      WithoutOne(Shown(rows), i);
    } else {
      WithoutAbsent(Shown(rows), author);
    }
  }

  // ----- every run -----

  datatype Action = Attach(author: nat) | Detach(author: nat)

  function Step(rows: seq<Row>, action: Action): seq<Row> {
    match action
    case Attach(author) => Attached(rows, author)
    case Detach(author) => Detached(rows, author)
  }

  function Run(rows: seq<Row>, actions: seq<Action>): seq<Row> {
    if actions == [] then rows else Step(Run(rows, actions[..|actions| - 1]), actions[|actions| - 1])
  }

  /** The same step on a plain list. */
  function ListStep(authors: seq<nat>, action: Action): seq<nat> {
    match action
    case Attach(author) => if author in authors then authors else authors + [author]
    case Detach(author) => Without(authors, author)
  }

  function ListRun(authors: seq<nat>, actions: seq<Action>): seq<nat> {
    if actions == [] then authors
    else ListStep(ListRun(authors, actions[..|actions| - 1]), actions[|actions| - 1])
  }

  /**
   Over every run, positions are exactly 1..n, no author appears twice, and the rows show what a
   plain list would hold.
   */
  lemma {:induction false} PositionsStayContiguous(rows: seq<Row>, actions: seq<Action>)
    requires Valid(rows)
    ensures Valid(Run(rows, actions))
    ensures Shown(Run(rows, actions)) == ListRun(Shown(rows), actions)
    decreases |actions|
  {
    if actions != [] {
      PositionsStayContiguous(rows, actions[..|actions| - 1]);
      var before := Run(rows, actions[..|actions| - 1]);
      match actions[|actions| - 1]
      case Attach(author) => AttachAppends(before, author);
      case Detach(author) => DetachRemoves(before, author);
    }
  }
}
