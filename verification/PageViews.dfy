/**
 The page access log as analytics counts it, and the migration that reduced it to one row per
 session and page. The log is held in the order both loops read it in, by instant then primary key.
 */
module PageViews {
  import opened Prelude
  import Catalog

  /** Whose reading of what; the dimensions an aggregate is kept by come from here. */
  datatype Activity = Activity(user: Option<nat>, document: nat, domain: Option<nat>, access: Catalog.AccessValue,
      at: int)

  /** The page is null once it has been deleted; its number stays. */
  datatype Row = Row(pk: nat, session: nat, page: Option<nat>, pageNumber: nat, activity: Activity)

  type Key = Option<(nat, nat)>

  /** What the unique constraint is on: nothing when the page is null. */
  function PageKey(r: Row): Key {
    if r.page.Some? then Some((r.session, r.page.value)) else None
  }

  /** What analytics counts once. */
  function NumberKey(r: Row): Key {
    Some((r.session, r.pageNumber))
  }

  ghost predicate DistinctRows(log: seq<Row>) {
    forall i, j | 0 <= i < j < |log| :: log[i].pk != log[j].pk
  }

  ghost predicate InTimeOrder(log: seq<Row>) {
    forall i, j | 0 <= i < j < |log| :: log[i].activity.at <= log[j].activity.at
  }

  /** A page has one number, so rows of one page carry the same. */
  ghost predicate OneNumberPerPage(log: seq<Row>) {
    forall i, j | 0 <= i < |log| && 0 <= j < |log| && log[i].page.Some? && PageKey(log[i]) == PageKey(log[j]) ::
      log[i].pageNumber == log[j].pageNumber
  }

  ghost predicate LogValid(log: seq<Row>) {
    DistinctRows(log) && InTimeOrder(log) && OneNumberPerPage(log)
  }

  // ----- the first row of each key -----

  predicate Has(rows: seq<Row>, key: Row -> Key, k: Key) {
    exists i | 0 <= i < |rows| :: key(rows[i]) == k
  }

  predicate IsRepeat(before: seq<Row>, r: Row, key: Row -> Key) {
    key(r).Some? && Has(before, key, key(r))
  }

  function Firsts(rows: seq<Row>, key: Row -> Key): seq<Row> {
    if rows == [] then []
    else
      var before, r := rows[..|rows| - 1], rows[|rows| - 1];
      if IsRepeat(before, r, key) then Firsts(before, key) else Firsts(before, key) + [r]
  }

  /** The rows of a half-open window of time. */
  function Window(log: seq<Row>, start: int, end: int): seq<Row> {
    if log == [] then []
    else
      var before, r := log[..|log| - 1], log[|log| - 1];
      if start <= r.activity.at < end then Window(before, start, end) + [r] else Window(before, start, end)
  }

  function Activities(rows: seq<Row>): seq<Activity> {
    if rows == [] then [] else Activities(rows[..|rows| - 1]) + [rows[|rows| - 1].activity]
  }

  /** The rows analytics counts in a window. */
  function DistinctViews(log: seq<Row>, start: int, end: int): seq<Row> {
    Firsts(Window(log, start, end), NumberKey)
  }

  /** The keys a loop has seen. */
  function Keys(rows: seq<Row>, key: Row -> Key): set<(nat, nat)> {
    if rows == [] then {}
    else
      var before, k := Keys(rows[..|rows| - 1], key), key(rows[|rows| - 1]);
      if k.Some? then before + {k.value} else before
  }

  lemma {:induction false} KeysAreHad(rows: seq<Row>, key: Row -> Key, k: (nat, nat))
    ensures k in Keys(rows, key) <==> Has(rows, key, Some(k))
  {
    if rows != [] {
      var before, r := rows[..|rows| - 1], rows[|rows| - 1];
      KeysAreHad(before, key, k);
      HasAppend(before, r, key, Some(k));
      assert rows == before + [r];
    }
  }

  /** One turn of either loop. */
  lemma Turn(rows: seq<Row>, i: nat, key: Row -> Key)
    requires i < |rows|
    ensures var before, now, r := rows[..i], rows[..i + 1], rows[i];
            && (key(r).Some? ==> Keys(now, key) == Keys(before, key) + {key(r).value})
            && (key(r).None? ==> Keys(now, key) == Keys(before, key))
            && (IsRepeat(before, r, key) <==> key(r).Some? && key(r).value in Keys(before, key))
            && Firsts(now, key) == (if IsRepeat(before, r, key) then Firsts(before, key) else Firsts(before, key) + [r])
            && Doomed(now, key) == (if IsRepeat(before, r, key) then Doomed(before, key) + {r.pk}
                 else Doomed(before, key))
  {
    assert rows[..i + 1][..i] == rows[..i];
    if key(rows[i]).Some? {
      KeysAreHad(rows[..i], key, key(rows[i]).value);
    }
  }

  lemma ActivitiesAppend(rows: seq<Row>, r: Row)
    ensures Activities(rows + [r]) == Activities(rows) + [r.activity]
  {
    assert (rows + [r])[..|rows|] == rows;
  }

  method DistinctPageViews(log: seq<Row>, start: int, end: int) returns (rows: seq<Activity>)
    ensures rows == Activities(DistinctViews(log, start, end))
  {
    var window := Window(log, start, end);
    var seen: set<(nat, nat)> := {};
    rows := [];
    for i := 0 to |window|
      invariant seen == Keys(window[..i], NumberKey)
      invariant rows == Activities(Firsts(window[..i], NumberKey))
    {
      var row := window[i];
      var key := (row.session, row.pageNumber);
      Turn(window, i, NumberKey);
      ActivitiesAppend(Firsts(window[..i], NumberKey), row);
      if key in seen {
        continue;
      }
      seen := seen + {key};
      rows := rows + [row.activity];
    }
    assert window[..|window|] == window;
  }

  /** The primary keys of the repeats. */
  function Doomed(rows: seq<Row>, key: Row -> Key): set<nat> {
    if rows == [] then {}
    else
      var before, r := rows[..|rows| - 1], rows[|rows| - 1];
      if IsRepeat(before, r, key) then Doomed(before, key) + {r.pk} else Doomed(before, key)
  }

  /** Deletion of the rows whose primary key is in a list. */
  function Remaining(log: seq<Row>, doomed: set<nat>): seq<Row> {
    if log == [] then []
    else
      var before, r := log[..|log| - 1], log[|log| - 1];
      if r.pk in doomed then Remaining(before, doomed) else Remaining(before, doomed) + [r]
  }

  /** The rows the migration leaves: its loop collects the others' primary keys, and one query deletes them. */
  method DeduplicatePageAccessLogs(log: seq<Row>) returns (kept: seq<Row>)
    requires DistinctRows(log)
    ensures kept == Firsts(log, PageKey)
  {
    var seen: set<(nat, nat)> := {};
    var doomed: set<nat> := {};
    for i := 0 to |log|
      invariant seen == Keys(log[..i], PageKey)
      invariant doomed == Doomed(log[..i], PageKey)
    {
      var row := log[i];
      Turn(log, i, PageKey);
      if row.page.None? {
        continue;
      }
      var key := (row.session, row.page.value);
      if key in seen {
        doomed := doomed + {row.pk};
      } else {
        seen := seen + {key};
      }
    }
    assert log[..|log|] == log;
    DeletingTheDoomed(log, PageKey);
    kept := Remaining(log, doomed);
  }

  lemma {:induction false} RemainingIgnores(log: seq<Row>, doomed: set<nat>, pk: nat)
    requires forall i | 0 <= i < |log| :: log[i].pk != pk
    ensures Remaining(log, doomed + {pk}) == Remaining(log, doomed)
  {
    if log != [] {
      RemainingIgnores(log[..|log| - 1], doomed, pk);
    }
  }

  lemma {:induction false} DoomedAreThere(log: seq<Row>, key: Row -> Key, pk: nat)
    requires pk in Doomed(log, key)
    ensures exists i | 0 <= i < |log| :: log[i].pk == pk
  {
    var before := log[..|log| - 1];
    if pk in Doomed(before, key) {
      DoomedAreThere(before, key, pk);
      var i :| 0 <= i < |before| && before[i].pk == pk;
      assert log[i].pk == pk;
    }
  }

  lemma {:induction false} DeletingTheDoomed(log: seq<Row>, key: Row -> Key)
    requires DistinctRows(log)
    ensures Remaining(log, Doomed(log, key)) == Firsts(log, key)
  {
    if log != [] {
      var before, r := log[..|log| - 1], log[|log| - 1];
      DeletingTheDoomed(before, key);
      RemainingIgnores(before, Doomed(before, key), r.pk);
      if r.pk in Doomed(before, key) {
        DoomedAreThere(before, key, r.pk);
      }
    }
  }

  lemma HasAppend(rows: seq<Row>, r: Row, key: Row -> Key, k: Key)
    ensures Has(rows + [r], key, k) <==> Has(rows, key, k) || k == key(r)
  {
    if i :| 0 <= i < |rows| && key(rows[i]) == k {
      assert key((rows + [r])[i]) == k;
    }
    assert key((rows + [r])[|rows|]) == key(r);
  }

  // ----- what keeping the first row of each key does -----

  ghost predicate OnePerKey(rows: seq<Row>, key: Row -> Key) {
    forall i, j | 0 <= i < j < |rows| && key(rows[i]).Some? :: key(rows[i]) != key(rows[j])
  }

  /** One row is left per key, every key keeps one, and rows without key all stay. */
  lemma {:induction false} FirstsProperties(rows: seq<Row>, key: Row -> Key)
    ensures OnePerKey(Firsts(rows, key), key)
    ensures forall k :: Has(Firsts(rows, key), key, k) <==> Has(rows, key, k)
    ensures forall r | r in rows && key(r).None? :: r in Firsts(rows, key)
    ensures forall r | r in Firsts(rows, key) :: r in rows
  {
    if rows != [] {
      var before, r := rows[..|rows| - 1], rows[|rows| - 1];
      FirstsProperties(before, key);
      assert rows == before + [r];
      forall k ensures Has(Firsts(rows, key), key, k) <==> Has(rows, key, k) {
        HasAppend(before, r, key, k);
        HasAppend(Firsts(before, key), r, key, k);
      }
      if !IsRepeat(before, r, key) {
        FirstsStayApart(Firsts(before, key), r, key);
      }
    }
  }

  lemma FirstsStayApart(rows: seq<Row>, r: Row, key: Row -> Key)
    requires OnePerKey(rows, key) && !IsRepeat(rows, r, key)
    ensures OnePerKey(rows + [r], key)
  {
  }

  /** A first row is there, a repeat is not. */
  lemma {:induction false} FirstsMember(rows: seq<Row>, key: Row -> Key, i: nat)
    requires DistinctRows(rows) && i < |rows|
    ensures rows[i] in Firsts(rows, key) <==> !IsRepeat(rows[..i], rows[i], key)
    decreases |rows|
  {
    var before, last := rows[..|rows| - 1], rows[|rows| - 1];
    FirstsProperties(before, key);
    if i < |rows| - 1 {
      FirstsMember(before, key, i);
      assert before[..i] == rows[..i];
    }
  }

  /** When keys never repeat there is nothing to remove. */
  lemma {:induction false} FirstsIdle(rows: seq<Row>, key: Row -> Key)
    requires OnePerKey(rows, key)
    ensures Firsts(rows, key) == rows
  {
    if rows != [] {
      FirstsIdle(rows[..|rows| - 1], key);
      assert rows == rows[..|rows| - 1] + [rows[|rows| - 1]];
    }
  }

  /**
   The migration establishes the constraint, keeps every null-page row and a row of every (session,
   page), and repeats without effect.
   */
  lemma MigrationEstablishesConstraint(log: seq<Row>)
    ensures var kept := Firsts(log, PageKey);
            && OnePerKey(kept, PageKey)
            && (forall r | r in log && r.page.None? :: r in kept)
            && (forall r | r in kept :: r in log)
            && (forall k :: Has(kept, PageKey, k) <==> Has(log, PageKey, k))
            && Firsts(kept, PageKey) == kept
  {
    FirstsProperties(log, PageKey);
    FirstsIdle(Firsts(log, PageKey), PageKey);
  }

  // ----- whether the counts of a window change -----

  /**
   Row i is the one counted in the window, and the same session had read the same page before the
   window opened.
   */
  ghost predicate StraddlesAt(log: seq<Row>, start: int, end: int, i: nat)
    requires i < |log|
  {
    && start <= log[i].activity.at < end
    && !IsRepeat(Window(log[..i], start, end), log[i], NumberKey)
    && exists j | 0 <= j < i :: log[j].activity.at < start && log[i].page.Some? && PageKey(log[j]) == PageKey(log[i])
  }

  ghost predicate Straddles(log: seq<Row>, start: int, end: int) {
    exists i | 0 <= i < |log| :: StraddlesAt(log, start, end, i)
  }

  lemma {:induction false} WindowMembers(log: seq<Row>, start: int, end: int)
    ensures forall r :: r in Window(log, start, end) <==> r in log && start <= r.activity.at < end
  {
    if log != [] {
      WindowMembers(log[..|log| - 1], start, end);
      assert log == log[..|log| - 1] + [log[|log| - 1]];
    }
  }

  lemma HasMember(rows: seq<Row>, key: Row -> Key, r: Row)
    requires r in rows
    ensures Has(rows, key, key(r))
  {
    var i :| 0 <= i < |rows| && rows[i] == r;
    assert key(rows[i]) == key(r);
  }

  lemma PrefixStraddles(log: seq<Row>, start: int, end: int)
    requires log != [] && Straddles(log[..|log| - 1], start, end)
    ensures Straddles(log, start, end)
  {
    var before := log[..|log| - 1];
    var i :| 0 <= i < |before| && StraddlesAt(before, start, end, i);
    assert before[..i] == log[..i];
    assert StraddlesAt(log, start, end, i);
  }

  /** A row the migration deletes was not the one counted, unless it straddles. */
  lemma DeletedWasRepeat(log: seq<Row>, start: int, end: int)
    requires log != [] && LogValid(log) && !Straddles(log, start, end)
    requires var before, r := log[..|log| - 1], log[|log| - 1];
             start <= r.activity.at < end && IsRepeat(before, r, PageKey)
    ensures var before, r := log[..|log| - 1], log[|log| - 1];
            IsRepeat(Window(before, start, end), r, NumberKey)
  {
    var before, n := log[..|log| - 1], |log| - 1;
    var j :| 0 <= j < n && PageKey(before[j]) == PageKey(log[n]);
    assert before[j] == log[j] && log[j].pageNumber == log[n].pageNumber;
    if log[j].activity.at >= start {
      WindowMembers(before, start, end);
      assert before[j] in before;
      HasMember(Window(before, start, end), NumberKey, before[j]);
    } else {
      assert !StraddlesAt(log, start, end, n);
    }
  }

  lemma FirstsAppend(rows: seq<Row>, r: Row, key: Row -> Key)
    ensures Firsts(rows + [r], key) == if IsRepeat(rows, r, key) then Firsts(rows, key) else Firsts(rows, key) + [r]
  {
    assert (rows + [r])[..|rows|] == rows;
  }

  lemma WindowAppend(rows: seq<Row>, r: Row, start: int, end: int)
    ensures Window(rows + [r], start, end)
         == if start <= r.activity.at < end then Window(rows, start, end) + [r] else Window(rows, start, end)
  {
    assert (rows + [r])[..|rows|] == rows;
  }

  ghost predicate CountedNext(rows: seq<Row>, r: Row, start: int, end: int) {
    start <= r.activity.at < end && !IsRepeat(Window(rows, start, end), r, NumberKey)
  }

  lemma ViewsAppend(rows: seq<Row>, r: Row, start: int, end: int)
    ensures DistinctViews(rows + [r], start, end)
         == if CountedNext(rows, r, start, end) then DistinctViews(rows, start, end) + [r]
             else DistinctViews(rows, start, end)
  {
    WindowAppend(rows, r, start, end);
    FirstsAppend(Window(rows, start, end), r, NumberKey);
  }

  /** Whether a row is counted depends on the views counted so far alone. */
  lemma CountedByViews(a: seq<Row>, b: seq<Row>, r: Row, start: int, end: int)
    requires DistinctViews(a, start, end) == DistinctViews(b, start, end)
    ensures CountedNext(a, r, start, end) == CountedNext(b, r, start, end)
  {
    FirstsProperties(Window(a, start, end), NumberKey);
    FirstsProperties(Window(b, start, end), NumberKey);
  }

  lemma KeptViewsStep(before: seq<Row>, r: Row, start: int, end: int)
    requires DistinctViews(Firsts(before, PageKey), start, end) == DistinctViews(before, start, end)
    requires CountedNext(before, r, start, end) ==> !IsRepeat(before, r, PageKey)
    ensures DistinctViews(Firsts(before + [r], PageKey), start, end) == DistinctViews(before + [r], start, end)
  {
    var kept := Firsts(before, PageKey);
    CountedByViews(kept, before, r, start, end);
    ViewsAppend(kept, r, start, end);
    ViewsAppend(before, r, start, end);
    FirstsAppend(before, r, PageKey);
  }

  lemma {:induction false} KeptViewsSame(log: seq<Row>, start: int, end: int)
    requires LogValid(log) && !Straddles(log, start, end)
    ensures DistinctViews(Firsts(log, PageKey), start, end) == DistinctViews(log, start, end)
    decreases |log|
  {
    if log != [] {
      var before, r := log[..|log| - 1], log[|log| - 1];
      if Straddles(before, start, end) {
        PrefixStraddles(log, start, end);
      }
      KeptViewsSame(before, start, end);
      if start <= r.activity.at < end && IsRepeat(before, r, PageKey) {
        DeletedWasRepeat(log, start, end);
      }
      KeptViewsStep(before, r, start, end);
      assert log == before + [r];
    }
  }

  /** The views a window counts stay the same rows exactly when no counted row straddles its opening. */
  lemma ViewsSameIffNoStraddle(log: seq<Row>, start: int, end: int)
    requires LogValid(log)
    ensures DistinctViews(Firsts(log, PageKey), start, end) == DistinctViews(log, start, end)
       <==> !Straddles(log, start, end)
  {
    if i :| 0 <= i < |log| && StraddlesAt(log, start, end, i) {
      StraddlingIsCounted(log, start, end, i);
      StraddlingIsDeleted(log, start, end, i);
    } else {
      KeptViewsSame(log, start, end);
    }
  }

  lemma {:induction false} StraddlingIsCounted(log: seq<Row>, start: int, end: int, i: nat)
    requires i < |log| && StraddlesAt(log, start, end, i)
    ensures log[i] in DistinctViews(log, start, end)
    decreases |log|
  {
    var before, r := log[..|log| - 1], log[|log| - 1];
    ViewsAppend(before, r, start, end);
    assert log == before + [r];
    if i < |before| {
      assert before[..i] == log[..i];
      StraddlingIsCounted(before, start, end, i);
    } else {
      assert log[..i] == before;
    }
  }

  lemma StraddlingIsDeleted(log: seq<Row>, start: int, end: int, i: nat)
    requires DistinctRows(log) && i < |log| && StraddlesAt(log, start, end, i)
    ensures log[i] !in DistinctViews(Firsts(log, PageKey), start, end)
  {
    var kept := Firsts(log, PageKey);
    var j :| 0 <= j < i && log[i].page.Some? && PageKey(log[j]) == PageKey(log[i]);
    assert log[..i][j] == log[j];
    FirstsMember(log, PageKey, i);
    WindowMembers(kept, start, end);
    FirstsProperties(Window(kept, start, end), NumberKey);
  }

  /** In particular for every window that opens no later than the first entry of the log. */
  lemma ViewsSameFromTheStart(log: seq<Row>, start: int, end: int)
    requires LogValid(log) && (log != [] ==> start <= log[0].activity.at)
    ensures Activities(DistinctViews(Firsts(log, PageKey), start, end)) == Activities(DistinctViews(log, start, end))
  {
    assert !Straddles(log, start, end);
    KeptViewsSame(log, start, end);
  }

  // ----- whether a window loses a view -----

  /** The same session had read the page of row i before the window opened. */
  ghost predicate WasReadBefore(log: seq<Row>, start: int, i: nat)
    requires i < |log|
  {
    && log[i].page.Some?
    && exists j | 0 <= j < |log| :: log[j].activity.at < start && PageKey(log[j]) == PageKey(log[i])
  }

  /** Row i is of the pair, in the window, and of a page not read before or of a deleted page. */
  ghost predicate IsFresh(log: seq<Row>, start: int, end: int, pair: Key, i: nat)
    requires i < |log|
  {
    start <= log[i].activity.at < end && NumberKey(log[i]) == pair && !WasReadBefore(log, start, i)
  }

  ghost predicate IsReadAfresh(log: seq<Row>, start: int, end: int, pair: Key) {
    exists i | 0 <= i < |log| :: IsFresh(log, start, end, pair, i)
  }

  /** A pair read in the window has no fresh row there. */
  ghost predicate LosesPair(log: seq<Row>, start: int, end: int) {
    exists i | 0 <= i < |log| ::
      start <= log[i].activity.at < end && !IsReadAfresh(log, start, end, NumberKey(log[i]))
  }

  lemma {:induction false} FirstOfPage(log: seq<Row>, i: nat) returns (j: nat)
    requires i < |log| && log[i].page.Some?
    ensures j <= i && PageKey(log[j]) == PageKey(log[i]) && !IsRepeat(log[..j], log[j], PageKey)
    decreases i
  {
    j := i;
    if IsRepeat(log[..i], log[i], PageKey) {
      var k :| 0 <= k < i && PageKey(log[..i][k]) == PageKey(log[i]);
      assert log[..i][k] == log[k];
      j := FirstOfPage(log, k);
    }
  }

  lemma AfreshIsKept(log: seq<Row>, start: int, end: int, pair: Key)
    requires LogValid(log) && IsReadAfresh(log, start, end, pair)
    ensures Has(Window(Firsts(log, PageKey), start, end), NumberKey, pair)
  {
    var i :| 0 <= i < |log| && IsFresh(log, start, end, pair, i);
    var j := i;
    if log[i].page.Some? {
      j := FirstOfPage(log, i);
      assert log[j].pageNumber == log[i].pageNumber;
    }
    FirstsMember(log, PageKey, j);
    WindowMembers(Firsts(log, PageKey), start, end);
    HasMember(Window(Firsts(log, PageKey), start, end), NumberKey, log[j]);
  }

  lemma EarlierMakesRepeat(log: seq<Row>, j: nat, i: nat)
    requires j < i < |log| && log[i].page.Some? && PageKey(log[j]) == PageKey(log[i])
    ensures IsRepeat(log[..i], log[i], PageKey)
  {
    assert log[..i][j] == log[j];
  }

  lemma FirstIsFresh(log: seq<Row>, start: int, i: nat)
    requires LogValid(log) && i < |log| && start <= log[i].activity.at && !IsRepeat(log[..i], log[i], PageKey)
    ensures !WasReadBefore(log, start, i)
  {
    if log[i].page.Some? {
      forall j | 0 <= j < |log| && PageKey(log[j]) == PageKey(log[i]) ensures log[j].activity.at >= start {
        if j < i {
          EarlierMakesRepeat(log, j, i);
        }
      }
    }
  }

  lemma KeptIsAfresh(log: seq<Row>, start: int, end: int, r: Row, pair: Key)
    requires LogValid(log) && r in Firsts(log, PageKey) && start <= r.activity.at < end && NumberKey(r) == pair
    ensures IsReadAfresh(log, start, end, pair)
  {
    FirstsProperties(log, PageKey);
    var i :| 0 <= i < |log| && log[i] == r;
    FirstsMember(log, PageKey, i);
    FirstIsFresh(log, start, i);
    assert IsFresh(log, start, end, pair, i);
  }

  lemma HadIsRead(rows: seq<Row>, pair: Key) returns (r: Row)
    requires Has(rows, NumberKey, pair)
    ensures r in rows && NumberKey(r) == pair
  {
    var m :| 0 <= m < |rows| && NumberKey(rows[m]) == pair;
    r := rows[m];
  }

  lemma ViewsHaveWindow(log: seq<Row>, start: int, end: int, pair: Key)
    ensures Has(DistinctViews(log, start, end), NumberKey, pair) <==> Has(Window(log, start, end), NumberKey, pair)
  {
    FirstsProperties(Window(log, start, end), NumberKey);
  }

  /** After the migration a pair is counted in the window iff it has a fresh row there. */
  lemma PairKeptIff(log: seq<Row>, start: int, end: int, pair: Key)
    requires LogValid(log)
    ensures Has(DistinctViews(Firsts(log, PageKey), start, end), NumberKey, pair)
       <==> IsReadAfresh(log, start, end, pair)
  {
    var kept := Window(Firsts(log, PageKey), start, end);
    ViewsHaveWindow(Firsts(log, PageKey), start, end, pair);
    if Has(kept, NumberKey, pair) {
      var r := HadIsRead(kept, pair);
      WindowMembers(Firsts(log, PageKey), start, end);
      KeptIsAfresh(log, start, end, r, pair);
    }
    if IsReadAfresh(log, start, end, pair) {
      AfreshIsKept(log, start, end, pair);
    }
  }

  lemma OneMore(s: set<(nat, nat)>, k: (nat, nat))
    ensures |s + {k}| == if k in s then |s| else |s| + 1
  {
    if k in s {
      assert s + {k} == s;
    } else {
      assert s * {k} == {};
    }
  }

  lemma {:induction false} FirstsCount(rows: seq<Row>)
    ensures |Firsts(rows, NumberKey)| == |Keys(rows, NumberKey)|
  {
    if rows != [] {
      FirstsCount(rows[..|rows| - 1]);
      Turn(rows, |rows| - 1, NumberKey);
      OneMore(Keys(rows[..|rows| - 1], NumberKey), NumberKey(rows[|rows| - 1]).value);
      assert rows[..|rows|] == rows;
    }
  }

  /** The pairs counted in a window. */
  function Pairs(log: seq<Row>, start: int, end: int): set<(nat, nat)> {
    Keys(Window(log, start, end), NumberKey)
  }

  lemma PairsAreRead(log: seq<Row>, start: int, end: int, pair: (nat, nat))
    ensures |DistinctViews(log, start, end)| == |Pairs(log, start, end)|
    ensures pair in Pairs(log, start, end) <==> Has(DistinctViews(log, start, end), NumberKey, Some(pair))
    ensures pair in Pairs(log, start, end) <==>
              exists i | 0 <= i < |log| :: start <= log[i].activity.at < end && NumberKey(log[i]) == Some(pair)
  {
    var window := Window(log, start, end);
    FirstsCount(window);
    KeysAreHad(window, NumberKey, pair);
    FirstsProperties(window, NumberKey);
    WindowMembers(log, start, end);
    if i :| 0 <= i < |log| && start <= log[i].activity.at < end && NumberKey(log[i]) == Some(pair) {
      HasMember(window, NumberKey, log[i]);
    }
    if Has(window, NumberKey, Some(pair)) {
      var m :| 0 <= m < |window| && NumberKey(window[m]) == Some(pair);
      assert window[m] in log;
    }
  }

  lemma KeptPairs(log: seq<Row>, start: int, end: int)
    requires LogValid(log)
    ensures Pairs(Firsts(log, PageKey), start, end) <= Pairs(log, start, end)
    ensures Pairs(Firsts(log, PageKey), start, end) == Pairs(log, start, end) <==> !LosesPair(log, start, end)
  {
    var kept := Firsts(log, PageKey);
    forall pair
      ensures pair in Pairs(kept, start, end) <==> IsReadAfresh(log, start, end, Some(pair))
      ensures pair in Pairs(kept, start, end) ==> pair in Pairs(log, start, end)
    {
      PairsAreRead(kept, start, end, pair);
      PairsAreRead(log, start, end, pair);
      PairKeptIff(log, start, end, Some(pair));
    }
    if LosesPair(log, start, end) {
      var i :| 0 <= i < |log| && start <= log[i].activity.at < end
        && !IsReadAfresh(log, start, end, NumberKey(log[i]));
      PairsAreRead(log, start, end, NumberKey(log[i]).value);
      assert NumberKey(log[i]).value !in Pairs(kept, start, end);
    } else {
      forall pair | pair in Pairs(log, start, end) ensures pair in Pairs(kept, start, end) {
        PairsAreRead(log, start, end, pair);
        var i :| 0 <= i < |log| && start <= log[i].activity.at < end && NumberKey(log[i]) == Some(pair);
        assert IsReadAfresh(log, start, end, NumberKey(log[i]));
      }
    }
  }

  lemma FewerIffSmaller(a: set<(nat, nat)>, b: set<(nat, nat)>)
    requires a <= b
    ensures |a| <= |b| && (|a| == |b| <==> a == b)
  {
    assert b == a + (b - a);
    assert a == b <==> b - a == {};
  }

  /**
   The migration never adds a view to a window, and takes none away exactly when every pair read
   there has a row that is of a deleted page or of a page not read before the window opened.
   */
  lemma ViewCountSameIff(log: seq<Row>, start: int, end: int)
    requires LogValid(log)
    ensures var before, after := DistinctViews(log, start, end), DistinctViews(Firsts(log, PageKey), start, end);
            && |after| <= |before|
            && (|after| == |before| <==> !LosesPair(log, start, end))
  {
    PairsAreRead(log, start, end, (0, 0));
    PairsAreRead(Firsts(log, PageKey), start, end, (0, 0));
    KeptPairs(log, start, end);
    FewerIffSmaller(Pairs(Firsts(log, PageKey), start, end), Pairs(log, start, end));
  }

  lemma OneReadBefore(a: Row, start: int, end: int)
    requires a.activity.at < start
    ensures Firsts([a], PageKey) == [a]
    ensures Window([a], start, end) == [] && DistinctViews([a], start, end) == []
  {
    assert [a][..0] == [];
  }

  lemma OneReadCounts(r: Row)
    ensures Firsts([r], NumberKey) == [r]
  {
    assert [r][..0] == [];
  }

  lemma TwoReads(a: Row, b: Row, start: int, end: int)
    requires a.activity.at < start <= b.activity.at < end && a.page.Some? && PageKey(a) == PageKey(b)
    ensures DistinctViews([a] + [b], start, end) == [b]
    ensures Firsts([a] + [b], PageKey) == [a] && DistinctViews([a], start, end) == []
  {
    OneReadBefore(a, start, end);
    WindowAppend([a], b, start, end);
    assert [] + [b] == [b];
    OneReadCounts(b);
    FirstsAppend([a], b, PageKey);
    assert PageKey([a][0]) == PageKey(b);
  }

  lemma TwoRowsValid(a: Row, b: Row)
    requires a.pk != b.pk && a.activity.at <= b.activity.at && a.pageNumber == b.pageNumber
    ensures LogValid([a] + [b])
  {
  }

  /** A reading of page 1 by the first session. */
  function PageOneRead(pk: nat, who: Activity, at: int): Row {
    Row(pk, 0, Some(0), 1, who.(at := at))
  }

  /** A page read on two days in one session: the second day loses its only view. */
  lemma SecondDayLosesItsView(who: Activity, day: nat)
    requires day > 0
    ensures var log := [PageOneRead(0, who, 0)] + [PageOneRead(1, who, day)];
            && LogValid(log)
            && |DistinctViews(log, day, 2 * day)| == 1
            && DistinctViews(Firsts(log, PageKey), day, 2 * day) == []
  {
    TwoRowsValid(PageOneRead(0, who, 0), PageOneRead(1, who, day));
    TwoReads(PageOneRead(0, who, 0), PageOneRead(1, who, day), day, 2 * day);
  }

  // ----- what is counted, and what is kept -----

  /** Row i is the first of its session and page number in the window. */
  ghost predicate IsFirstRead(log: seq<Row>, start: int, end: int, i: nat)
    requires i < |log|
  {
    && start <= log[i].activity.at < end
    && forall j | 0 <= j < i && start <= log[j].activity.at < end ::
         !(log[j].session == log[i].session && log[j].pageNumber == log[i].pageNumber)
  }

  lemma RepeatInWindow(before: seq<Row>, r: Row, start: int, end: int)
    ensures IsRepeat(Window(before, start, end), r, NumberKey) <==>
              exists j | 0 <= j < |before| :: start <= before[j].activity.at < end
                && before[j].session == r.session && before[j].pageNumber == r.pageNumber
  {
    var window := Window(before, start, end);
    WindowMembers(before, start, end);
    if Has(window, NumberKey, NumberKey(r)) {
      var q := HadIsRead(window, NumberKey(r));
      assert q in before;
    }
    forall j | 0 <= j < |before| && start <= before[j].activity.at < end && NumberKey(before[j]) == NumberKey(r)
      ensures Has(window, NumberKey, NumberKey(r))
    {
      HasMember(window, NumberKey, before[j]);
    }
  }

  /** Analytics counts the first row of each session and page number in the window, and no other. */
  lemma {:induction false} ViewsAreFirstReads(log: seq<Row>, start: int, end: int, r: Row)
    ensures r in DistinctViews(log, start, end) <==>
              exists i | 0 <= i < |log| :: log[i] == r && IsFirstRead(log, start, end, i)
    decreases |log|
  {
    if log != [] {
      var before, last := log[..|log| - 1], log[|log| - 1];
      assert log == before + [last];
      ViewsAreFirstReads(before, start, end, r);
      ViewsAppend(before, last, start, end);
      RepeatInWindow(before, last, start, end);
      assert IsFirstRead(log, start, end, |before|) <==> CountedNext(before, last, start, end);
      forall i | 0 <= i < |before| ensures IsFirstRead(log, start, end, i) <==> IsFirstRead(before, start, end, i) {
      }
    }
  }

  /** Each pair of session and page number read in the window is counted exactly once. */
  lemma ViewsAreDistinctPairs(log: seq<Row>, start: int, end: int)
    ensures var views := DistinctViews(log, start, end);
            && (forall i, j | 0 <= i < j < |views| ::
                  !(views[i].session == views[j].session && views[i].pageNumber == views[j].pageNumber))
            && (forall r | r in log && start <= r.activity.at < end ::
                  exists v :: v in views && v.session == r.session && v.pageNumber == r.pageNumber)
            && (forall v | v in views :: v in log && start <= v.activity.at < end)
  {
    var views := DistinctViews(log, start, end);
    FirstsProperties(Window(log, start, end), NumberKey);
    WindowMembers(log, start, end);
    forall i, j | 0 <= i < j < |views|
      ensures !(views[i].session == views[j].session && views[i].pageNumber == views[j].pageNumber)
    {
      assert NumberKey(views[i]) != NumberKey(views[j]);
    }
    forall r | r in log && start <= r.activity.at < end
      ensures exists v :: v in views && v.session == r.session && v.pageNumber == r.pageNumber
    {
      HasMember(Window(log, start, end), NumberKey, r);
      var v := HadIsRead(views, NumberKey(r));
    }
  }

  /** The migration keeps a row exactly when its page is deleted or no earlier row has its session and page. */
  lemma KeptIff(log: seq<Row>, i: nat)
    requires DistinctRows(log) && i < |log|
    ensures log[i] in Firsts(log, PageKey) <==>
              log[i].page.None? ||
              forall j | 0 <= j < i :: !(log[j].session == log[i].session && log[j].page == log[i].page)
  {
    FirstsMember(log, PageKey, i);
    if j :| 0 <= j < i && log[j].session == log[i].session && log[j].page == log[i].page {
      assert log[..i][j] == log[j];
      assert PageKey(log[..i][j]) == PageKey(log[i]);
    }
    if log[i].page.Some? && Has(log[..i], PageKey, PageKey(log[i])) {
      var j :| 0 <= j < i && PageKey(log[..i][j]) == PageKey(log[i]);
      assert log[..i][j] == log[j];
    }
  }
}
