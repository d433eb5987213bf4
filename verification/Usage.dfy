/**
 Daily usage aggregates: attribution of activity to one organisation, counting, replacement of a
 day's rows, and the report that sums them.
 */
module Usage {
  import opened Prelude
  import opened Sums
  import Access
  import Catalog
  import PageViews

  type Activity = PageViews.Activity

  // ----- attribution -----

  datatype Spell = Spell(organization: nat, startsAt: int, endsAt: Option<int>)
  {
    predicate Covers(at: int) {
      startsAt <= at && (endsAt.Some? ==> at < endsAt.value)
    }
  }

  type Windows = map<nat, seq<Spell>>

  function SpellsIn(windows: Windows, user: nat): seq<Spell> {
    if user in windows then windows[user] else []
  }

  /** Unlike reading rights, attribution does not ask for a verified identity. */
  predicate IsActive(accounts: Access.Accounts, m: Access.Membership) {
    m.active && m.organization in accounts.organizations && accounts.organizations[m.organization].active
  }

  function SpellsOf(accounts: Access.Accounts, memberships: seq<Access.Membership>, user: nat): seq<Spell> {
    if memberships == [] then []
    else
      var before, m := SpellsOf(accounts, memberships[..|memberships| - 1], user), memberships[|memberships| - 1];
      if m.user == user && IsActive(accounts, m) then before + [Spell(m.organization, m.startsAt, m.endsAt)] else before
  }

  /** One query for all the users of a day, grouped by user in a loop. */
  method MembershipWindows(accounts: Access.Accounts, users: set<nat>) returns (windows: Windows)
    ensures forall user | user in users :: SpellsIn(windows, user) == SpellsOf(accounts, accounts.memberships, user)
  {
    windows := map[];
    for i := 0 to |accounts.memberships|
      invariant forall user | user in users ::
          SpellsIn(windows, user) == SpellsOf(accounts, accounts.memberships[..i], user)
    {
      var m := accounts.memberships[i];
      assert accounts.memberships[..i + 1][..i] == accounts.memberships[..i];
      if m.user in users && IsActive(accounts, m) {
        windows := windows[m.user := SpellsIn(windows, m.user) + [Spell(m.organization, m.startsAt, m.endsAt)]];
      }
    }
    assert accounts.memberships[..|accounts.memberships|] == accounts.memberships;
  }

  function TheOnly(ids: set<nat>): Option<nat> {
    if |ids| != 1 then None
    else
      OnlyOne(ids);
      var id :| id in ids; Some(id)
  }

  lemma OnlyOne(ids: set<nat>)
    requires |ids| == 1
    ensures exists id :: ids == {id}
    ensures forall a, b | a in ids && b in ids :: a == b
  {
    var a :| a in ids;
    assert |ids - {a}| == 0;
    assert ids == {a};
  }

  function SingleOrganizationAt(windows: Windows, user: Option<nat>, at: int): Option<nat> {
    if user.None? then None
    else TheOnly(set s | s in SpellsIn(windows, user.value) && s.Covers(at) :: s.organization)
  }

  /** The active organisations of which the user is an active member at an instant. */
  function OrganizationsAt(accounts: Access.Accounts, user: nat, at: int): set<nat> {
    set m | m in accounts.memberships && m.user == user && m.active
            && m.organization in accounts.organizations && accounts.organizations[m.organization].active
            && m.startsAt <= at && (m.endsAt.Some? ==> at < m.endsAt.value) :: m.organization
  }

  lemma {:induction false} SpellsAreMemberships(accounts: Access.Accounts, memberships: seq<Access.Membership>,
      user: nat, s: Spell)
    ensures s in SpellsOf(accounts, memberships, user)
       <==> exists m :: (m in memberships && m.user == user && IsActive(accounts, m)
                         && s == Spell(m.organization, m.startsAt, m.endsAt))
  {
    if memberships != [] {
      var before, m := memberships[..|memberships| - 1], memberships[|memberships| - 1];
      SpellsAreMemberships(accounts, before, user, s);
      assert memberships == before + [m];
    }
  }

  /** The windows credit an organisation exactly when it is the only one its reader belongs to at that instant. */
  lemma AttributionIsMembership(accounts: Access.Accounts, windows: Windows, user: nat, at: int)
    requires SpellsIn(windows, user) == SpellsOf(accounts, accounts.memberships, user)
    ensures SingleOrganizationAt(windows, Some(user), at) == TheOnly(OrganizationsAt(accounts, user, at))
    ensures forall o :: SingleOrganizationAt(windows, Some(user), at) == Some(o) <==>
        OrganizationsAt(accounts, user, at) == {o}
  {
    var spells := SpellsIn(windows, user);
    var ids := set s | s in spells && s.Covers(at) :: s.organization;
    forall s ensures s in spells <==> exists m :: m in accounts.memberships && m.user == user && IsActive(accounts, m)
                                               && s == Spell(m.organization, m.startsAt, m.endsAt)
    {
      SpellsAreMemberships(accounts, accounts.memberships, user, s);
    }
    forall m | m in accounts.memberships && m.user == user && IsActive(accounts, m)
      ensures Spell(m.organization, m.startsAt, m.endsAt) in spells
    {
    }
    assert ids == OrganizationsAt(accounts, user, at);
    if |ids| == 1 {
      OnlyOne(ids);
    }
  }

  // ----- counting -----

  datatype Dim = Dim(organization: nat, document: nat, domain: Option<nat>, access: Catalog.AccessValue)

  datatype Column = Sessions | Views

  datatype Counts = Counts(sessions: nat, views: nat)
  {
    function At(column: Column): nat {
      if column == Sessions then sessions else views
    }

    function Add(column: Column): Counts {
      if column == Sessions then this.(sessions := sessions + 1) else this.(views := views + 1)
    }
  }

  type Counters = map<Dim, Counts>

  function DimFor(owner: Option<nat>, a: Activity): Option<Dim> {
    if owner.None? then None else Some(Dim(owner.value, a.document, a.domain, a.access))
  }

  /** The dimension the windows credit an activity to. */
  function ByWindows(windows: Windows): Activity -> Option<Dim> {
    (a: Activity) => DimFor(SingleOrganizationAt(windows, a.user, a.at), a)
  }

  /** The dimension the memberships credit it to. */
  function ByMembership(accounts: Access.Accounts): Activity -> Option<Dim> {
    (a: Activity) => DimFor(if a.user.None? then None else TheOnly(OrganizationsAt(accounts, a.user.value, a.at)), a)
  }

  function Bump(counters: Counters, dim: Dim, column: Column): Counters {
    counters[dim := (if dim in counters then counters[dim] else Counts(0, 0)).Add(column)]
  }

  function Counted(counters: Counters, rows: seq<Activity>, credit: Activity -> Option<Dim>, column: Column): Counters {
    if rows == [] then counters
    else
      var before, dim := Counted(counters, rows[..|rows| - 1], credit, column), credit(rows[|rows| - 1]);
      if dim.None? then before else Bump(before, dim.value, column)
  }

  method CountActivity(rows: seq<Activity>, windows: Windows, counters: Counters, column: Column) returns (r: Counters)
    ensures r == Counted(counters, rows, ByWindows(windows), column)
    ensures forall dim :: dim in r <==> dim in counters || exists a :: a in rows && IsCountedUnder(windows, a, dim)
  {
    WindowDims(counters, rows, windows, column);
    r := counters;
    for i := 0 to |rows|
      invariant r == Counted(counters, rows[..i], ByWindows(windows), column)
    {
      var row := rows[i];
      assert rows[..i + 1][..i] == rows[..i];
      var organization := SingleOrganizationAt(windows, row.user, row.at);
      if organization.None? {
        continue;
      }
      r := Bump(r, Dim(organization.value, row.document, row.domain, row.access), column);
    }
    assert rows[..|rows|] == rows;
  }

  /** The windows give its reader one organisation, and the rest of the dimension is the activity's own. */
  ghost predicate IsCountedUnder(windows: Windows, a: Activity, dim: Dim) {
    && SingleOrganizationAt(windows, a.user, a.at) == Some(dim.organization)
    && dim.document == a.document && dim.domain == a.domain && dim.access == a.access
  }

  lemma WindowDims(counters: Counters, rows: seq<Activity>, windows: Windows, column: Column)
    ensures forall dim :: dim in Counted(counters, rows, ByWindows(windows), column) <==>
              dim in counters || exists a :: a in rows && IsCountedUnder(windows, a, dim)
  {
    forall dim ensures dim in Counted(counters, rows, ByWindows(windows), column) <==>
              dim in counters || exists a :: a in rows && IsCountedUnder(windows, a, dim)
    {
      CountedDims(counters, rows, ByWindows(windows), column, dim);
      assert forall a :: ByWindows(windows)(a) == Some(dim) <==> IsCountedUnder(windows, a, dim);
    }
  }

  lemma {:induction false} CountedSame(counters: Counters, rows: seq<Activity>, f: Activity -> Option<Dim>,
      g: Activity -> Option<Dim>, column: Column)
    requires forall a | a in rows :: f(a) == g(a)
    ensures Counted(counters, rows, f, column) == Counted(counters, rows, g, column)
  {
    if rows != [] {
      CountedSame(counters, rows[..|rows| - 1], f, g, column);
    }
  }

  /** How many of the rows are credited to a dimension of a kind. */
  function CountWhere(rows: seq<Activity>, credit: Activity -> Option<Dim>, p: Dim -> bool): nat {
    if rows == [] then 0
    else
      var dim := credit(rows[|rows| - 1]);
      CountWhere(rows[..|rows| - 1], credit, p) + (if dim.Some? && p(dim.value) then 1 else 0)
  }

  function InColumn(counters: Counters, column: Column): map<Dim, nat> {
    map dim | dim in counters :: counters[dim].At(column)
  }

  ghost function Sum(counters: Counters, column: Column, p: Dim -> bool): nat {
    Total(Filter(InColumn(counters, column), p))
  }

  lemma BumpColumn(counters: Counters, dim: Dim, column: Column, other: Column)
    ensures var before := InColumn(counters, other);
            && var more := if other == column then 1 else 0;
               InColumn(Bump(counters, dim, column), other) == before[dim := Get(before, dim) + more]
  {
  }

  lemma FilterSet(m: map<Dim, nat>, dim: Dim, v: nat, p: Dim -> bool)
    ensures Filter(m[dim := v], p) == if p(dim) then Filter(m, p)[dim := v] else Filter(m, p)
    ensures Get(Filter(m, p), dim) == if p(dim) then Get(m, dim) else 0
  {
  }

  lemma BumpSum(counters: Counters, dim: Dim, column: Column, other: Column, p: Dim -> bool)
    ensures Sum(Bump(counters, dim, column), other, p)
         == Sum(counters, other, p) + (if other == column && p(dim) then 1 else 0)
  {
    var before := Filter(InColumn(counters, other), p);
    var v := Get(before, dim) + (if other == column then 1 else 0);
    TotalSet(before, dim, v);
    BumpColumn(counters, dim, column, other);
    FilterSet(InColumn(counters, other), dim,
        Get(InColumn(counters, other), dim) + (if other == column then 1 else 0), p);
  }

  /**
   Counting loses nothing: any set of dimensions gains exactly the rows credited to it, and the other
   column nothing.
   */
  lemma {:induction false} CountingConserves(
    counters: Counters, rows: seq<Activity>, credit: Activity -> Option<Dim>, column: Column, other: Column,
        p: Dim -> bool)
    ensures Sum(Counted(counters, rows, credit, column), other, p)
         == Sum(counters, other, p) + (if other == column then CountWhere(rows, credit, p) else 0)
  {
    if rows != [] {
      var before := rows[..|rows| - 1];
      CountingConserves(counters, before, credit, column, other, p);
      var dim := credit(rows[|rows| - 1]);
      if dim.Some? {
        BumpSum(Counted(counters, before, credit, column), dim.value, column, other, p);
      }
    }
  }

  lemma {:induction false} CountedDims(counters: Counters, rows: seq<Activity>, credit: Activity -> Option<Dim>,
      column: Column, dim: Dim)
    ensures dim in Counted(counters, rows, credit, column)
       <==> dim in counters || exists a :: a in rows && credit(a) == Some(dim)
  {
    if rows != [] {
      var before, a := rows[..|rows| - 1], rows[|rows| - 1];
      CountedDims(counters, before, credit, column, dim);
      assert rows == before + [a];
    }
  }

  // ----- one day -----

  const DAY := 86_400_000_000

  function DayStart(day: int): int {
    day * DAY
  }

  function Started(sessions: seq<Activity>, start: int, end: int): (r: seq<Activity>)
    ensures forall a :: a in r <==> a in sessions && start <= a.at < end
  {
    if sessions == [] then []
    else
      var before, a := sessions[..|sessions| - 1], sessions[|sessions| - 1];
      assert sessions == before + [a];
      if start <= a.at < end then Started(before, start, end) + [a] else Started(before, start, end)
  }

  /**
   What a day is computed from: the sessions by their start, the page log, and the memberships; and
   the academic domain each document has when the rows are saved.
   */
  datatype Source = Source(
    accounts: Access.Accounts, sessions: seq<Activity>, log: seq<PageViews.Row>, domains: map<nat, nat>)

  function DaySessions(source: Source, day: int): seq<Activity> {
    Started(source.sessions, DayStart(day), DayStart(day + 1))
  }

  function DayViews(source: Source, day: int): seq<PageViews.Row> {
    PageViews.DistinctViews(source.log, DayStart(day), DayStart(day + 1))
  }

  function DayCounters(source: Source, day: int): Counters {
    var credit := ByMembership(source.accounts);
    var started := Counted(map[], DaySessions(source, day), credit, Sessions);
    Counted(started, PageViews.Activities(DayViews(source, day)), credit, Views)
  }

  function Users(rows: seq<Activity>): set<nat> {
    set a | a in rows && a.user.Some? :: a.user.value
  }

  method ActivityCounters(source: Source, day: int) returns (counters: Counters)
    ensures counters == DayCounters(source, day)
  {
    var started := DaySessions(source, day);
    var views := PageViews.DistinctPageViews(source.log, DayStart(day), DayStart(day + 1));
    var windows := MembershipWindows(source.accounts, Users(started) + Users(views));
    CreditsAgree(source.accounts, windows, started);
    CreditsAgree(source.accounts, windows, views);
    counters := CountActivity(started, windows, map[], Sessions);
    CountedSame(map[], started, ByWindows(windows), ByMembership(source.accounts), Sessions);
    CountedSame(counters, views, ByWindows(windows), ByMembership(source.accounts), Views);
    counters := CountActivity(views, windows, counters, Views);
  }

  lemma CreditsAgree(accounts: Access.Accounts, windows: Windows, rows: seq<Activity>)
    requires forall user | user in Users(rows) ::
        SpellsIn(windows, user) == SpellsOf(accounts, accounts.memberships, user)
    ensures forall a | a in rows :: ByWindows(windows)(a) == ByMembership(accounts)(a)
  {
    forall a | a in rows ensures ByWindows(windows)(a) == ByMembership(accounts)(a) {
      if a.user.Some? {
        assert a.user.value in Users(rows);
        AttributionIsMembership(accounts, windows, a.user.value, a.at);
      }
    }
  }

  // ----- the aggregate table -----

  /** The unique constraint's columns. */
  datatype Key = Key(date: int, dim: Dim)

  datatype Aggregate = Aggregate(counts: Counts, documents: nat)

  type Table = map<Key, Aggregate>

  /** The table holds for a day exactly the computed dimensions. */
  ghost predicate DayIs(rows: Table, day: int, counters: Counters) {
    && (forall dim :: Key(day, dim) in rows <==> dim in counters)
    && (forall dim | dim in counters && Key(day, dim) in rows :: rows[Key(day, dim)] == Aggregate(counters[dim], 1))
  }

  /** Whatever is kept for other days is the same. */
  ghost predicate SameOutside(before: Table, after: Table, from: int, to: int) {
    forall k: Key | !(from <= k.date <= to) ::
        (k in before <==> k in after) && (k in before && k in after ==> before[k] == after[k])
  }

  /** The validation an aggregate passes when it is saved: a declared access model, and its document's own domain. */
  predicate IsValid(dim: Dim, domains: map<nat, nat>) {
    !dim.access.OtherAccess? && dim.document in domains && dim.domain == Some(domains[dim.document])
  }

  ghost predicate Savable(counters: Counters, domains: map<nat, nat>) {
    forall dim | dim in counters :: IsValid(dim, domains)
  }

  /** The table holds the recomputed rows of every day from `from` up to, not including, `next`. */
  ghost predicate PeriodIs(rows: Table, source: Source, from: int, next: int) {
    forall day | from <= day < next ::
        Savable(DayCounters(source, day), source.domains) && DayIs(rows, day, DayCounters(source, day))
  }

  lemma PeriodGrows(before: Table, after: Table, source: Source, from: int, next: int)
    requires PeriodIs(before, source, from, next) && SameOutside(before, after, next, next)
    requires Savable(DayCounters(source, next), source.domains) && DayIs(after, next, DayCounters(source, next))
    ensures PeriodIs(after, source, from, next + 1)
  {
    forall day | from <= day < next ensures DayIs(after, day, DayCounters(source, day)) {
      DayStays(before, after, day, next, DayCounters(source, day));
    }
  }

  lemma OutsideGrows(first: Table, before: Table, after: Table, from: int, next: int)
    requires from <= next && SameOutside(first, before, from, next - 1) && SameOutside(before, after, next, next)
    ensures SameOutside(first, after, from, next)
  {
  }

  class UsageStore {
    var rows: Table

    constructor ()
      ensures rows == map[]
    {
      rows := map[];
    }

    /** Stale rows go, computed rows are updated or created; a row that cannot be saved rolls the day back. */
    method PersistDailyAggregates(day: int, counters: Counters, domains: map<nat, nat>) returns (ok: bool)
      modifies this
      ensures ok <==> Savable(counters, domains)
      ensures ok <==> forall dim | dim in counters ::
                && !dim.access.OtherAccess? && dim.document in domains && dim.domain == Some(domains[dim.document])
      ensures SameOutside(old(rows), rows, day, day)
      ensures if ok then DayIs(rows, day, counters) else rows == old(rows)
    {
      var saved := rows;
      rows := map k | k in rows && !(k.date == day && k.dim !in counters) :: rows[k];
      var left := counters.Keys;
      while left != {}
        invariant left <= counters.Keys
        invariant SameOutside(saved, rows, day, day)
        invariant forall dim :: Key(day, dim) in rows ==> dim in counters
        invariant forall dim | dim in counters && dim !in left ::
          && IsValid(dim, domains)
          && Key(day, dim) in rows && rows[Key(day, dim)] == Aggregate(counters[dim], 1)
        decreases |left|
      {
        var dim :| dim in left;
        if !IsValid(dim, domains) {
          rows := saved;
          return false;
        }
        rows := rows[Key(day, dim) := Aggregate(counters[dim], 1)];
        left := left - {dim};
      }
      return true;
    }

    method BuildDailyUsageAggregate(source: Source, day: int) returns (ok: bool)
      modifies this
      ensures ok <==> Savable(DayCounters(source, day), source.domains)
      ensures SameOutside(old(rows), rows, day, day)
      ensures if ok then DayIs(rows, day, DayCounters(source, day)) else rows == old(rows)
    {
      var counters := ActivityCounters(source, day);
      ok := PersistDailyAggregates(day, counters, source.domains);
    }

    /**
     The day loop of a report; a period that ends before it starts is refused. `next` is the first day
     not rebuilt: the one whose run failed, or the day after the period.
     */
    method BuildPeriod(source: Source, from: int, to: int) returns (valid: bool, next: int)
      modifies this
      ensures valid <==> from <= to
      ensures !valid ==> next == from && rows == old(rows)
      ensures valid ==> from <= next <= to + 1
      ensures PeriodIs(rows, source, from, next)
      ensures valid && next <= to ==> !Savable(DayCounters(source, next), source.domains)
      ensures SameOutside(old(rows), rows, from, next - 1)
    {
      next := from;
      valid := from <= to;
      if !valid {
        return;
      }
      while next <= to
        invariant from <= next <= to + 1
        invariant PeriodIs(rows, source, from, next)
        invariant SameOutside(old(rows), rows, from, next - 1)
      {
        ghost var before := rows;
        var ok := BuildDailyUsageAggregate(source, next);
        if !ok {
          return;
        }
        PeriodGrows(before, rows, source, from, next);
        OutsideGrows(old(rows), before, rows, from, next);
        next := next + 1;
      }
    }
  }

  lemma DayStays(before: Table, after: Table, day: int, touched: int, counters: Counters)
    requires day != touched && SameOutside(before, after, touched, touched) && DayIs(before, day, counters)
    ensures DayIs(after, day, counters)
  {
    forall dim ensures Key(day, dim) in after <==> dim in counters {
      assert Key(day, dim).date == day;
    }
  }

  /**
   Two tables that hold the same for a day and the same outside it are one table: rebuilding again
   changes nothing.
   */
  lemma RebuildIdempotent(before: Table, after: Table, day: int, counters: Counters)
    requires DayIs(before, day, counters) && DayIs(after, day, counters) && SameOutside(before, after, day, day)
    ensures before == after
  {
    forall k: Key ensures k in before <==> k in after
                  ensures k in before && k in after ==> before[k] == after[k]
    {
      if k.date == day {
        assert k == Key(day, k.dim);
      }
    }
  }

  // ----- what a day's rows add up to -----

  function Measure(rows: Table, column: Column): map<Key, nat> {
    map k | k in rows :: rows[k].counts.At(column)
  }

  function OnDay(day: int, p: Dim -> bool): Key -> bool {
    (k: Key) => k.date == day && p(k.dim)
  }

  lemma DayTotal(rows: Table, day: int, counters: Counters, column: Column, p: Dim -> bool)
    requires DayIs(rows, day, counters)
    ensures Total(Filter(Measure(rows, column), OnDay(day, p))) == Sum(counters, column, p)
  {
    var m := Filter(InColumn(counters, column), p);
    var n := Filter(Measure(rows, column), OnDay(day, p));
    forall k | k in n ensures k.dim in m && Key(day, k.dim) == k {
    }
    TotalRenamed(m, n, dim => Key(day, dim));
  }

  lemma EmptySum(column: Column, p: Dim -> bool)
    ensures Sum(map[], column, p) == 0
  {
    assert Filter(InColumn(map[], column), p) == map[];
  }

  lemma DayCountersSum(source: Source, day: int, p: Dim -> bool)
    ensures var credit := ByMembership(source.accounts);
            && Sum(DayCounters(source, day), Sessions, p) == CountWhere(DaySessions(source, day), credit, p)
            && Sum(DayCounters(source, day), Views, p) ==
                 CountWhere(PageViews.Activities(DayViews(source, day)), credit, p)
  {
    DayColumn(source, day, Sessions, p);
    DayColumn(source, day, Views, p);
  }

  lemma DayColumn(source: Source, day: int, column: Column, p: Dim -> bool)
    ensures var credit := ByMembership(source.accounts);
            var rows := if column == Sessions then DaySessions(source, day)
                else PageViews.Activities(DayViews(source, day));
            Sum(DayCounters(source, day), column, p) == CountWhere(rows, credit, p)
  {
    var credit := ByMembership(source.accounts);
    var started := Counted(map[], DaySessions(source, day), credit, Sessions);
    EmptySum(column, p);
    CountingConserves(map[], DaySessions(source, day), credit, Sessions, column, p);
    CountingConserves(started, PageViews.Activities(DayViews(source, day)), credit, Views, column, p);
  }

  /** A dimension is counted exactly when a session or a page view of the day is credited to it. */
  lemma DimsAreCredited(source: Source, day: int, dim: Dim)
    ensures var credit := ByMembership(source.accounts);
            var views := PageViews.Activities(DayViews(source, day));
            dim in DayCounters(source, day) <==>
              || (exists a :: a in DaySessions(source, day) && credit(a) == Some(dim))
              || (exists a :: a in views && credit(a) == Some(dim))
  {
    var credit := ByMembership(source.accounts);
    var started := Counted(map[], DaySessions(source, day), credit, Sessions);
    CountedDims(map[], DaySessions(source, day), credit, Sessions, dim);
    CountedDims(started, PageViews.Activities(DayViews(source, day)), credit, Views, dim);
  }

  /** The (session, page number) pairs of these rows whose reader is credited to a dimension of the kind. */
  function PairsCredited(rows: seq<PageViews.Row>, credit: Activity -> Option<Dim>, p: Dim -> bool): set<(nat, nat)> {
    set r | r in rows && credit(r.activity).Some? && p(credit(r.activity).value) :: (r.session, r.pageNumber)
  }

  lemma PairsAppend(before: seq<PageViews.Row>, r: PageViews.Row, credit: Activity -> Option<Dim>, p: Dim -> bool)
    ensures PairsCredited(before + [r], credit, p)
         == PairsCredited(before, credit, p)
          + (if credit(r.activity).Some? && p(credit(r.activity).value) then {(r.session, r.pageNumber)} else {})
  {
  }

  lemma PairIsNew(before: seq<PageViews.Row>, r: PageViews.Row, credit: Activity -> Option<Dim>, p: Dim -> bool)
    requires PageViews.OnePerKey(before + [r], PageViews.NumberKey)
    ensures PageViews.OnePerKey(before, PageViews.NumberKey)
    ensures (r.session, r.pageNumber) !in PairsCredited(before, credit, p)
  {
    var rows := before + [r];
    forall i, j | 0 <= i < j < |before| ensures PageViews.NumberKey(before[i]) != PageViews.NumberKey(before[j]) {
      assert PageViews.NumberKey(rows[i]) != PageViews.NumberKey(rows[j]);
    }
    forall i | 0 <= i < |before| ensures PageViews.NumberKey(before[i]) != PageViews.NumberKey(r) {
      assert PageViews.NumberKey(rows[i]) != PageViews.NumberKey(rows[|before|]);
    }
  }

  lemma {:induction false} CountIsPairs(rows: seq<PageViews.Row>, credit: Activity -> Option<Dim>, p: Dim -> bool)
    requires PageViews.OnePerKey(rows, PageViews.NumberKey)
    ensures CountWhere(PageViews.Activities(rows), credit, p) == |PairsCredited(rows, credit, p)|
  {
    if rows != [] {
      var before, r := rows[..|rows| - 1], rows[|rows| - 1];
      assert rows == before + [r];
      PairIsNew(before, r, credit, p);
      CountIsPairs(before, credit, p);
      PageViews.ActivitiesAppend(before, r);
      PairsAppend(before, r, credit, p);
    }
  }

  /**
   A rebuilt day's page views, over any set of dimensions, are the pairs (session, page number) first
   read that day by a reader credited there; its sessions are the sessions started that day.
   */
  lemma DayCountsReads(rows: Table, source: Source, day: int, p: Dim -> bool)
    requires DayIs(rows, day, DayCounters(source, day))
    ensures var credit := ByMembership(source.accounts);
            && Total(Filter(Measure(rows, Views), OnDay(day, p))) == |PairsCredited(DayViews(source, day), credit, p)|
            && Total(Filter(Measure(rows, Sessions), OnDay(day, p))) == CountWhere(DaySessions(source, day), credit, p)
  {
    DayTotal(rows, day, DayCounters(source, day), Views, p);
    DayTotal(rows, day, DayCounters(source, day), Sessions, p);
    DayCountersSum(source, day, p);
    PageViews.ViewsAreDistinctPairs(source.log, DayStart(day), DayStart(day + 1));
    CountIsPairs(DayViews(source, day), ByMembership(source.accounts), p);
  }

  // ----- whose reading a day's rows stand for -----

  /** The activity is of a reader who belongs to this organisation and to no other at that instant. */
  ghost predicate IsReadFor(accounts: Access.Accounts, a: Activity, organization: nat) {
    a.user.Some? && OrganizationsAt(accounts, a.user.value, a.at) == {organization}
  }

  lemma CreditIff(accounts: Access.Accounts, a: Activity, dim: Dim)
    ensures ByMembership(accounts)(a) == Some(dim) <==>
              && IsReadFor(accounts, a, dim.organization)
              && dim.document == a.document && dim.domain == a.domain && dim.access == a.access
    ensures ByMembership(accounts)(a).Some? ==> IsReadFor(accounts, a, ByMembership(accounts)(a).value.organization)
  {
    if a.user.Some? && |OrganizationsAt(accounts, a.user.value, a.at)| == 1 {
      OnlyOne(OrganizationsAt(accounts, a.user.value, a.at));
    }
  }

  /** The instant lies on the day, a day being that many microseconds. */
  ghost predicate IsOn(day: int, at: int) {
    day * 86_400_000_000 <= at < day * 86_400_000_000 + 86_400_000_000
  }

  /** A page-log row that is the first of its session and page number on the day. */
  ghost predicate IsDaysFirst(log: seq<PageViews.Row>, day: int, i: nat)
    requires i < |log|
  {
    && IsOn(day, log[i].activity.at)
    && forall j | 0 <= j < i && IsOn(day, log[j].activity.at) ::
         !(log[j].session == log[i].session && log[j].pageNumber == log[i].pageNumber)
  }

  /** Some session started, or page first read in its session, on the day stands for this dimension. */
  ghost predicate IsUsed(source: Source, day: int, dim: Dim) {
    || (exists i | 0 <= i < |source.sessions| ::
          IsOn(day, source.sessions[i].at) && IsUseOf(source.accounts, source.sessions[i], dim))
    || (exists i | 0 <= i < |source.log| ::
          IsDaysFirst(source.log, day, i) && IsUseOf(source.accounts, source.log[i].activity, dim))
  }

  ghost predicate IsUseOf(accounts: Access.Accounts, a: Activity, dim: Dim) {
    && IsReadFor(accounts, a, dim.organization)
    && a.document == dim.document && a.domain == dim.domain && a.access == dim.access
  }

  lemma {:induction false} ActivitiesAre(rows: seq<PageViews.Row>, a: Activity)
    ensures a in PageViews.Activities(rows) <==> exists r :: r in rows && r.activity == a
  {
    if rows != [] {
      ActivitiesAre(rows[..|rows| - 1], a);
      assert rows == rows[..|rows| - 1] + [rows[|rows| - 1]];
    }
  }

  lemma DayViewsAre(source: Source, day: int, r: PageViews.Row)
    ensures r in DayViews(source, day) <==>
              exists i | 0 <= i < |source.log| :: source.log[i] == r && IsDaysFirst(source.log, day, i)
  {
    PageViews.ViewsAreFirstReads(source.log, DayStart(day), DayStart(day + 1), r);
    forall i | 0 <= i < |source.log|
      ensures IsDaysFirst(source.log, day, i) <==>
                PageViews.IsFirstRead(source.log, DayStart(day), DayStart(day + 1), i)
    {
    }
  }

  lemma CreditedIff(source: Source, day: int, dim: Dim)
    ensures dim in DayCounters(source, day) <==> IsUsed(source, day, dim)
  {
    DimsAreCredited(source, day, dim);
    SessionUses(source, day, dim);
    ViewUses(source, day, dim);
  }

  lemma SessionUses(source: Source, day: int, dim: Dim)
    ensures (exists a :: a in DaySessions(source, day) && ByMembership(source.accounts)(a) == Some(dim)) <==>
              exists i | 0 <= i < |source.sessions| ::
                IsOn(day, source.sessions[i].at) && IsUseOf(source.accounts, source.sessions[i], dim)
  {
    forall a ensures ByMembership(source.accounts)(a) == Some(dim) <==> IsUseOf(source.accounts, a, dim) {
      CreditIff(source.accounts, a, dim);
    }
  }

  lemma ViewUses(source: Source, day: int, dim: Dim)
    ensures (exists a :: a in PageViews.Activities(DayViews(source, day))
                         && ByMembership(source.accounts)(a) == Some(dim)) <==>
              exists i | 0 <= i < |source.log| ::
                IsDaysFirst(source.log, day, i) && IsUseOf(source.accounts, source.log[i].activity, dim)
  {
    forall a ensures ByMembership(source.accounts)(a) == Some(dim) <==> IsUseOf(source.accounts, a, dim) {
      CreditIff(source.accounts, a, dim);
    }
    forall a ensures a in PageViews.Activities(DayViews(source, day)) <==>
        exists i | 0 <= i < |source.log| :: source.log[i].activity == a && IsDaysFirst(source.log, day, i)
    {
      ViewIsFirstRead(source, day, a);
    }
  }

  lemma ViewIsFirstRead(source: Source, day: int, a: Activity)
    ensures a in PageViews.Activities(DayViews(source, day)) <==>
              exists i | 0 <= i < |source.log| :: source.log[i].activity == a && IsDaysFirst(source.log, day, i)
  {
    var views := DayViews(source, day);
    ActivitiesAre(views, a);
    if r :| r in views && r.activity == a {
      DayViewsAre(source, day, r);
    }
    if i :| 0 <= i < |source.log| && source.log[i].activity == a && IsDaysFirst(source.log, day, i) {
      DayViewsAre(source, day, source.log[i]);
    }
  }

  /**
   A rebuilt day has a row for an organisation, a document, a domain and an access model exactly when
   some session or page view of that day is of that document, with that domain and access model, by
   a reader of that organisation alone.
   */
  lemma DayRowsAreUses(rows: Table, source: Source, day: int, dim: Dim)
    requires DayIs(rows, day, DayCounters(source, day))
    ensures Key(day, dim) in rows <==> IsUsed(source, day, dim)
  {
    CreditedIff(source, day, dim);
  }

  /** A day can be saved exactly when every use counted has a declared access model and its document's own domain. */
  lemma SavableIff(source: Source, day: int)
    ensures Savable(DayCounters(source, day), source.domains) <==>
              forall dim | IsUsed(source, day, dim) ::
                && !dim.access.OtherAccess?
                && dim.document in source.domains && dim.domain == Some(source.domains[dim.document])
  {
    forall dim ensures dim in DayCounters(source, day) <==> IsUsed(source, day, dim) {
      CreditedIff(source, day, dim);
    }
  }

  // ----- the report -----

  function Selects(organization: nat, from: int, to: int): Key -> bool {
    (k: Key) => k.dim.organization == organization && from <= k.date <= to
  }

  ghost function Reported(rows: Table, organization: nat, from: int, to: int, column: Column): map<Key, nat> {
    Filter(Measure(rows, column), Selects(organization, from, to))
  }

  function ByDay(): Key -> int {
    (k: Key) => k.date
  }

  function ByDomain(names: nat -> string): Key -> Option<string> {
    (k: Key) => if k.dim.domain.Some? then Some(names(k.dim.domain.value)) else None
  }

  function ByDocument(names: nat -> string): Key -> (nat, Option<string>, Catalog.AccessValue) {
    (k: Key) => (k.dim.document, if k.dim.domain.Some? then Some(names(k.dim.domain.value)) else None, k.dim.access)
  }

  function ByAccessModel(): Key -> Catalog.AccessValue {
    (k: Key) => k.dim.access
  }

  /** A report's totals are the sums of each of its four breakdowns. */
  lemma BreakdownsAddUp(rows: Table, organization: nat, from: int, to: int, column: Column, names: nat -> string)
    ensures var reported := Reported(rows, organization, from, to, column);
            && Total(GroupBy(reported, ByDay())) == Total(reported)
            && Total(GroupBy(reported, ByDomain(names))) == Total(reported)
            && Total(GroupBy(reported, ByDocument(names))) == Total(reported)
            && Total(GroupBy(reported, ByAccessModel())) == Total(reported)
  {
    var reported := Reported(rows, organization, from, to, column);
    GroupingConserves(reported, ByDay());
    GroupingConserves(reported, ByDomain(names));
    GroupingConserves(reported, ByDocument(names));
    GroupingConserves(reported, ByAccessModel());
  }

  /** Each group of a breakdown adds up the rows of its own day, or of its own access model. */
  lemma DayGroupsAre(rows: Table, organization: nat, from: int, to: int, column: Column, key: Key)
    requires key in Reported(rows, organization, from, to, column)
    ensures var m := Reported(rows, organization, from, to, column);
            && key.date in GroupBy(m, ByDay())
            && GroupBy(m, ByDay())[key.date] == Total(map k | k in m && k.date == key.date :: m[k])
            && key.dim.access in GroupBy(m, ByAccessModel())
            && GroupBy(m, ByAccessModel())[key.dim.access]
               == Total(map k | k in m && k.dim.access == key.dim.access :: m[k])
  {
    var m := Reported(rows, organization, from, to, column);
    assert Filter(m, InGroup(ByDay(), key.date)) == map k | k in m && k.date == key.date :: m[k];
    assert Filter(m, InGroup(ByAccessModel(), key.dim.access))
        == map k | k in m && k.dim.access == key.dim.access :: m[k];
    assert ByDay()(key) in GroupKeys(m, ByDay()) && ByAccessModel()(key) in GroupKeys(m, ByAccessModel());
  }

  /** Or of its own domain; domains go by their name. */
  lemma DomainGroupsAre(rows: Table, organization: nat, from: int, to: int, column: Column, names: nat -> string,
      key: Key)
    requires key in Reported(rows, organization, from, to, column)
    ensures var m, domain := Reported(rows, organization, from, to, column), DomainName(key, names);
            && domain in GroupBy(m, ByDomain(names))
            && GroupBy(m, ByDomain(names))[domain] == Total(map k | k in m && DomainName(k, names) == domain :: m[k])
  {
    var m, domain := Reported(rows, organization, from, to, column), DomainName(key, names);
    assert Filter(m, InGroup(ByDomain(names), domain)) == map k | k in m && DomainName(k, names) == domain :: m[k];
    assert ByDomain(names)(key) in GroupKeys(m, ByDomain(names));
  }

  /** The row is of this document, under this name of its domain and this access model. */
  ghost predicate IsOfDocument(k: Key, names: nat -> string, document: nat, domain: Option<string>,
      access: Catalog.AccessValue) {
    k.dim.document == document && DomainName(k, names) == domain && k.dim.access == access
  }

  /** Or of its own document, with its domain and access model. */
  lemma DocumentGroupsAre(rows: Table, organization: nat, from: int, to: int, column: Column, names: nat -> string,
      key: Key)
    requires key in Reported(rows, organization, from, to, column)
    ensures var m, domain := Reported(rows, organization, from, to, column), DomainName(key, names);
            var group := (key.dim.document, domain, key.dim.access);
            && group in GroupBy(m, ByDocument(names))
            && GroupBy(m, ByDocument(names))[group]
               == Total(map k | k in m && IsOfDocument(k, names, group.0, group.1, group.2) :: m[k])
  {
    var m, domain := Reported(rows, organization, from, to, column), DomainName(key, names);
    var group := (key.dim.document, domain, key.dim.access);
    assert ByDocument(names)(key) == group;
    assert group in GroupKeys(m, ByDocument(names));
    assert Filter(m, InGroup(ByDocument(names), group))
        == map k | k in m && IsOfDocument(k, names, group.0, group.1, group.2) :: m[k];
  }

  /** The name of the row's domain, when it has one. */
  ghost function DomainName(k: Key, names: nat -> string): Option<string> {
    if k.dim.domain == None then None else Some(names(k.dim.domain.value))
  }

  function OfOrganization(organization: nat): Dim -> bool {
    (dim: Dim) => dim.organization == organization
  }

  /** The sessions of the day started by readers of the organisation alone. */
  ghost function SessionsFor(sessions: seq<Activity>, accounts: Access.Accounts, organization: nat, day: int): nat {
    if sessions == [] then 0
    else
      var a := sessions[|sessions| - 1];
      SessionsFor(sessions[..|sessions| - 1], accounts, organization, day)
      + (if IsOn(day, a.at) && IsReadFor(accounts, a, organization) then 1 else 0)
  }

  /** The pairs of session and page number first read that day by readers of the organisation alone. */
  ghost function PairsFor(source: Source, organization: nat, day: int): set<(nat, nat)> {
    set i | 0 <= i < |source.log| && IsDaysFirst(source.log, day, i)
            && IsReadFor(source.accounts, source.log[i].activity, organization) ::
      (source.log[i].session, source.log[i].pageNumber)
  }

  lemma {:induction false} StartedFor(sessions: seq<Activity>, accounts: Access.Accounts, organization: nat, day: int)
    ensures CountWhere(Started(sessions, DayStart(day), DayStart(day + 1)), ByMembership(accounts),
                       OfOrganization(organization))
         == SessionsFor(sessions, accounts, organization, day)
  {
    if sessions != [] {
      var before, a := sessions[..|sessions| - 1], sessions[|sessions| - 1];
      StartedFor(before, accounts, organization, day);
      OwnCredit(accounts, a, organization);
      CountWhereAppend(Started(before, DayStart(day), DayStart(day + 1)), a, ByMembership(accounts),
                       OfOrganization(organization));
    }
  }

  lemma CountWhereAppend(rows: seq<Activity>, a: Activity, credit: Activity -> Option<Dim>, p: Dim -> bool)
    ensures CountWhere(rows + [a], credit, p)
         == CountWhere(rows, credit, p) + (if credit(a).Some? && p(credit(a).value) then 1 else 0)
  {
    assert (rows + [a])[..|rows|] == rows;
  }

  lemma OwnCredit(accounts: Access.Accounts, a: Activity, organization: nat)
    ensures var dim := ByMembership(accounts)(a);
            dim.Some? && OfOrganization(organization)(dim.value) <==> IsReadFor(accounts, a, organization)
  {
    CreditIff(accounts, a, Dim(organization, a.document, a.domain, a.access));
  }

  lemma CreditedPairs(source: Source, organization: nat, day: int)
    ensures PairsCredited(DayViews(source, day), ByMembership(source.accounts), OfOrganization(organization))
         == PairsFor(source, organization, day)
  {
    var views := DayViews(source, day);
    forall r ensures r in views <==>
        exists i | 0 <= i < |source.log| :: source.log[i] == r && IsDaysFirst(source.log, day, i)
    {
      DayViewsAre(source, day, r);
    }
    forall a ensures (var dim := ByMembership(source.accounts)(a);
        dim.Some? && OfOrganization(organization)(dim.value)) <==> IsReadFor(source.accounts, a, organization)
    {
      OwnCredit(source.accounts, a, organization);
    }
  }

  /** What one day contributes to a report. */
  lemma DayContributes(rows: Table, source: Source, organization: nat, day: int)
    requires DayIs(rows, day, DayCounters(source, day))
    ensures Total(Filter(Measure(rows, Views), OnDay(day, OfOrganization(organization))))
         == |PairsFor(source, organization, day)|
    ensures Total(Filter(Measure(rows, Sessions), OnDay(day, OfOrganization(organization))))
         == SessionsFor(source.sessions, source.accounts, organization, day)
  {
    DayCountsReads(rows, source, day, OfOrganization(organization));
    CreditedPairs(source, organization, day);
    StartedFor(source.sessions, source.accounts, organization, day);
  }

  ghost function PairsOver(source: Source, organization: nat, from: int, to: int): nat
    decreases if from <= to then to - from + 1 else 0
  {
    if from > to then 0
    else PairsOver(source, organization, from, to - 1) + |PairsFor(source, organization, to)|
  }

  ghost function SessionsOver(source: Source, organization: nat, from: int, to: int): nat
    decreases if from <= to then to - from + 1 else 0
  {
    if from > to then 0
    else SessionsOver(source, organization, from, to - 1)
         + SessionsFor(source.sessions, source.accounts, organization, to)
  }

  lemma {:induction false} ReportedViews(rows: Table, source: Source, organization: nat, from: int, to: int)
    requires forall day | from <= day <= to :: DayIs(rows, day, DayCounters(source, day))
    ensures Total(Reported(rows, organization, from, to, Views)) == PairsOver(source, organization, from, to)
    decreases if from <= to then to - from + 1 else 0
  {
    if from > to {
      assert Reported(rows, organization, from, to, Views).Keys == {};
    } else {
      ReportedViews(rows, source, organization, from, to - 1);
      LastDayReported(rows, organization, from, to, Views);
      DayContributes(rows, source, organization, to);
    }
  }

  lemma {:induction false} ReportedSessions(rows: Table, source: Source, organization: nat, from: int, to: int)
    requires forall day | from <= day <= to :: DayIs(rows, day, DayCounters(source, day))
    ensures Total(Reported(rows, organization, from, to, Sessions)) == SessionsOver(source, organization, from, to)
    decreases if from <= to then to - from + 1 else 0
  {
    if from > to {
      assert Reported(rows, organization, from, to, Sessions).Keys == {};
    } else {
      ReportedSessions(rows, source, organization, from, to - 1);
      LastDayReported(rows, organization, from, to, Sessions);
      DayContributes(rows, source, organization, to);
    }
  }

  /** The rows an organisation's report over a period reads, with their page views, or their sessions. */
  ghost function ViewsReported(rows: Table, organization: nat, from: int, to: int): map<Key, nat> {
    map k | k in rows && k.dim.organization == organization && from <= k.date <= to :: rows[k].counts.views
  }

  ghost function SessionsReported(rows: Table, organization: nat, from: int, to: int): map<Key, nat> {
    map k | k in rows && k.dim.organization == organization && from <= k.date <= to :: rows[k].counts.sessions
  }

  /**
   After the day loop an organisation's report counts, day by day, each pair of session and page number
   first read that day, and each session started that day, by a reader of that organisation alone.
   */
  lemma ReportCountsReads(rows: Table, source: Source, organization: nat, from: int, to: int)
    requires forall day | from <= day <= to :: DayIs(rows, day, DayCounters(source, day))
    ensures Total(ViewsReported(rows, organization, from, to)) == PairsOver(source, organization, from, to)
    ensures Total(SessionsReported(rows, organization, from, to)) == SessionsOver(source, organization, from, to)
  {
    ReportedViews(rows, source, organization, from, to);
    ReportedSessions(rows, source, organization, from, to);
    ReportedColumns(rows, organization, from, to);
  }

  lemma ReportedColumns(rows: Table, organization: nat, from: int, to: int)
    ensures Reported(rows, organization, from, to, Views) == ViewsReported(rows, organization, from, to)
    ensures Reported(rows, organization, from, to, Sessions) == SessionsReported(rows, organization, from, to)
  {
  }

  lemma LastDayReported(rows: Table, organization: nat, from: int, to: int, column: Column)
    requires from <= to
    ensures Total(Reported(rows, organization, from, to, column))
         == Total(Reported(rows, organization, from, to - 1, column))
          + Total(Filter(Measure(rows, column), OnDay(to, OfOrganization(organization))))
  {
    var measured := Measure(rows, column);
    var today := OnDay(to, OfOrganization(organization));
    TotalSplit(Reported(rows, organization, from, to, column), today);
    FilterTwice(measured, Selects(organization, from, to), today, today);
    FilterTwice(measured, Selects(organization, from, to), Not(today), Selects(organization, from, to - 1));
  }
}
