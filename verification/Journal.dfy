/**
 The page-access journal under concurrent requests. Each request is a small program whose database
 reads and writes interleave with those of all others; the one thing the database adds is the
 uniqueness of (session, page). Pages are not deleted while requests run.
 */
module Journal {
  import opened Prelude
  import opened Catalog
  import opened Access

  datatype Session = Session(
    user: Option<nat>, document: nat, version: nat, active: bool, expiresAt: int, endedAt: Option<int>,
    lastSeen: Option<int>)
  {
    predicate IsActiveAt(at: int) {
      active && endedAt.None? && at < expiresAt
    }
  }

  datatype Version = Version(isCurrent: bool, processed: bool, pageCount: nat)

  datatype Page = Page(id: nat, processed: bool, hasText: bool, hasImage: bool, hasTiles: bool, hasThumbnail: bool)

  /** Everything the authorisation reads besides the session. */
  datatype Library = Library(
    accounts: Accounts, documents: map<nat, Document>, versions: map<nat, Version>, pages: map<(nat, nat), Page>)

  datatype Row = Row(session: nat, page: nat)

  /** A tile request is well spelled when rotation, quality, format, region and size exist at level 0. */
  datatype Kind = TextOf | ImageOf | InfoOf | TileOf(wellSpelled: bool) | ThumbnailOf | Manifest

  datatype Refusal = SessionInactive | AccessDenied | PageUnavailable

  /** Where a request stands, with what it has read so far. */
  datatype Progress =
    | Arrived
    | Authorized(page: nat, lastSeen: Option<int>)
    | Checked(page: nat, logged: bool, stale: bool)
    | Inserted(page: nat, stale: bool)
    | Served(content: Option<nat>)
    | Refused(reason: Refusal)

  datatype Request = Request(kind: Kind, session: nat, pageNumber: int, at: int, progress: Progress)

  datatype State = State(library: Library, sessions: map<nat, Session>, journal: seq<Row>, requests: map<nat, Request>)

  datatype Action =
    | Arrive(id: nat, kind: Kind, session: nat, pageNumber: int, time: int)
    | Advance(id: nat)
    | End(session: nat, time: int)
    | Change(library: Library)

  const SESSION_TOUCH_SECONDS := 30

  /** Text, image, info and tile requests deliver the page; the manifest and the thumbnails do not. */
  predicate DeliversContent(kind: Kind) {
    !kind.ThumbnailOf? && !kind.Manifest?
  }

  // ----- one request, read by read -----

  predicate MayRead(l: Library, s: Session, at: int) {
    && s.document in l.documents && s.version in l.versions
    && CanRead(l.accounts, s.user, Entry(s.document, l.documents[s.document]), at)
    && l.versions[s.version].isCurrent && l.versions[s.version].processed && l.versions[s.version].pageCount > 0
  }

  /** The same check for every representation: a live session, a right valid now, a page that is there. */
  function AuthorizedPage(l: Library, s: Session, pageNumber: int, at: int): Result<Page, Refusal> {
    if pageNumber < 1 then Err(PageUnavailable)
    else if !s.IsActiveAt(at) then Err(SessionInactive)
    else if !MayRead(l, s, at) then Err(AccessDenied)
    else if pageNumber > l.versions[s.version].pageCount then Err(PageUnavailable)
    else if (s.version, pageNumber) !in l.pages || !l.pages[(s.version, pageNumber)].processed then Err(PageUnavailable)
    else Ok(l.pages[(s.version, pageNumber)])
  }

  predicate IsPresent(p: Page, kind: Kind) {
    match kind
    case TextOf => p.hasText
    case ImageOf => p.hasImage
    case InfoOf => p.hasTiles
    case TileOf(wellSpelled) => wellSpelled
    case ThumbnailOf => p.hasThumbnail
    case Manifest => true
  }

  function AuthorizeStep(l: Library, s: Session, r: Request): Progress {
    if r.kind.Manifest? then
      if !s.IsActiveAt(r.at) then Refused(SessionInactive)
      else if !MayRead(l, s, r.at) then Refused(AccessDenied)
      else Served(None)
    else match AuthorizedPage(l, s, r.pageNumber, r.at)
      case Err(reason) => Refused(reason)
      case Ok(page) =>
        if !IsPresent(page, r.kind) then Refused(PageUnavailable)
        else if r.kind.ThumbnailOf? then Served(None)
        else Authorized(page.id, s.lastSeen)
  }

  predicate IsStale(lastSeen: Option<int>, at: int) {
    lastSeen.None? || at - lastSeen.value >= SESSION_TOUCH_SECONDS
  }

  function CheckStep(journal: seq<Row>, r: Request): Progress
    requires r.progress.Authorized?
  {
    var logged := Row(r.session, r.progress.page) in journal;
    var stale := IsStale(r.progress.lastSeen, r.at);
    if logged && !stale then Served(Some(r.progress.page)) else Checked(r.progress.page, logged, stale)
  }

  /** The uniqueness constraint refuses a second row; the refusal is swallowed. */
  function InsertRow(journal: seq<Row>, row: Row): seq<Row> {
    if row in journal then journal else journal + [row]
  }

  /** Only the last_seen_at column is written. */
  function Touch(s: Session, at: int): Session {
    s.(lastSeen := Some(at))
  }

  function AdvanceStep(s: State, id: nat): State
    requires id in s.requests
  {
    var r := s.requests[id];
    if r.session !in s.sessions then s
    else match r.progress
      case Arrived =>
        var progress := AuthorizeStep(s.library, s.sessions[r.session], r);
        s.(requests := s.requests[id := r.(progress := progress)])
      case Authorized(_, _) => s.(requests := s.requests[id := r.(progress := CheckStep(s.journal, r))])
      case Checked(page, logged, stale) =>
        s.(journal := if logged then s.journal else InsertRow(s.journal, Row(r.session, page)),
           requests := s.requests[id := r.(progress := Inserted(page, stale))])
      case Inserted(page, stale) =>
        s.(sessions := if stale then s.sessions[r.session := Touch(s.sessions[r.session], r.at)] else s.sessions,
           requests := s.requests[id := r.(progress := Served(Some(page)))])
      case _ => s
  }

  function Ended(s: Session, at: int): Session {
    s.(active := false, endedAt := Some(at), lastSeen := Some(at))
  }

  function Step(s: State, a: Action): State {
    match a
    case Arrive(id, kind, session, pageNumber, time) =>
      if id in s.requests then s
      else s.(requests := s.requests[id := Request(kind, session, pageNumber, time, Arrived)])
    case Advance(id) => if id in s.requests then AdvanceStep(s, id) else s
    case End(session, time) =>
      if session in s.sessions then s.(sessions := s.sessions[session := Ended(s.sessions[session], time)]) else s
    case Change(library) => s.(library := library)
  }

  function Run(s: State, actions: seq<Action>): State {
    if actions == [] then s else Step(Run(s, actions[..|actions| - 1]), actions[|actions| - 1])
  }

  // ----- what every interleaving keeps -----

  predicate AtMostOnce(journal: seq<Row>) {
    forall i, j | 0 <= i < j < |journal| :: journal[i] != journal[j]
  }

  /** A request that has passed the journal has its row there. */
  predicate IsLogged(r: Request, journal: seq<Row>) {
    match r.progress
    case Checked(page, logged, _) => DeliversContent(r.kind) && (logged ==> Row(r.session, page) in journal)
    case Inserted(page, _) => DeliversContent(r.kind) && Row(r.session, page) in journal
    case Served(Some(page)) => DeliversContent(r.kind) && Row(r.session, page) in journal
    case Served(None) => !DeliversContent(r.kind)
    case Authorized(_, _) => DeliversContent(r.kind)
    case _ => true
  }

  /** The row stands for a request that delivers, or is about to deliver, that page's content. */
  ghost predicate HasReader(s: State, row: Row) {
    exists id | id in s.requests :: Reads(s.requests[id], row)
  }

  predicate Reads(r: Request, row: Row) {
    && DeliversContent(r.kind) && r.session == row.session
    && ((r.progress.Inserted? && r.progress.page == row.page) || r.progress == Served(Some(row.page)))
  }

  /** Relative to the rows there were before any of these requests. */
  ghost predicate Sound(s: State, before: seq<Row>) {
    && AtMostOnce(s.journal)
    && (forall id | id in s.requests :: IsLogged(s.requests[id], s.journal))
    && (forall row | row in s.journal :: row in before || HasReader(s, row))
  }

  /** A step of one request: the others, and their rows, are as before. */
  lemma AdvanceSound(s: State, id: nat, before: seq<Row>)
    requires Sound(s, before) && id in s.requests
    ensures Sound(AdvanceStep(s, id), before)
  {
    var s' := AdvanceStep(s, id);
    forall row | row in s'.journal && row !in before ensures HasReader(s', row) {
      if row in s.journal {
        var reader :| reader in s.requests && Reads(s.requests[reader], row);
        assert Reads(s'.requests[reader], row);
      } else {
        assert Reads(s'.requests[id], row);
      }
    }
  }

  /** A step that leaves the journal and the requests there were alone. */
  lemma SameJournalSound(s: State, s': State, before: seq<Row>)
    requires Sound(s, before) && s'.journal == s.journal
    requires forall id | id in s.requests :: id in s'.requests && s'.requests[id] == s.requests[id]
    requires forall id | id in s'.requests && id !in s.requests :: s'.requests[id].progress == Arrived
    ensures Sound(s', before)
  {
    forall row | row in s'.journal && row !in before ensures HasReader(s', row) {
      var reader :| reader in s.requests && Reads(s.requests[reader], row);
      assert Reads(s'.requests[reader], row);
    }
  }

  lemma StepSound(s: State, a: Action, before: seq<Row>)
    requires Sound(s, before)
    ensures Sound(Step(s, a), before)
  {
    if a.Advance? && a.id in s.requests {
      AdvanceSound(s, a.id, before);
    } else {
      SameJournalSound(s, Step(s, a), before);
    }
  }

  /**
   In every interleaving there is at most one row per session and page, every request that has
   delivered content has its row, and every new row has a request that delivers content: the
   manifest and the thumbnails leave none.
   */
  lemma {:induction false} JournalIsSound(s: State, actions: seq<Action>)
    requires AtMostOnce(s.journal) && s.requests == map[]
    ensures Sound(Run(s, actions), s.journal)
  {
    if actions != [] {
      JournalIsSound(s, actions[..|actions| - 1]);
      StepSound(Run(s, actions[..|actions| - 1]), actions[|actions| - 1], s.journal);
    }
  }

  // ----- losing the race fails nobody -----

  /** Own steps left before an authorised request is served. */
  function Remaining(p: Progress): nat {
    match p
    case Authorized(_, _) => 3
    case Checked(_, _, _) => 2
    case Inserted(_, _) => 1
    case _ => 0
  }

  predicate IsUnderWay(p: Progress) {
    p.Authorized? || p.Checked? || p.Inserted? || p.Served?
  }

  function CountAdvances(actions: seq<Action>, id: nat): nat {
    if actions == [] then 0
    else CountAdvances(actions[..|actions| - 1], id) + if actions[|actions| - 1] == Advance(id) then 1 else 0
  }

  /**
   Once authorised a request is never refused: whatever other requests do in between, each of its
   own steps brings it closer to its answer, so three of them suffice.
   */
  lemma {:induction false} AuthorizedIsServed(s: State, id: nat, actions: seq<Action>)
    requires id in s.requests && s.requests[id].session in s.sessions && IsUnderWay(s.requests[id].progress)
    ensures var s' := Run(s, actions);
            && id in s'.requests && s'.requests[id].session == s.requests[id].session &&
                 s.sessions.Keys <= s'.sessions.Keys
            && IsUnderWay(s'.requests[id].progress)
            && Remaining(s'.requests[id].progress) <= Max(0,
                 Remaining(s.requests[id].progress) - CountAdvances(actions, id))
            && (CountAdvances(actions, id) >= 3 ==> s'.requests[id].progress.Served?)
  {
    if actions != [] {
      AuthorizedIsServed(s, id, actions[..|actions| - 1]);
    }
  }

  // ----- nothing is delivered that was not authorised -----

  /** A live session, on the current version of a document that is open to its user at that instant. */
  ghost predicate IsLive(l: Library, s: Session, at: int) {
    && s.active && s.endedAt == None && at < s.expiresAt
    && s.document in l.documents && IsOpenTo(l.accounts, s.user, Entry(s.document, l.documents[s.document]), at)
    && s.version in l.versions && l.versions[s.version].isCurrent && l.versions[s.version].processed
    && l.versions[s.version].pageCount > 0
  }

  /** The page of that version under that number, processed and with the representation asked for. */
  ghost predicate IsThere(l: Library, s: Session, r: Request) {
    && s.version in l.versions && 1 <= r.pageNumber <= l.versions[s.version].pageCount
    && (s.version, r.pageNumber) in l.pages
    && var page := l.pages[(s.version, r.pageNumber)];
       && page.processed
       && match r.kind
          case TextOf => page.hasText
          case ImageOf => page.hasImage
          case InfoOf => page.hasTiles
          case TileOf(wellSpelled) => wellSpelled
          case ThumbnailOf => page.hasThumbnail
          case Manifest => true
  }

  /** The manifest needs a live session, all else the page too; what delivers content goes on with that page. */
  lemma AuthorizedIff(l: Library, s: Session, r: Request)
    ensures var progress := AuthorizeStep(l, s, r);
            && (r.kind.Manifest? ==> if IsLive(l, s, r.at) then progress == Served(None) else progress.Refused?)
            && (!r.kind.Manifest? ==>
                  if !IsLive(l, s, r.at) || !IsThere(l, s, r) then progress.Refused?
                  else if r.kind.ThumbnailOf? then progress == Served(None)
                  else progress == Authorized(l.pages[(s.version, r.pageNumber)].id, s.lastSeen))
    ensures var progress := AuthorizeStep(l, s, r);
            && (progress == Refused(SessionInactive) <==>
                  && (r.kind.Manifest? || r.pageNumber >= 1)
                  && !(s.active && s.endedAt == None && r.at < s.expiresAt))
            && (progress == Refused(AccessDenied) <==>
                  && (r.kind.Manifest? || r.pageNumber >= 1)
                  && s.active && s.endedAt == None && r.at < s.expiresAt && !IsLive(l, s, r.at))
  {
    if s.document in l.documents {
      CanReadIff(l.accounts, s.user, Entry(s.document, l.documents[s.document]), r.at);
    }
  }

  /** The page that a request under way is to deliver, if any. */
  function PageOf(p: Progress): Option<nat> {
    match p
    case Authorized(page, _) => Some(page)
    case Checked(page, _, _) => Some(page)
    case Inserted(page, _) => Some(page)
    case Served(content) => content
    case _ => None
  }

  /** The step authorises the request, for what it delivers in the end. */
  ghost predicate Authorizes(s: State, a: Action, id: nat, delivers: Option<nat>) {
    && a == Advance(id) && id in s.requests && s.requests[id].session in s.sessions
    && var r, session := s.requests[id], s.sessions[s.requests[id].session];
       && r.progress == Arrived && IsLive(s.library, session, r.at)
       && (r.kind.Manifest? || IsThere(s.library, session, r))
       && delivers == if DeliversContent(r.kind) then Some(s.library.pages[(session.version, r.pageNumber)].id)
                      else None
  }

  ghost predicate IsSameRequest(a: Request, b: Request) {
    a.kind == b.kind && a.session == b.session && a.pageNumber == b.pageNumber && a.at == b.at
  }

  lemma OneStepOfRequest(s: State, a: Action, id: nat)
    requires id in Step(s, a).requests
    ensures id !in s.requests ==>
              a == Arrive(id, Step(s, a).requests[id].kind, Step(s, a).requests[id].session,
                          Step(s, a).requests[id].pageNumber, Step(s, a).requests[id].at)
              && Step(s, a).requests[id].progress == Arrived
    ensures id in s.requests ==> IsSameRequest(s.requests[id], Step(s, a).requests[id])
    ensures id in s.requests && IsUnderWay(s.requests[id].progress) ==>
              PageOf(Step(s, a).requests[id].progress) == PageOf(s.requests[id].progress)
    ensures id in s.requests && !IsUnderWay(s.requests[id].progress)
            && IsUnderWay(Step(s, a).requests[id].progress) ==>
              Authorizes(s, a, id, PageOf(Step(s, a).requests[id].progress))
  {
    if id in s.requests && s.requests[id].session in s.sessions {
      AuthorizedIff(s.library, s.sessions[s.requests[id].session], s.requests[id]);
    }
  }

  /** A request is the one that arrived, with its kind, session, page number and instant. */
  lemma {:induction false} RequestArrived(s: State, id: nat, actions: seq<Action>)
    requires id !in s.requests && id in Run(s, actions).requests
    ensures var r := Run(s, actions).requests[id]; Arrive(id, r.kind, r.session, r.pageNumber, r.at) in actions
  {
    var front, last := actions[..|actions| - 1], actions[|actions| - 1];
    assert actions == front + [last];
    OneStepOfRequest(Run(s, front), last, id);
    if id in Run(s, front).requests {
      RequestArrived(s, id, front);
    }
  }

  /**
   Whatever a request has been served, in whatever interleaving, there was a moment when its session was
   live, its user had the right and the page was there, and what it delivers is that page.
   */
  lemma {:induction false} ServedWasAuthorized(s: State, id: nat, actions: seq<Action>) returns (k: nat)
    requires id !in s.requests && id in Run(s, actions).requests
    requires IsUnderWay(Run(s, actions).requests[id].progress)
    ensures k < |actions| && id in Run(s, actions[..k]).requests
    ensures IsSameRequest(Run(s, actions[..k]).requests[id], Run(s, actions).requests[id])
    ensures Authorizes(Run(s, actions[..k]), actions[k], id, PageOf(Run(s, actions).requests[id].progress))
  {
    var front, last := actions[..|actions| - 1], actions[|actions| - 1];
    OneStepOfRequest(Run(s, front), last, id);
    if id in Run(s, front).requests && IsUnderWay(Run(s, front).requests[id].progress) {
      k := ServedWasAuthorized(s, id, front);
      assert front[..k] == actions[..k];
    } else {
      k := |front|;
    }
  }

  // ----- an ended session stays ended -----

  /** Ending takes effect at once, on that session alone. */
  lemma EndingEnds(s: State, session: nat, time: int)
    requires session in s.sessions
    ensures var s' := Step(s, End(session, time));
            && s'.sessions == s.sessions[session := s.sessions[session].(
                 active := false, endedAt := Some(time), lastSeen := Some(time))]
            && s'.journal == s.journal && s'.requests == s.requests && s'.library == s.library
            && forall at :: !s'.sessions[session].IsActiveAt(at)
  {
  }

  /** No write of the journal, nor anything else, makes an ended session readable again. */
  lemma {:induction false} EndedStaysEnded(s: State, session: nat, actions: seq<Action>)
    requires session in s.sessions && s.sessions[session].endedAt.Some?
    ensures session in Run(s, actions).sessions && Run(s, actions).sessions[session].endedAt.Some?
    ensures forall at :: !Run(s, actions).sessions[session].IsActiveAt(at)
  {
    if actions != [] {
      EndedStaysEnded(s, session, actions[..|actions| - 1]);
    }
  }

  /** After the end, a request of that session that has not been authorised yet gets nothing. */
  lemma {:induction false} NothingServedAfterEnd(s: State, session: nat, id: nat, actions: seq<Action>)
    requires session in s.sessions && s.sessions[session].endedAt.Some?
    requires id in s.requests ==> s.requests[id].session == session && !IsUnderWay(s.requests[id].progress)
    requires forall a | a in actions && a.Arrive? && a.id == id :: a.session == session
    ensures id in Run(s, actions).requests ==>
              Run(s, actions).requests[id].session == session && !IsUnderWay(Run(s, actions).requests[id].progress)
  {
    if actions != [] {
      var front := actions[..|actions| - 1];
      assert actions == front + [actions[|actions| - 1]];
      NothingServedAfterEnd(s, session, id, front);
      EndedStaysEnded(s, session, front);
    }
  }

  // ----- the service itself, when nothing comes between -----

  class ReaderLog {
    var sessions: map<nat, Session>
    var journal: seq<Row>

    /** Logs the page once for the session and refreshes the session, skipping writes that would say nothing new. */
    method RecordPageAccess(session: nat, page: nat, at: int)
      requires session in sessions
      modifies this
      ensures journal == InsertRow(old(journal), Row(session, page))
      ensures sessions == if IsStale(old(sessions[session]).lastSeen, at)
                          then old(sessions)[session := Touch(old(sessions[session]), at)] else old(sessions)
      ensures journal == if Row(session, page) in old(journal) then old(journal)
                         else old(journal) + [Row(session, page)]
      ensures var seen := old(sessions)[session].lastSeen;
              sessions == old(sessions)[session := old(sessions)[session].(
                lastSeen := if seen == None || at >= seen.value + 30 then Some(at) else seen)]
    {
      var alreadyLogged := Row(session, page) in journal;
      var stale := IsStale(sessions[session].lastSeen, at);
      assert sessions == sessions[session := sessions[session]];
      if alreadyLogged && !stale {
        return;
      }
      if !alreadyLogged {
        journal := journal + [Row(session, page)];
      }
      if stale {
        sessions := sessions[session := sessions[session].(lastSeen := Some(at))];
      }
    }

    method EndReaderSession(session: nat, at: int)
      requires session in sessions
      modifies this`sessions
      ensures sessions == old(sessions)[session := Ended(old(sessions[session]), at)]
      ensures sessions.Keys == old(sessions).Keys && forall other | other in sessions && other != session ::
                sessions[other] == old(sessions)[other]
      ensures !sessions[session].active && sessions[session].endedAt == sessions[session].lastSeen == Some(at)
    {
      sessions := sessions[session := sessions[session].(active := false, endedAt := Some(at), lastSeen := Some(at))];
    }
  }

  /** Run without interruption, the three steps of a request are that call. */
  lemma UninterruptedIsRecord(s: State, id: nat)
    requires id in s.requests && s.requests[id].session in s.sessions && s.requests[id].progress.Authorized?
    requires s.requests[id].progress.lastSeen == s.sessions[s.requests[id].session].lastSeen
    ensures var r := s.requests[id];
            var s' := Run(s, [Advance(id), Advance(id), Advance(id)]);
            && id in s'.requests && s'.requests[id].progress == Served(Some(r.progress.page))
            && s'.journal == InsertRow(s.journal, Row(r.session, r.progress.page))
            && s'.sessions == if IsStale(r.progress.lastSeen, r.at)
                              then s.sessions[r.session := Touch(s.sessions[r.session], r.at)] else s.sessions
    ensures var r, seen := s.requests[id], s.sessions[s.requests[id].session].lastSeen;
            var s' := Run(s, [Advance(id), Advance(id), Advance(id)]);
            s'.sessions == s.sessions[r.session := s.sessions[r.session].(
              lastSeen := if seen == None || r.at >= seen.value + 30 then Some(r.at) else seen)]
  {
    assert s.sessions == s.sessions[s.requests[id].session := s.sessions[s.requests[id].session]];
    var three := [Advance(id), Advance(id), Advance(id)];
    assert three[..2] == [Advance(id), Advance(id)] && three[..2][..1] == [Advance(id)] && three[..2][..1][..0] == [];
    var s1 := AdvanceStep(s, id);
    var s2 := AdvanceStep(s1, id);
    assert Run(s, []) == s;
    assert Run(s, three[..2][..1]) == s1;
    assert Run(s, three[..2]) == s2;
    assert Run(s, three) == AdvanceStep(s2, id);
  }
}
