/** Who may read a document: the one-document rule and its batch form. */
module Access {
  import opened Prelude
  import opened Decimal
  import opened Catalog

  datatype AccessRight = Read | Download | Offline

  datatype ScopeType = GlobalScope | DomainScope | CollectionScope | DocumentScope

  datatype Entitlement = Entitlement(
    user: Option<nat>, organization: Option<nat>, right: AccessRight, scopeType: ScopeType, scopeId: string,
    startsAt: int, endsAt: Option<int>, revokedAt: Option<int>)
  {
    predicate IsActiveAt(at: int) {
      revokedAt.None? && startsAt <= at && (endsAt.Some? ==> at < endsAt.value)
    }

    predicate MatchesScope(kind: ScopeType, id: string) {
      scopeType == GlobalScope || (scopeType == kind && scopeId == id)
    }
  }

  datatype Membership = Membership(
    organization: nat, user: nat, active: bool, startsAt: int, endsAt: Option<int>, verified: bool)

  datatype Organization = Organization(active: bool, requiresVerification: bool)

  /** The rows an access decision reads. */
  datatype Accounts = Accounts(
    organizations: map<nat, Organization>, memberships: seq<Membership>, entitlements: seq<Entitlement>)

  /** A catalogue entry as the reader sees it: its key and its workflow row. */
  datatype Entry = Entry(pk: nat, document: Document)

  // ----- the one-document rule -----

  /** Membership alone is not enough: an organisation may ask that the identity be verified. */
  predicate Opens(accounts: Accounts, m: Membership, user: nat, at: int) {
    && m.user == user && m.active && m.startsAt <= at && (m.endsAt.Some? ==> at < m.endsAt.value)
    && m.organization in accounts.organizations && accounts.organizations[m.organization].active
    && (accounts.organizations[m.organization].requiresVerification ==> m.verified)
  }

  function ActiveOrganizations(accounts: Accounts, user: nat, at: int): set<nat> {
    set m | m in accounts.memberships && Opens(accounts, m, user, at) :: m.organization
  }

  /** The row is held by the user, or by an organisation on the user's behalf. */
  predicate HeldBy(accounts: Accounts, e: Entitlement, user: nat, at: int) {
    || e.user == Some(user)
    || (e.user.None? && e.organization.Some? && e.organization.value in ActiveOrganizations(accounts, user, at))
  }

  predicate Grants(accounts: Accounts, e: Entitlement, user: nat, right: AccessRight, kind: ScopeType, id: string,
      at: int) {
    HeldBy(accounts, e, user, at) && e.right == right && e.IsActiveAt(at) && e.MatchesScope(kind, id)
  }

  predicate HasEntitlement(accounts: Accounts, user: nat, right: AccessRight, kind: ScopeType, id: string, at: int) {
    exists e | e in accounts.entitlements :: Grants(accounts, e, user, right, kind, id, at)
  }

  /** The loop behind that question: database filter first, row by row after. */
  method UserHasEntitlement(accounts: Accounts, user: nat, right: AccessRight, kind: ScopeType, id: string, at: int)
      returns (has: bool)
    ensures has <==> HasEntitlement(accounts, user, right, kind, id, at)
    ensures has <==> exists e | e in accounts.entitlements ::
              && IsRight(accounts, e, user, right, at)
              && (e.scopeType == GlobalScope || (e.scopeType == kind && e.scopeId == id))
  {
    forall e | e in accounts.entitlements
      ensures Grants(accounts, e, user, right, kind, id, at) <==>
                && IsRight(accounts, e, user, right, at)
                && (e.scopeType == GlobalScope || (e.scopeType == kind && e.scopeId == id))
    {
      GrantsIff(accounts, e, user, right, kind, id, at);
    }
    for i := 0 to |accounts.entitlements|
      invariant forall j | 0 <= j < i :: !Grants(accounts, accounts.entitlements[j], user, right, kind, id, at)
    {
      var e := accounts.entitlements[i];
      if HeldBy(accounts, e, user, at) && e.right == right && e.startsAt <= at &&
          (e.endsAt.Some? ==> at < e.endsAt.value) {
        if e.IsActiveAt(at) && e.MatchesScope(kind, id) {
          assert e in accounts.entitlements && Grants(accounts, e, user, right, kind, id, at);
          return true;
        }
      }
    }
    return false;
  }

  // ----- what the layered rule comes to -----

  /** The user holds the row, or is an active member of the active organisation that does, verified if it asks. */
  ghost predicate IsFor(accounts: Accounts, e: Entitlement, user: nat, at: int) {
    || e.user == Some(user)
    || (e.user == None && exists m | m in accounts.memberships ::
          && m.user == user && e.organization == Some(m.organization)
          && m.active && m.startsAt <= at && (m.endsAt == None || at < m.endsAt.value)
          && m.organization in accounts.organizations && accounts.organizations[m.organization].active
          && (m.verified || !accounts.organizations[m.organization].requiresVerification))
  }

  /** A row that gives the right to the user at that instant. */
  ghost predicate IsRight(accounts: Accounts, e: Entitlement, user: nat, right: AccessRight, at: int) {
    && IsFor(accounts, e, user, at) && e.right == right
    && e.revokedAt == None && e.startsAt <= at && (e.endsAt == None || at < e.endsAt.value)
  }

  lemma HeldIff(accounts: Accounts, e: Entitlement, user: nat, at: int)
    ensures HeldBy(accounts, e, user, at) <==> IsFor(accounts, e, user, at)
  {
    if e.user == None && e.organization.Some? && e.organization.value in ActiveOrganizations(accounts, user, at) {
      var m :| m in accounts.memberships && Opens(accounts, m, user, at) && m.organization == e.organization.value;
    }
  }

  lemma GrantsIff(accounts: Accounts, e: Entitlement, user: nat, right: AccessRight, kind: ScopeType, id: string,
      at: int)
    ensures Grants(accounts, e, user, right, kind, id, at) <==>
              && IsRight(accounts, e, user, right, at)
              && (e.scopeType == GlobalScope || (e.scopeType == kind && e.scopeId == id))
  {
    HeldIff(accounts, e, user, at);
  }

  /**
   A published document is open to all when it is free, and, when it needs a right, to whoever holds a
   reading right for everything, for its domain or for the document itself.
   */
  ghost predicate IsOpenTo(accounts: Accounts, user: Option<nat>, entry: Entry, at: int) {
    var file := entry.document.file;
    && entry.document.status == Published
    && (|| file.accessModel == Free
        || (&& file.accessModel in {Subscription, InstitutionOnly, Sponsored, Restricted} && user.Some?
            && exists e | e in accounts.entitlements ::
                 && IsRight(accounts, e, user.value, Read, at)
                 && (|| e.scopeType == GlobalScope
                     || (e.scopeType == DocumentScope && e.scopeId == ToText(entry.pk))
                     || (e.scopeType == DomainScope && file.domain.Some? && e.scopeId == ToText(file.domain.value)))))
  }

  lemma CanReadIff(accounts: Accounts, user: Option<nat>, entry: Entry, at: int)
    ensures CanRead(accounts, user, entry, at) <==> IsOpenTo(accounts, user, entry, at)
  {
    if user.Some? {
      var file := entry.document.file;
      forall e | e in accounts.entitlements
        ensures Grants(accounts, e, user.value, Read, DocumentScope, ScopeOf(entry.pk), at) <==>
                  && IsRight(accounts, e, user.value, Read, at)
                  && (e.scopeType == GlobalScope || (e.scopeType == DocumentScope && e.scopeId == ToText(entry.pk)))
        ensures file.domain.Some? ==>
                  (Grants(accounts, e, user.value, Read, DomainScope, ScopeOf(file.domain.value), at) <==>
                     && IsRight(accounts, e, user.value, Read, at)
                     && (e.scopeType == GlobalScope
                         || (e.scopeType == DomainScope && e.scopeId == ToText(file.domain.value))))
      {
        GrantsIff(accounts, e, user.value, Read, DocumentScope, ScopeOf(entry.pk), at);
        if file.domain.Some? {
          GrantsIff(accounts, e, user.value, Read, DomainScope, ScopeOf(file.domain.value), at);
        }
      }
    }
  }

  predicate RequiresEntitlement(d: Document) {
    d.file.accessModel in {Subscription, InstitutionOnly, Sponsored, Restricted}
  }

  /** Published and not private: what a reader may discover, and what search may index. */
  predicate IsReaderAccessible(d: Document) {
    d.status == Published && d.file.accessModel != Private
  }

  /** The primary key's text is the scope an entitlement to one document names. */
  function ScopeOf(pk: nat): string {
    ToText(pk)
  }

  predicate CanRead(accounts: Accounts, user: Option<nat>, entry: Entry, at: int) {
    var d := entry.document;
    && IsReaderAccessible(d)
    && if !RequiresEntitlement(d) then d.file.accessModel == Free
       else
         && user.Some?
         && (|| HasEntitlement(accounts, user.value, Read, DocumentScope, ScopeOf(entry.pk), at)
             || (&& d.file.domain.Some?
                 && HasEntitlement(accounts, user.value, Read, DomainScope, ScopeOf(d.file.domain.value), at)))
  }

  method UserCanReadDocument(accounts: Accounts, user: Option<nat>, entry: Entry, at: int) returns (can: bool)
    ensures can <==> CanRead(accounts, user, entry, at)
    ensures can <==> IsOpenTo(accounts, user, entry, at)
  {
    CanReadIff(accounts, user, entry, at);
    var d := entry.document;
    if !IsReaderAccessible(d) {
      return false;
    }
    if !RequiresEntitlement(d) {
      return d.file.accessModel == Free;
    }
    if user.None? {
      return false;
    }
    can := UserHasEntitlement(accounts, user.value, Read, DocumentScope, ScopeOf(entry.pk), at);
    if can {
      return true;
    }
    if d.file.domain.Some? {
      can := UserHasEntitlement(accounts, user.value, Read, DomainScope, ScopeOf(d.file.domain.value), at);
    }
  }

  // ----- the batch form -----

  /** The rows the single query of the batch form selects. */
  predicate Selected(accounts: Accounts, e: Entitlement, user: nat, at: int) {
    && HeldBy(accounts, e, user, at) && e.right == Read
    && e.scopeType in {GlobalScope, DomainScope, DocumentScope}
    && e.startsAt <= at && e.revokedAt.None? && (e.endsAt.Some? ==> at < e.endsAt.value)
  }

  /** What the batch form gathers from the selected rows before it looks at a single document. */
  ghost predicate Gathered(accounts: Accounts, upTo: nat, user: nat, at: int, everything: bool, domains: set<string>,
      documents: set<string>)
    requires upTo <= |accounts.entitlements|
  {
    var es := accounts.entitlements;
    && (everything <==> exists j | 0 <= j < upTo ::
         Selected(accounts, es[j], user, at) && es[j].scopeType == GlobalScope)
    && (forall id :: id in domains <==>
          exists j | 0 <= j < upTo :: Selected(accounts, es[j], user, at) && es[j].scopeType == DomainScope &&
              es[j].scopeId == id)
    && (forall id :: id in documents <==>
          exists j | 0 <= j < upTo :: Selected(accounts, es[j], user, at) && es[j].scopeType == DocumentScope &&
              es[j].scopeId == id)
  }

  method GatherScopes(accounts: Accounts, user: nat, at: int)
      returns (everything: bool, domains: set<string>, documents: set<string>)
    ensures Gathered(accounts, |accounts.entitlements|, user, at, everything, domains, documents)
  {
    everything, domains, documents := false, {}, {};
    for i := 0 to |accounts.entitlements|
      invariant Gathered(accounts, i, user, at, everything, domains, documents)
    {
      var e := accounts.entitlements[i];
      if Selected(accounts, e, user, at) {
        match e.scopeType
        case GlobalScope => everything := true;
        case DomainScope => domains := domains + {e.scopeId};
        case DocumentScope => documents := documents + {e.scopeId};
        case CollectionScope =>
      }
    }
  }

  /** Deciding from the gathered scopes is deciding row by row. */
  lemma GatheredDecides(accounts: Accounts, user: nat, at: int, everything: bool, domains: set<string>,
      documents: set<string>, kind: ScopeType, id: string)
    requires Gathered(accounts, |accounts.entitlements|, user, at, everything, domains, documents)
    requires kind == DomainScope || kind == DocumentScope
    ensures HasEntitlement(accounts, user, Read, kind, id, at)
       <==> everything || id in (if kind == DomainScope then domains else documents)
  {
    var es := accounts.entitlements;
    forall j | 0 <= j < |es|
      ensures Grants(accounts, es[j], user, Read, kind, id, at)
         <==> (&& Selected(accounts, es[j], user, at)
              && (es[j].scopeType == GlobalScope || (es[j].scopeType == kind && es[j].scopeId == id)))
    {
    }
    if HasEntitlement(accounts, user, Read, kind, id, at) {
      var e :| e in es && Grants(accounts, e, user, Read, kind, id, at);
      var j :| 0 <= j < |es| && es[j] == e;
    }
    if everything {
      var j :| 0 <= j < |es| && Selected(accounts, es[j], user, at) && es[j].scopeType == GlobalScope;
      assert es[j] in es;
    }
    if id in (if kind == DomainScope then domains else documents) {
      var j :| 0 <= j < |es| && Selected(accounts, es[j], user, at) && es[j].scopeType == kind && es[j].scopeId == id;
      assert es[j] in es;
    }
  }

  ghost function Readable(accounts: Accounts, user: Option<nat>, entries: seq<Entry>, at: int): set<nat> {
    set e | e in entries && CanRead(accounts, user, e, at) :: e.pk
  }

  lemma ReadableAreOpen(accounts: Accounts, user: Option<nat>, entries: seq<Entry>, at: int)
    ensures Readable(accounts, user, entries, at) == set e | e in entries && IsOpenTo(accounts, user, e, at) :: e.pk
  {
    forall e | e in entries ensures CanRead(accounts, user, e, at) <==> IsOpenTo(accounts, user, e, at) {
      CanReadIff(accounts, user, e, at);
    }
  }

  /** The id of a restricted entry that the one-document rule admits. */
  ghost predicate Admitted(accounts: Accounts, user: Option<nat>, entries: seq<Entry>, at: int, id: nat) {
    exists e | e in entries :: e.pk == id && RequiresEntitlement(e.document) && CanRead(accounts, user, e, at)
  }

  /** One query for the whole list gives exactly the documents that the one-document rule admits. */
  method ReadableDocumentIds(accounts: Accounts, user: Option<nat>, entries: seq<Entry>, at: int)
      returns (ids: set<nat>)
    ensures ids == Readable(accounts, user, entries, at)
    ensures ids == set e | e in entries && IsOpenTo(accounts, user, e, at) :: e.pk
  {
    ReadableAreOpen(accounts, user, entries, at);
    ids := set e | e in entries && IsReaderAccessible(e.document) && !RequiresEntitlement(e.document)
                   && e.document.file.accessModel == Free :: e.pk;
    var restricted := exists e | e in entries :: IsReaderAccessible(e.document) && RequiresEntitlement(e.document);
    if !restricted || user.None? {
      return;
    }
    var everything, domains, documents := GatherScopes(accounts, user.value, at);
    ghost var free := ids;
    for i := 0 to |entries|
      invariant forall id :: id in ids <==> (id in free || Admitted(accounts, user, entries[..i], at, id))
    {
      var d := entries[i].document;
      assert entries[..i + 1] == entries[..i] + [entries[i]];
      if IsReaderAccessible(d) && RequiresEntitlement(d) {
        GatheredDecides(accounts, user.value, at, everything, domains, documents, DocumentScope,
            ScopeOf(entries[i].pk));
        if d.file.domain.Some? {
          GatheredDecides(accounts, user.value, at, everything, domains, documents, DomainScope,
              ScopeOf(d.file.domain.value));
        }
        if everything || ScopeOf(entries[i].pk) in documents ||
            (d.file.domain.Some? && ScopeOf(d.file.domain.value) in domains) {
          ids := ids + {entries[i].pk};
        }
      }
    }
    assert entries[..|entries|] == entries;
    FreeOrRestricted(accounts, user, entries, at, free, ids);
  }

  lemma FreeOrRestricted(accounts: Accounts, user: Option<nat>, entries: seq<Entry>, at: int, free: set<nat>,
      ids: set<nat>)
    requires free == set e | e in entries && IsReaderAccessible(e.document) && !RequiresEntitlement(e.document)
                             && e.document.file.accessModel == Free :: e.pk
    requires forall id :: id in ids <==> (id in free || Admitted(accounts, user, entries, at, id))
    ensures ids == Readable(accounts, user, entries, at)
  {
    forall id ensures id in ids <==> id in Readable(accounts, user, entries, at) {
      if id in Readable(accounts, user, entries, at) {
        var e :| e in entries && CanRead(accounts, user, e, at) && e.pk == id;
      }
    }
  }
}
