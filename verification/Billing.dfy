/**
 The ledger of entitlements that billing writes: subscriptions and organisation quotas that own one
 each, and sponsored campaigns that hand out a limited number. Every operation runs under a row
 lock and is one step.
 */
module Billing {
  import opened Prelude
  import Decimal
  import Access

  datatype Source = IndividualSubscription | OrganizationQuota | SponsoredCampaign | AdminGrant

  datatype Kind = SubscriptionKind | QuotaKind

  datatype Key = Key(kind: Kind, pk: nat)

  datatype Note = ContractNote(key: Key) | CampaignNote(campaign: nat) | Reason(text: string)

  /** How notes are written in the note column. */
  function NoteText(note: Note): string {
    match note
    case ContractNote(Key(SubscriptionKind, pk)) => "subscription:" + Decimal.ToText(pk)
    case ContractNote(Key(QuotaKind, pk)) => "organization_quota:" + Decimal.ToText(pk)
    case CampaignNote(pk) => "sponsored_campaign:" + Decimal.ToText(pk)
    case Reason(text) => text
  }

  /** Two notes that billing itself writes are never spelled alike, so a note names its owner. */
  lemma NotesNameTheirOwner(a: Note, b: Note)
    requires !a.Reason? && !b.Reason? && NoteText(a) == NoteText(b)
    ensures a == b
  {
    var s, t := NoteText(a), NoteText(b);
    assert s[0] == t[0] && s[1] == t[1];
    match a
    case ContractNote(Key(SubscriptionKind, pk)) =>
      assert s[13..] == Decimal.ToText(pk) && t[13..] == Decimal.ToText(b.key.pk);
      Decimal.ToTextInjective(pk, b.key.pk);
    case ContractNote(Key(QuotaKind, pk)) =>
      assert s[19..] == Decimal.ToText(pk) && t[19..] == Decimal.ToText(b.key.pk);
      Decimal.ToTextInjective(pk, b.key.pk);
    case CampaignNote(pk) =>
      assert s[19..] == Decimal.ToText(pk) && t[19..] == Decimal.ToText(b.campaign);
      Decimal.ToTextInjective(pk, b.campaign);
  }

  datatype Terms = Terms(right: Access.AccessRight, scopeType: Access.ScopeType, scopeId: string)

  datatype Holder = User(id: nat) | Organization(id: nat)

  datatype Entitlement = Entitlement(
    holder: Holder, source: Source, terms: Terms, startsAt: int, endsAt: Option<int>, note: Note,
    revokedAt: Option<int>)

  datatype Offer = Offer(isActive: bool, durationDays: nat, terms: Terms)

  datatype Status = Waiting | Running | Suspended | Expired | Cancelled

  /** A subscription or a quota; their fields differ only in what the lock step reads. */
  datatype Contract = Contract(
    holder: Holder, offer: nat, startsAt: int, endsAt: int, status: Status, entitlement: Option<nat>)

  datatype CampaignStatus = Draft | Active | Ended | Dropped

  datatype Campaign = Campaign(seats: nat, terms: Terms, startsAt: int, endsAt: int, status: CampaignStatus)

  type Ledger = seq<Entitlement>

  datatype State = State(
    offers: map<nat, Offer>, contracts: map<Key, Contract>, campaigns: map<nat, Campaign>, ledger: Ledger)

  datatype BillingError =
    | NotFound | CannotActivate | OfferInactive | WindowMismatch
    | CampaignInactive | OutsideWindow | CapacityExhausted

  const DAY := 86_400_000_000

  predicate IsClosed(status: Status) {
    status in {Suspended, Expired, Cancelled}
  }

  predicate IsOver(status: CampaignStatus) {
    status in {Ended, Dropped}
  }

  // ----- changes of the ledger -----

  function Revoke(e: Entitlement, at: int): Entitlement {
    if e.revokedAt.Some? then e else e.(revokedAt := Some(at))
  }

  function RevokeAt(ledger: Ledger, i: nat, at: int): Ledger
    requires i < |ledger|
  {
    ledger[i := Revoke(ledger[i], at)]
  }

  predicate IsSeat(e: Entitlement, campaign: nat) {
    e.source == SponsoredCampaign && e.note == CampaignNote(campaign)
  }

  predicate IsOpenSeat(e: Entitlement, campaign: nat) {
    IsSeat(e, campaign) && e.revokedAt.None?
  }

  function RevokeSeats(ledger: Ledger, campaign: nat, at: int): Ledger {
    seq(|ledger|, i requires 0 <= i < |ledger| =>
      if IsOpenSeat(ledger[i], campaign) then Revoke(ledger[i], at) else ledger[i])
  }

  /** The first row equal to the wanted one, whether or not it was revoked since; the length when there is none. */
  function FindGrant(ledger: Ledger, wanted: Entitlement): (i: nat)
    ensures i <= |ledger|
    ensures i < |ledger| ==> ledger[i].(revokedAt := None) == wanted
    ensures forall j | 0 <= j < i :: ledger[j].(revokedAt := None) != wanted
  {
    if ledger == [] || ledger[0].(revokedAt := None) == wanted then 0 else 1 + FindGrant(ledger[1..], wanted)
  }

  function OpenSeats(ledger: Ledger, campaign: nat): nat {
    if ledger == [] then 0
    else OpenSeats(ledger[..|ledger| - 1], campaign) + (if IsOpenSeat(ledger[|ledger| - 1], campaign) then 1 else 0)
  }

  /** The user's open seat, under the terms of the campaign. */
  function FindSeat(ledger: Ledger, pk: nat, user: nat, terms: Terms): (i: nat)
    ensures i <= |ledger|
    ensures i < |ledger| ==> IsOpenSeat(ledger[i], pk) && ledger[i].holder == User(user) && ledger[i].terms == terms
    ensures forall j | 0 <= j < i ::
        !(IsOpenSeat(ledger[j], pk) && ledger[j].holder == User(user) && ledger[j].terms == terms)
  {
    if ledger == [] || (IsOpenSeat(ledger[0], pk) && ledger[0].holder == User(user) && ledger[0].terms == terms) then 0
    else 1 + FindSeat(ledger[1..], pk, user, terms)
  }

  // ----- contracts -----

  /** The entitlement a contract gives. */
  function Wanted(key: Key, c: Contract, terms: Terms): Entitlement {
    var source := if c.holder.User? then IndividualSubscription else OrganizationQuota;
    Entitlement(c.holder, source, terms, c.startsAt, Some(c.endsAt), ContractNote(key), None)
  }

  function ActivationError(s: State, key: Key): Option<BillingError> {
    if key !in s.contracts || s.contracts[key].offer !in s.offers then Some(NotFound)
    else
      var c := s.contracts[key];
      var offer := s.offers[c.offer];
      if IsClosed(c.status) then Some(CannotActivate)
      else if !offer.isActive then Some(OfferInactive)
      else if key.kind == SubscriptionKind && c.endsAt != c.startsAt + offer.durationDays * DAY
      then Some(WindowMismatch)
      else None
  }

  /** The step, and the entitlement it returns. */
  function Activated(s: State, key: Key): (State, Result<nat, BillingError>) {
    var error := ActivationError(s, key);
    if error.Some? then (s, Err(error.value))
    else
      var c := s.contracts[key];
      if c.entitlement.Some? then (s, Ok(c.entitlement.value))
      else
        var wanted := Wanted(key, c, s.offers[c.offer].terms);
        var i := FindGrant(s.ledger, wanted);
        var ledger := if i < |s.ledger| then s.ledger else s.ledger + [wanted];
        (s.(ledger := ledger, contracts := s.contracts[key := c.(status := Running, entitlement := Some(i))]), Ok(i))
  }

  function Closed(s: State, key: Key, status: Status, at: int): State {
    if key !in s.contracts then s
    else
      var c := s.contracts[key];
      var owned := c.entitlement.Some? && c.entitlement.value < |s.ledger|;
      var ledger := if owned then RevokeAt(s.ledger, c.entitlement.value, at) else s.ledger;
      s.(ledger := ledger, contracts := s.contracts[key := c.(status := status)])
  }

  // ----- campaigns -----

  function Seat(pk: nat, c: Campaign, user: nat): Entitlement {
    Entitlement(User(user), SponsoredCampaign, c.terms, c.startsAt, Some(c.endsAt), CampaignNote(pk), None)
  }

  function Enrolled(s: State, pk: nat, user: nat, at: int): (State, Result<nat, BillingError>) {
    if pk !in s.campaigns then (s, Err(NotFound))
    else
      var c := s.campaigns[pk];
      if c.status != Active then (s, Err(CampaignInactive))
      else if c.startsAt > at || c.endsAt <= at then (s, Err(OutsideWindow))
      else
        var i := FindSeat(s.ledger, pk, user, c.terms);
        if i < |s.ledger| then (s, Ok(i))
        else if OpenSeats(s.ledger, pk) >= c.seats then (s, Err(CapacityExhausted))
        else (s.(ledger := s.ledger + [Seat(pk, c, user)]), Ok(|s.ledger|))
  }

  function CampaignClosed(s: State, pk: nat, status: CampaignStatus, at: int): State {
    if pk !in s.campaigns then s
    else s.(ledger := RevokeSeats(s.ledger, pk, at), campaigns := s.campaigns[pk := s.campaigns[pk].(status := status)])
  }

  // ----- runs -----

  datatype Action =
    | SetOffer(offer: nat, isActive: bool)
    | Sell(key: Key, contract: Contract)
    | Activate(key: Key)
    | Close(key: Key, status: Status, at: int)
    | Plan(campaign: nat, seats: nat, terms: Terms, startsAt: int, endsAt: int)
    | Launch(campaign: nat)
    | Enroll(campaign: nat, user: nat, at: int)
    | CloseCampaign(campaign: nat, over: CampaignStatus, at: int)
    | Grant(entitlement: Entitlement)

  /** Terms, windows and seats are fixed once sold; everything else may happen in any order. */
  predicate Allowed(s: State, action: Action) {
    match action
    case SetOffer(offer, _) => offer in s.offers
    case Sell(key, c) =>
      && key !in s.contracts && c.offer in s.offers && c.status == Waiting && c.entitlement == None
      && (key.kind == QuotaKind ==> c.holder.Organization?)
    case Close(_, status, _) => IsClosed(status)
    case Plan(pk, _, _, _, _) => pk !in s.campaigns
    case Launch(pk) => pk in s.campaigns && s.campaigns[pk].status == Draft
    case CloseCampaign(_, over, _) => IsOver(over)
    case Grant(e) => e.source == AdminGrant
    case _ => true
  }

  function Step(s: State, action: Action): State {
    if !Allowed(s, action) then s
    else
      match action
      case SetOffer(offer, isActive) => s.(offers := s.offers[offer := s.offers[offer].(isActive := isActive)])
      case Sell(key, c) => s.(contracts := s.contracts[key := c])
      case Activate(key) => Activated(s, key).0
      case Close(key, status, at) => Closed(s, key, status, at)
      case Plan(pk, seats, terms, startsAt, endsAt) =>
          s.(campaigns := s.campaigns[pk := Campaign(seats, terms, startsAt, endsAt, Draft)])
      case Launch(pk) => s.(campaigns := s.campaigns[pk := s.campaigns[pk].(status := Active)])
      case Enroll(pk, user, at) => Enrolled(s, pk, user, at).0
      case CloseCampaign(pk, over, at) => CampaignClosed(s, pk, over, at)
      case Grant(e) => s.(ledger := s.ledger + [e])
  }

  function Run(s: State, actions: seq<Action>): State {
    if actions == [] then s else Step(Run(s, actions[..|actions| - 1]), actions[|actions| - 1])
  }

  // ----- every contract owns its entitlement -----

  /** An entitlement that billing gave for the contract. */
  predicate IsOwned(e: Entitlement, key: Key) {
    e.source != AdminGrant && e.note == ContractNote(key)
  }

  ghost predicate ContractSound(s: State, key: Key)
    requires key in s.contracts
  {
    var c := s.contracts[key];
    && c.offer in s.offers
    && (c.status == Waiting ==> c.entitlement == None)
    && (c.status == Running ==> c.entitlement.Some?)
    && (c.entitlement.Some? ==>
          var i := c.entitlement.value;
          && i < |s.ledger|
          && s.ledger[i].(revokedAt := None) == Wanted(key, c, s.offers[c.offer].terms)
          && (IsClosed(c.status) <==> s.ledger[i].revokedAt.Some?))
  }

  ghost predicate OwnerSound(s: State, i: nat)
    requires i < |s.ledger|
  {
    forall key | IsOwned(s.ledger[i], key) :: key in s.contracts && s.contracts[key].entitlement == Some(i)
  }

  /** Contracts and the entitlements given for them correspond one to one. */
  ghost predicate ContractsSound(s: State) {
    (forall key | key in s.contracts :: ContractSound(s, key)) && (forall i | 0 <= i < |s.ledger| :: OwnerSound(s, i))
  }

  /** Rows that no contract owns may come and change freely. */
  lemma OtherRowsKeepContracts(s: State, ledger: Ledger)
    requires ContractsSound(s) && |s.ledger| <= |ledger|
    requires forall i | 0 <= i < |s.ledger| && ledger[i] != s.ledger[i] :: forall key ::
        !IsOwned(s.ledger[i], key) && !IsOwned(ledger[i], key)
    requires forall i | |s.ledger| <= i < |ledger| :: forall key :: !IsOwned(ledger[i], key)
    ensures ContractsSound(s.(ledger := ledger))
  {
    var r := s.(ledger := ledger);
    forall key | key in s.contracts ensures ContractSound(r, key) {
      assert ContractSound(s, key);
      var c := s.contracts[key];
      if c.entitlement.Some? {
        assert IsOwned(s.ledger[c.entitlement.value], key);
      }
    }
    forall i | 0 <= i < |ledger| ensures OwnerSound(r, i) {
      assert i < |s.ledger| ==> OwnerSound(s, i);
    }
  }

  lemma ActivateKeepsContracts(s: State, key: Key)
    requires ContractsSound(s)
    ensures ContractsSound(Activated(s, key).0)
  {
    var r := Activated(s, key).0;
    if ActivationError(s, key).None? && s.contracts[key].entitlement.None? {
      var c := s.contracts[key];
      assert ContractSound(s, key);
      var wanted := Wanted(key, c, s.offers[c.offer].terms);
      NothingFound(s, key, wanted);
      forall k | k in r.contracts ensures ContractSound(r, k) {
        assert k != key ==> ContractSound(s, k);
      }
      forall i | 0 <= i < |r.ledger| ensures OwnerSound(r, i) {
        assert i < |s.ledger| ==> OwnerSound(s, i);
      }
    }
  }

  /** A contract without entitlement has none in the ledger, so get_or_create creates. */
  lemma NothingFound(s: State, key: Key, wanted: Entitlement)
    requires ContractsSound(s) && key in s.contracts && s.contracts[key].entitlement == None
    requires IsOwned(wanted, key)
    ensures FindGrant(s.ledger, wanted) == |s.ledger|
  {
    var i := FindGrant(s.ledger, wanted);
    if i < |s.ledger| {
      assert OwnerSound(s, i);
      assert IsOwned(s.ledger[i], key);
    }
  }

  lemma CloseKeepsContracts(s: State, key: Key, status: Status, at: int)
    requires ContractsSound(s) && IsClosed(status)
    ensures ContractsSound(Closed(s, key, status, at))
  {
    var r := Closed(s, key, status, at);
    if key in s.contracts {
      assert ContractSound(s, key);
      forall k | k in r.contracts ensures ContractSound(r, k) {
        assert ContractSound(s, k);
        var c := s.contracts[k];
        if k != key && c.entitlement.Some? {
          assert OwnerSound(s, c.entitlement.value);
        }
      }
      forall i | 0 <= i < |r.ledger| ensures OwnerSound(r, i) {
        assert OwnerSound(s, i);
      }
    }
  }

  lemma SellKeepsContracts(s: State, key: Key, c: Contract)
    requires ContractsSound(s) && Allowed(s, Sell(key, c))
    ensures ContractsSound(Step(s, Sell(key, c)))
  {
    var r := Step(s, Sell(key, c));
    forall k | k in r.contracts ensures ContractSound(r, k) {
      assert k != key ==> ContractSound(s, k);
    }
    forall i | 0 <= i < |r.ledger| ensures OwnerSound(r, i) {
      assert OwnerSound(s, i);
    }
  }

  lemma OfferKeepsContracts(s: State, offer: nat, isActive: bool)
    requires ContractsSound(s)
    ensures ContractsSound(Step(s, SetOffer(offer, isActive)))
  {
    var r := Step(s, SetOffer(offer, isActive));
    forall k | k in r.contracts ensures ContractSound(r, k) {
      assert ContractSound(s, k);
    }
    forall i | 0 <= i < |r.ledger| ensures OwnerSound(r, i) {
      assert OwnerSound(s, i);
    }
  }

  lemma StepKeepsContracts(s: State, action: Action)
    requires ContractsSound(s)
    ensures ContractsSound(Step(s, action))
  {
    if Allowed(s, action) {
      match action
      case SetOffer(offer, isActive) => OfferKeepsContracts(s, offer, isActive);
      case Sell(key, c) => SellKeepsContracts(s, key, c);
      case Activate(key) => ActivateKeepsContracts(s, key);
      case Close(key, status, at) => CloseKeepsContracts(s, key, status, at);
      case Plan(_, _, _, _, _) | Launch(_) => CampaignsApart(s, Step(s, action));
      case Enroll(_, _, _) | Grant(_) =>
        OtherRowsKeepContracts(s, Step(s, action).ledger);
      case CloseCampaign(pk, over, at) =>
        OtherRowsKeepContracts(s, Step(s, action).ledger);
        CampaignsApart(s.(ledger := Step(s, action).ledger), Step(s, action));
    }
  }

  lemma CampaignsApart(s: State, r: State)
    requires ContractsSound(s) && r.offers == s.offers && r.contracts == s.contracts && r.ledger == s.ledger
    ensures ContractsSound(r)
  {
    forall k | k in r.contracts ensures ContractSound(r, k) {
      assert ContractSound(s, k);
    }
    forall i | 0 <= i < |r.ledger| ensures OwnerSound(r, i) {
      assert OwnerSound(s, i);
    }
  }

  // ----- campaigns never give more than they fund -----

  ghost predicate SeatSound(s: State, i: nat)
    requires i < |s.ledger|
  {
    forall pk | IsSeat(s.ledger[i], pk) :: pk in s.campaigns && IsSeatOf(s.ledger[i], s.campaigns[pk])
  }

  /** A user's, under the campaign's terms, for exactly the campaign's window. */
  ghost predicate IsSeatOf(e: Entitlement, c: Campaign) {
    && e.holder.User? && e.terms == c.terms && e.startsAt == c.startsAt && e.endsAt == Some(c.endsAt)
  }

  /** Two open seats of a campaign are two users'. */
  ghost predicate Apart(ledger: Ledger, i: nat, j: nat)
    requires i < j < |ledger|
  {
    forall pk | IsOpenSeat(ledger[i], pk) && IsOpenSeat(ledger[j], pk) :: ledger[i].holder != ledger[j].holder
  }

  ghost predicate CampaignSound(s: State, pk: nat)
    requires pk in s.campaigns
  {
    && OpenSeats(s.ledger, pk) <= s.campaigns[pk].seats
    && (IsOver(s.campaigns[pk].status) ==> OpenSeats(s.ledger, pk) == 0)
  }

  ghost predicate CampaignsSound(s: State) {
    && (forall pk | pk in s.campaigns :: CampaignSound(s, pk))
    && (forall i | 0 <= i < |s.ledger| :: SeatSound(s, i))
    && (forall i, j | 0 <= i < j < |s.ledger| :: Apart(s.ledger, i, j))
  }

  lemma {:induction false} SameSeats(a: Ledger, b: Ledger, pk: nat)
    requires |a| == |b| && forall i | 0 <= i < |a| :: IsOpenSeat(a[i], pk) == IsOpenSeat(b[i], pk)
    ensures OpenSeats(a, pk) == OpenSeats(b, pk)
    decreases |a|
  {
    if a != [] {
      SameSeats(a[..|a| - 1], b[..|b| - 1], pk);
    }
  }

  lemma {:induction false} NoSeats(ledger: Ledger, pk: nat)
    requires forall i | 0 <= i < |ledger| :: !IsOpenSeat(ledger[i], pk)
    ensures OpenSeats(ledger, pk) == 0
  {
    if ledger != [] {
      NoSeats(ledger[..|ledger| - 1], pk);
    }
  }

  lemma AppendSeats(ledger: Ledger, e: Entitlement, pk: nat)
    ensures OpenSeats(ledger + [e], pk) == OpenSeats(ledger, pk) + (if IsOpenSeat(e, pk) then 1 else 0)
  {
    assert (ledger + [e])[..|ledger|] == ledger;
  }

  /** A change that opens no seat and keeps the rest of every row. */
  ghost predicate OnlyRevokes(before: Ledger, after: Ledger) {
    |after| == |before| && forall i | 0 <= i < |before| :: after[i] == before[i] || Revoked(before[i], after[i])
  }

  ghost predicate Revoked(before: Entitlement, after: Entitlement) {
    before.revokedAt.None? && after.revokedAt.Some? && after.(revokedAt := None) == before
  }

  lemma {:induction false} FewerSeats(before: Ledger, after: Ledger, pk: nat)
    requires OnlyRevokes(before, after)
    ensures OpenSeats(after, pk) <= OpenSeats(before, pk)
    decreases |before|
  {
    if before != [] {
      FewerSeats(before[..|before| - 1], after[..|after| - 1], pk);
    }
  }

  lemma RevokingKeepsCampaigns(s: State, r: State)
    requires CampaignsSound(s) && OnlyRevokes(s.ledger, r.ledger) && r.campaigns.Keys == s.campaigns.Keys
    requires forall pk | pk in s.campaigns ::
      && r.campaigns[pk] == s.campaigns[pk].(status := r.campaigns[pk].status)
      && (IsOver(r.campaigns[pk].status) ==> IsOver(s.campaigns[pk].status) || OpenSeats(r.ledger, pk) == 0)
    ensures CampaignsSound(r)
  {
    forall pk | pk in r.campaigns ensures CampaignSound(r, pk) {
      assert CampaignSound(s, pk);
      FewerSeats(s.ledger, r.ledger, pk);
    }
    forall i | 0 <= i < |r.ledger| ensures SeatSound(r, i) {
      assert SeatSound(s, i);
      assert r.ledger[i] == s.ledger[i].(revokedAt := r.ledger[i].revokedAt);
      assert forall pk | IsSeat(r.ledger[i], pk) :: IsSeat(s.ledger[i], pk);
    }
    forall i, j | 0 <= i < j < |r.ledger| ensures Apart(r.ledger, i, j) {
      assert Apart(s.ledger, i, j);
    }
  }

  /** A new row is either no seat, or a user's first open one of a running campaign with room left. */
  lemma AppendingKeepsCampaigns(s: State, e: Entitlement)
    requires CampaignsSound(s)
    requires forall pk | IsSeat(e, pk) ::
      && pk in s.campaigns && IsSeatOf(e, s.campaigns[pk])
      && !IsOver(s.campaigns[pk].status) && OpenSeats(s.ledger, pk) < s.campaigns[pk].seats
      && forall i | 0 <= i < |s.ledger| && IsOpenSeat(s.ledger[i], pk) :: s.ledger[i].holder != e.holder
    ensures CampaignsSound(s.(ledger := s.ledger + [e]))
  {
    var r := s.(ledger := s.ledger + [e]);
    forall pk | pk in r.campaigns ensures CampaignSound(r, pk) {
      assert CampaignSound(s, pk);
      AppendSeats(s.ledger, e, pk);
    }
    forall i | 0 <= i < |r.ledger| ensures SeatSound(r, i) {
      assert i < |s.ledger| ==> SeatSound(s, i);
    }
    forall i, j | 0 <= i < j < |r.ledger| ensures Apart(r.ledger, i, j) {
      assert j < |s.ledger| ==> Apart(s.ledger, i, j);
    }
  }

  lemma SameCampaigns(s: State, r: State)
    requires CampaignsSound(s) && r.campaigns == s.campaigns && r.ledger == s.ledger
    ensures CampaignsSound(r)
  {
    forall pk | pk in r.campaigns ensures CampaignSound(r, pk) {
      assert CampaignSound(s, pk);
    }
    forall i | 0 <= i < |r.ledger| ensures SeatSound(r, i) {
      assert SeatSound(s, i);
    }
  }

  lemma EnrollKeepsCampaigns(s: State, pk: nat, user: nat, at: int)
    requires CampaignsSound(s)
    ensures CampaignsSound(Enrolled(s, pk, user, at).0)
  {
    var r := Enrolled(s, pk, user, at).0;
    if r != s {
      var c := s.campaigns[pk];
      forall i | 0 <= i < |s.ledger| && IsOpenSeat(s.ledger[i], pk) ensures s.ledger[i].holder != User(user) {
        assert SeatSound(s, i);
      }
      AppendingKeepsCampaigns(s, Seat(pk, c, user));
    }
  }

  lemma PlanKeepsCampaigns(s: State, pk: nat, c: Campaign)
    requires CampaignsSound(s) && pk !in s.campaigns && c.status == Draft
    ensures CampaignsSound(s.(campaigns := s.campaigns[pk := c]))
  {
    var r := s.(campaigns := s.campaigns[pk := c]);
    forall i | 0 <= i < |s.ledger| ensures !IsSeat(s.ledger[i], pk) && SeatSound(r, i) {
      assert SeatSound(s, i);
    }
    NoSeats(s.ledger, pk);
    forall p | p in r.campaigns ensures CampaignSound(r, p) {
      assert p != pk ==> CampaignSound(s, p);
    }
  }

  lemma CampaignClosedHasNoSeat(s: State, pk: nat, at: int)
    ensures OpenSeats(RevokeSeats(s.ledger, pk, at), pk) == 0
    ensures OnlyRevokes(s.ledger, RevokeSeats(s.ledger, pk, at))
  {
    NoSeats(RevokeSeats(s.ledger, pk, at), pk);
  }

  lemma ActivateKeepsCampaigns(s: State, key: Key)
    requires CampaignsSound(s)
    ensures CampaignsSound(Activated(s, key).0)
  {
    var r := Activated(s, key).0;
    if r.ledger != s.ledger {
      AppendingKeepsCampaigns(s, r.ledger[|s.ledger|]);
      SameCampaigns(s.(ledger := r.ledger), r);
    } else {
      SameCampaigns(s, r);
    }
  }

  lemma CloseCampaignKeepsCampaigns(s: State, pk: nat, over: CampaignStatus, at: int)
    requires CampaignsSound(s)
    ensures CampaignsSound(CampaignClosed(s, pk, over, at))
  {
    if pk in s.campaigns {
      CampaignClosedHasNoSeat(s, pk, at);
      RevokingKeepsCampaigns(s, CampaignClosed(s, pk, over, at));
    }
  }

  lemma StepKeepsCampaigns(s: State, action: Action)
    requires CampaignsSound(s)
    ensures CampaignsSound(Step(s, action))
  {
    if Allowed(s, action) {
      var r := Step(s, action);
      match action
      case SetOffer(_, _) | Sell(_, _) => SameCampaigns(s, r);
      case Activate(key) => ActivateKeepsCampaigns(s, key);
      case Close(_, _, _) => RevokingKeepsCampaigns(s, r);
      case Plan(pk, seats, terms, startsAt, endsAt) =>
          PlanKeepsCampaigns(s, pk, Campaign(seats, terms, startsAt, endsAt, Draft));
      case Launch(_) => RevokingKeepsCampaigns(s, r);
      case Enroll(pk, user, at) => EnrollKeepsCampaigns(s, pk, user, at);
      case CloseCampaign(pk, over, at) => CloseCampaignKeepsCampaigns(s, pk, over, at);
      case Grant(e) => AppendingKeepsCampaigns(s, e);
    }
  }

  // ----- the ledger is append-only and revocations are final -----

  /** Rows are never removed nor edited, and the first revocation date stays. */
  ghost predicate Extends(before: Ledger, after: Ledger) {
    && |before| <= |after|
    && forall i | 0 <= i < |before| ::
         && after[i].(revokedAt := None) == before[i].(revokedAt := None)
         && (before[i].revokedAt.Some? ==> after[i].revokedAt == before[i].revokedAt)
  }

  lemma StepExtends(s: State, action: Action)
    ensures Extends(s.ledger, Step(s, action).ledger)
  {
  }

  lemma {:induction false} RunExtends(s: State, actions: seq<Action>)
    ensures Extends(s.ledger, Run(s, actions).ledger)
    decreases |actions|
  {
    if actions != [] {
      RunExtends(s, actions[..|actions| - 1]);
      StepExtends(Run(s, actions[..|actions| - 1]), actions[|actions| - 1]);
    }
  }

  /** A shop that has sold nothing yet. */
  ghost predicate IsNew(s: State) {
    s.contracts.Keys == {} && s.campaigns.Keys == {} && s.ledger == []
  }

  /** In every run both invariants hold. */
  lemma {:induction false} LedgerAlwaysSound(s: State, actions: seq<Action>)
    requires IsNew(s)
    ensures ContractsSound(Run(s, actions)) && CampaignsSound(Run(s, actions))
    decreases |actions|
  {
    if actions != [] {
      var before := Run(s, actions[..|actions| - 1]);
      LedgerAlwaysSound(s, actions[..|actions| - 1]);
      StepKeepsContracts(before, actions[|actions| - 1]);
      StepKeepsCampaigns(before, actions[|actions| - 1]);
    }
  }

  /** The entitlement is the contract's: its holder's, for exactly its window. */
  ghost predicate GivesContract(e: Entitlement, key: Key, c: Contract) {
    && e.holder == c.holder && e.startsAt == c.startsAt && e.endsAt == Some(c.endsAt)
    && e.source == (match c.holder case User(_) => IndividualSubscription case Organization(_) => OrganizationQuota)
    && e.note == ContractNote(key)
  }

  /** Each refusal of an activation has its own cause, in this order. */
  lemma ActivationRefusedIff(s: State, key: Key)
    ensures var known := key in s.contracts && s.contracts[key].offer in s.offers;
            var result := Activated(s, key).1;
            && (result == Err(NotFound) <==> !known)
            && (result == Err(CannotActivate) <==>
                  known && s.contracts[key].status in {Suspended, Expired, Status.Cancelled})
            && (result == Err(OfferInactive) <==>
                  known && s.contracts[key].status in {Waiting, Running} && !s.offers[s.contracts[key].offer].isActive)
            && (result == Err(WindowMismatch) <==>
                  && known && s.contracts[key].status in {Waiting, Running}
                  && s.offers[s.contracts[key].offer].isActive && key.kind == SubscriptionKind
                  && s.contracts[key].endsAt - s.contracts[key].startsAt
                     != s.offers[s.contracts[key].offer].durationDays * 86_400_000_000)
            && (result.Err? ==> result.error in {NotFound, CannotActivate, OfferInactive, WindowMismatch})
  {
    if key in s.contracts && s.contracts[key].offer in s.offers {
      var c := s.contracts[key];
      assert c.status.Waiting? || c.status.Running? || c.status.Suspended? || c.status.Expired? || c.status.Cancelled?;
      assert s.offers[c.offer].durationDays * DAY == s.offers[c.offer].durationDays * 86_400_000_000;
    }
  }

  /** And each refusal of an enrolment. */
  lemma EnrolmentRefusedIff(s: State, pk: nat, user: nat, at: int)
    requires CampaignsSound(s)
    ensures var result := Enrolled(s, pk, user, at).1;
            && (result == Err(NotFound) <==> pk !in s.campaigns)
            && (result == Err(CampaignInactive) <==> pk in s.campaigns && s.campaigns[pk].status != Active)
            && (result == Err(OutsideWindow) <==>
                  && pk in s.campaigns && s.campaigns[pk].status == Active
                  && !(s.campaigns[pk].startsAt <= at < s.campaigns[pk].endsAt))
            && (result == Err(CapacityExhausted) <==>
                  && pk in s.campaigns && s.campaigns[pk].status == Active
                  && s.campaigns[pk].startsAt <= at < s.campaigns[pk].endsAt
                  && OpenSeats(s.ledger, pk) >= s.campaigns[pk].seats && !HasSeat(s.ledger, pk, user))
            && (result.Err? ==>
                  result.error in {NotFound, CampaignInactive, OutsideWindow, CapacityExhausted})
  {
    if pk in s.campaigns {
      SeatsHaveTerms(s, pk, user);
    }
  }

  /** A campaign's seats, terms and window are fixed, it is launched once, and once over it stays over. */
  lemma {:induction false} CampaignIsFixed(s: State, actions: seq<Action>, pk: nat)
    requires pk in s.campaigns
    ensures pk in Run(s, actions).campaigns
    ensures var before, after := s.campaigns[pk], Run(s, actions).campaigns[pk];
            && after.seats == before.seats && after.terms == before.terms
            && after.startsAt == before.startsAt && after.endsAt == before.endsAt
            && (before.status in {Ended, Dropped} ==> after.status in {Ended, Dropped})
            && (before.status == Active ==> after.status != CampaignStatus.Draft)
    decreases |actions|
  {
    if actions != [] {
      CampaignIsFixed(s, actions[..|actions| - 1], pk);
      CampaignStep(Run(s, actions[..|actions| - 1]), actions[|actions| - 1], pk);
    }
  }

  lemma CampaignStep(s: State, action: Action, pk: nat)
    requires pk in s.campaigns
    ensures pk in Step(s, action).campaigns
    ensures var before, after := s.campaigns[pk], Step(s, action).campaigns[pk];
            && after == before.(status := after.status)
            && (after.status == before.status || after.status in {Ended, Dropped}
                || (before.status == CampaignStatus.Draft && after.status == Active))
            && (before.status in {Ended, Dropped} ==> after.status in {Ended, Dropped})
  {
  }

  /** Closing a contract, or a campaign, sets its status, revokes what it gave, and nothing else. */
  lemma ClosingRevokes(s: State, key: Key, status: Status, pk: nat, over: CampaignStatus, at: int)
    ensures key in s.contracts ==>
              var r := Closed(s, key, status, at);
              && r.contracts == s.contracts[key := s.contracts[key].(status := status)]
              && r.offers == s.offers && r.campaigns == s.campaigns && |r.ledger| == |s.ledger|
              && forall i | 0 <= i < |s.ledger| ::
                   r.ledger[i] == if s.contracts[key].entitlement == Some(i) && s.ledger[i].revokedAt == None
                                  then s.ledger[i].(revokedAt := Some(at)) else s.ledger[i]
    ensures pk in s.campaigns ==>
              var r := CampaignClosed(s, pk, over, at);
              && r.campaigns == s.campaigns[pk := s.campaigns[pk].(status := over)]
              && r.offers == s.offers && r.contracts == s.contracts && |r.ledger| == |s.ledger|
              && forall i | 0 <= i < |s.ledger| ::
                   var e := s.ledger[i];
                   r.ledger[i] == if e.source == SponsoredCampaign && e.note == CampaignNote(pk) && e.revokedAt == None
                                  then e.(revokedAt := Some(at)) else e
  {
  }

  /**
   Activating succeeds exactly when no guard refuses; it returns an open entitlement with the
   offer's terms and the contract's window, the only one billing ever gave for the contract, and
   activating again, straight away, returns the same and changes nothing.
   */
  lemma ActivationGivesTheOne(s: State, key: Key)
    requires ContractsSound(s)
    ensures var (r, result) := Activated(s, key);
            && (result.Ok? <==> ActivationError(s, key).None?)
            && (result.Err? ==> r == s)
            && (result.Ok? ==>
                  var i := result.value;
                  && i < |r.ledger| && GivesContract(r.ledger[i], key, s.contracts[key])
                  && r.ledger[i].terms == s.offers[s.contracts[key].offer].terms
                  && r.ledger[i].revokedAt == None
                  && r.contracts == s.contracts[key := s.contracts[key].(status := Running, entitlement := Some(i))]
                  && r.offers == s.offers && r.campaigns == s.campaigns
                  && (forall j | 0 <= j < |r.ledger| :: IsOwned(r.ledger[j], key) <==> j == i)
                  && Activated(r, key) == (r, result))
  {
    ActivateKeepsContracts(s, key);
    var (r, result) := Activated(s, key);
    if result.Ok? {
      assert ContractSound(s, key) && ContractSound(r, key);
      assert r == s ==> s.contracts == s.contracts[key := s.contracts[key]];
      forall j | 0 <= j < |r.ledger| ensures IsOwned(r.ledger[j], key) <==> j == result.value {
        assert OwnerSound(r, j);
      }
    }
  }

  /** As long as it is not closed, an activated contract gives the same entitlement; once closed, never any again. */
  lemma {:induction false} EntitlementIsStable(s: State, key: Key, actions: seq<Action>)
    requires ContractsSound(s) && key in s.contracts
    ensures ContractsSound(Run(s, actions)) && key in Run(s, actions).contracts
    ensures s.contracts[key].entitlement.Some? ==>
        Run(s, actions).contracts[key].entitlement == s.contracts[key].entitlement
    ensures IsClosed(s.contracts[key].status) ==>
              && IsClosed(Run(s, actions).contracts[key].status)
              && Run(s, actions).contracts[key].entitlement == s.contracts[key].entitlement
              && Activated(Run(s, actions), key).1.Err?
    decreases |actions|
  {
    if actions != [] {
      var before := Run(s, actions[..|actions| - 1]);
      EntitlementIsStable(s, key, actions[..|actions| - 1]);
      StepKeepsContracts(before, actions[|actions| - 1]);
      OneContract(before, key, actions[|actions| - 1]);
    }
  }

  lemma OneContract(s: State, key: Key, action: Action)
    requires ContractsSound(s) && key in s.contracts
    ensures key in Step(s, action).contracts
    ensures s.contracts[key].entitlement.Some? || IsClosed(s.contracts[key].status) ==>
              Step(s, action).contracts[key].entitlement == s.contracts[key].entitlement
    ensures IsClosed(s.contracts[key].status) ==> IsClosed(Step(s, action).contracts[key].status)
  {
  }

  /** Closing revokes for good: the entitlement keeps its first revocation date through every later run. */
  lemma ClosingIsFinal(s: State, key: Key, status: Status, at: int, later: seq<Action>)
    requires ContractsSound(s) && key in s.contracts && IsClosed(status)
    ensures var closed := Closed(s, key, status, at);
            var r := Run(closed, later);
            && closed.contracts[key].entitlement == s.contracts[key].entitlement
            && (s.contracts[key].entitlement.Some? ==>
                  var i := s.contracts[key].entitlement.value;
                  && i < |s.ledger| && i < |r.ledger|
                  && r.ledger[i].revokedAt == if s.ledger[i].revokedAt.Some? then s.ledger[i].revokedAt else Some(at))
  {
    assert ContractSound(s, key);
    RunExtends(Closed(s, key, status, at), later);
  }

  /** Over every run, a campaign has at most as many open seats as it funds, one a user, and none once it is over. */
  lemma CampaignSeats(s: State, actions: seq<Action>, pk: nat)
    requires IsNew(s) && pk in Run(s, actions).campaigns
    ensures var r := Run(s, actions);
            && OpenSeats(r.ledger, pk) <= r.campaigns[pk].seats
            && (IsOver(r.campaigns[pk].status) ==> OpenSeats(r.ledger, pk) == 0)
            && forall i, j | 0 <= i < j < |r.ledger| && IsOpenSeat(r.ledger[i], pk) && IsOpenSeat(r.ledger[j], pk) ::
                 r.ledger[i].holder.User? && r.ledger[i].holder != r.ledger[j].holder
  {
    LedgerAlwaysSound(s, actions);
    var r := Run(s, actions);
    assert CampaignSound(r, pk);
    forall i, j | 0 <= i < j < |r.ledger| && IsOpenSeat(r.ledger[i], pk) && IsOpenSeat(r.ledger[j], pk)
      ensures r.ledger[i].holder.User? && r.ledger[i].holder != r.ledger[j].holder
    {
      assert SeatSound(r, i) && Apart(r.ledger, i, j);
    }
  }

  /** Looking for a user's seat under the campaign's terms finds any open seat of that user. */
  lemma SeatsHaveTerms(s: State, pk: nat, user: nat)
    requires CampaignsSound(s) && pk in s.campaigns
    ensures FindSeat(s.ledger, pk, user, s.campaigns[pk].terms) < |s.ledger| <==> HasSeat(s.ledger, pk, user)
  {
    forall i | 0 <= i < |s.ledger| && IsOpenSeat(s.ledger[i], pk) ensures s.ledger[i].terms == s.campaigns[pk].terms {
      assert SeatSound(s, i);
    }
  }

  lemma NewSeatIsFound(ledger: Ledger, pk: nat, c: Campaign, user: nat)
    requires FindSeat(ledger, pk, user, c.terms) == |ledger|
    ensures FindSeat(ledger + [Seat(pk, c, user)], pk, user, c.terms) == |ledger|
  {
    var after := ledger + [Seat(pk, c, user)];
    assert after[|ledger|] == Seat(pk, c, user);
    assert forall i | 0 <= i < |ledger| :: after[i] == ledger[i];
  }

  /** Enrolling succeeds exactly when the user has a seat already or the running campaign has room. */
  lemma EnrolmentIffRoom(s: State, pk: nat, user: nat, at: int)
    requires CampaignsSound(s)
    ensures var (r, result) := Enrolled(s, pk, user, at);
            && (result.Ok? <==>
                  && pk in s.campaigns && s.campaigns[pk].status == Active
                  && s.campaigns[pk].startsAt <= at < s.campaigns[pk].endsAt
                  && (OpenSeats(s.ledger, pk) < s.campaigns[pk].seats || HasSeat(s.ledger, pk, user)))
            && (result.Ok? ==>
                  && result.value < |r.ledger| && r.ledger[result.value].source == SponsoredCampaign
                  && r.ledger[result.value].note == CampaignNote(pk) && r.ledger[result.value].revokedAt == None
                  && r.ledger[result.value].holder == User(user)
                  && IsSeatOf(r.ledger[result.value], s.campaigns[pk])
                  && (r != s ==> r == s.(ledger := s.ledger + [r.ledger[|s.ledger|]]))
                  && Enrolled(r, pk, user, at) == (r, result))
            && (result.Err? || HasSeat(s.ledger, pk, user) ==> r == s)
  {
    var (r, result) := Enrolled(s, pk, user, at);
    if pk in s.campaigns {
      SeatsHaveTerms(s, pk, user);
    }
    if result.Ok? && r != s {
      NewSeatIsFound(s.ledger, pk, s.campaigns[pk], user);
    }
    if result.Ok? && r == s {
      assert SeatSound(s, result.value);
    }
  }

  ghost predicate HasSeat(ledger: Ledger, pk: nat, user: nat) {
    exists i :: 0 <= i < |ledger| && IsOpenSeat(ledger[i], pk) && ledger[i].holder == User(user)
  }

  // ----- the service -----

  class BillingService {
    var offers: map<nat, Offer>
    var contracts: map<Key, Contract>
    var campaigns: map<nat, Campaign>
    var entitlements: Ledger

    function Abstract(): State
      reads this
    {
      State(offers, contracts, campaigns, entitlements)
    }

    constructor (offers: map<nat, Offer>)
      ensures IsNew(Abstract()) && Abstract().offers == offers
    {
      this.offers, contracts, campaigns, entitlements := offers, map[], map[], [];
    }

    method GetOrCreate(wanted: Entitlement) returns (i: nat)
      requires wanted.revokedAt.None?
      modifies this`entitlements
      ensures i == FindGrant(old(entitlements), wanted)
      ensures entitlements == if i < |old(entitlements)| then old(entitlements) else old(entitlements) + [wanted]
    {
      i := FindGrant(entitlements, wanted);
      if i == |entitlements| {
        entitlements := entitlements + [wanted];
      }
    }

    method RevokeEntitlement(entitlement: Option<nat>, at: int)
      requires entitlement.Some? ==> entitlement.value < |entitlements|
      modifies this`entitlements
      ensures entitlements == if entitlement.Some? then RevokeAt(old(entitlements), entitlement.value, at)
          else old(entitlements)
    {
      if entitlement.None? || entitlements[entitlement.value].revokedAt.Some? {
        return;
      }
      var i := entitlement.value;
      entitlements := entitlements[i := entitlements[i].(revokedAt := Some(at))];
    }

    method ActivateSubscription(pk: nat) returns (result: Result<nat, BillingError>)
      modifies this
      ensures (Abstract(), result) == Activated(old(Abstract()), Key(SubscriptionKind, pk))
    {
      var key := Key(SubscriptionKind, pk);
      if key !in contracts || contracts[key].offer !in offers {
        return Err(NotFound);
      }
      var subscription := contracts[key];
      var offer := offers[subscription.offer];
      if IsClosed(subscription.status) {
        return Err(CannotActivate);
      }
      if !offer.isActive {
        return Err(OfferInactive);
      }
      if subscription.endsAt != subscription.startsAt + offer.durationDays * DAY {
        return Err(WindowMismatch);
      }
      if subscription.entitlement.Some? {
        return Ok(subscription.entitlement.value);
      }
      var source := if subscription.holder.User? then IndividualSubscription else OrganizationQuota;
      var entitlement := GetOrCreate(Entitlement(
        subscription.holder, source, offer.terms, subscription.startsAt, Some(subscription.endsAt), ContractNote(key),
            None));
      contracts := contracts[key := subscription.(status := Running, entitlement := Some(entitlement))];
      return Ok(entitlement);
    }

    method ActivateOrganizationQuota(pk: nat) returns (result: Result<nat, BillingError>)
      requires Key(QuotaKind, pk) in contracts ==> contracts[Key(QuotaKind, pk)].holder.Organization?
      modifies this
      ensures (Abstract(), result) == Activated(old(Abstract()), Key(QuotaKind, pk))
    {
      var key := Key(QuotaKind, pk);
      if key !in contracts || contracts[key].offer !in offers {
        return Err(NotFound);
      }
      var quota := contracts[key];
      var offer := offers[quota.offer];
      if IsClosed(quota.status) {
        return Err(CannotActivate);
      }
      if !offer.isActive {
        return Err(OfferInactive);
      }
      if quota.entitlement.Some? {
        return Ok(quota.entitlement.value);
      }
      var entitlement := GetOrCreate(Entitlement(
        quota.holder, OrganizationQuota, offer.terms, quota.startsAt, Some(quota.endsAt), ContractNote(key), None));
      contracts := contracts[key := quota.(status := Running, entitlement := Some(entitlement))];
      return Ok(entitlement);
    }

    /** Cancelling or expiring a subscription; suspending, cancelling or expiring a quota. */
    method CloseContract(key: Key, status: Status, at: int) returns (found: bool)
      requires IsClosed(status)
      requires key in contracts && contracts[key].entitlement.Some? ==>
          contracts[key].entitlement.value < |entitlements|
      modifies this
      ensures found == (key in old(contracts))
      ensures Abstract() == Closed(old(Abstract()), key, status, at)
    {
      found := key in contracts;
      if !found {
        return;
      }
      var contract := contracts[key];
      RevokeEntitlement(contract.entitlement, at);
      contracts := contracts[key := contract.(status := status)];
    }

    method EnrollUser(pk: nat, user: nat, at: int) returns (result: Result<nat, BillingError>)
      modifies this
      ensures (Abstract(), result) == Enrolled(old(Abstract()), pk, user, at)
    {
      if pk !in campaigns {
        return Err(NotFound);
      }
      var campaign := campaigns[pk];
      if campaign.status != Active {
        return Err(CampaignInactive);
      }
      if campaign.startsAt > at || campaign.endsAt <= at {
        return Err(OutsideWindow);
      }
      var existing := FindSeat(entitlements, pk, user, campaign.terms);
      if existing < |entitlements| {
        return Ok(existing);
      }
      var enrolled := OpenSeats(entitlements, pk);
      if enrolled >= campaign.seats {
        return Err(CapacityExhausted);
      }
      var i := |entitlements|;
      entitlements := entitlements + [Seat(pk, campaign, user)];
      return Ok(i);
    }

    method CloseSponsoredCampaign(pk: nat, status: CampaignStatus, at: int) returns (found: bool)
      requires IsOver(status)
      modifies this
      ensures found == (pk in old(campaigns))
      ensures Abstract() == CampaignClosed(old(Abstract()), pk, status, at)
    {
      found := pk in campaigns;
      if !found {
        return;
      }
      var campaign := campaigns[pk];
      entitlements := RevokeSeats(entitlements, pk, at);
      campaigns := campaigns[pk := campaign.(status := status)];
    }
  }
}
