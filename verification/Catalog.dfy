/** What a document must carry to be deposited, and what more to be published. */
module Catalog {
  import opened Prelude

  datatype PublicationStatus = Draft | Submitted | Published | Withdrawn | Archived | Rejected

  datatype AuthorRole = MainAuthor | Coauthor | Supervisor | Editor | InstitutionalContributor

  datatype AuthorizationStatus = RightsDraft | PendingReview | RightsApproved | RightsRejected | Revoked

  /** A column may also hold a text outside the declared choices. */
  datatype CategoryValue =
    | VoluntaryTeacherDeposit | InstitutionalFund | StudentWork | OpenResource | CommercialPartnerContent
    | OtherCategory(text: string)

  datatype AccessValue = Free | Subscription | InstitutionOnly | Sponsored | Restricted | Private
      | OtherAccess(text: string)

  datatype Rights = Rights(
    holderName: string,
    authorization: AuthorizationStatus,
    authorizationDate: Option<int>,
    accessModel: AccessValue,
    withdrawalRule: string,
    consentReference: string,
    reviewerDecision: string,
    rejectionReason: string,
    auditReference: string,
    validFrom: Option<int>,
    validUntil: Option<int>)

  /** An author of a document, with the account linked to that author, if any. */
  datatype Authorship = Authorship(role: AuthorRole, linkedUser: Option<nat>)

  /** Everything a document's file says: its metadata, its authors, its rights. */
  datatype File = File(
    title: string,
    domain: Option<nat>,
    documentType: Option<nat>,
    category: CategoryValue,
    accessModel: AccessValue,
    authors: seq<Authorship>,
    rights: Option<Rights>)

  datatype Document = Document(file: File, status: PublicationStatus, publishedAt: Option<int>,
      withdrawnAt: Option<int>)

  datatype Requirement =
    | Title | AcademicDomain | DocumentType | Category | AccessModel | Author
    | RightsAgreement | RightsHolder | WithdrawalRule | AccessModelMismatch | StudentConsent | RightsNotApproved

  predicate HasWriter(authors: seq<Authorship>) {
    exists a | a in authors :: a.role in {MainAuthor, Coauthor}
  }

  predicate AuthoredBy(d: File, user: nat) {
    exists a | a in d.authors :: a.linkedUser == Some(user)
  }

  predicate ValidForPublication(d: File, r: Rights, today: int) {
    && r.authorization == RightsApproved
    && !r.accessModel.OtherAccess?
    && r.holderName != "" && r.authorizationDate.Some?
    && r.withdrawalRule != "" && r.reviewerDecision != "" && r.auditReference != ""
    && r.accessModel == d.accessModel
    && (r.validFrom.Some? ==> r.validFrom.value <= today)
    && (r.validUntil.Some? ==> today <= r.validUntil.value)
  }

  /** The document falls short of one requirement; the declaration's own are only looked at when there is one. */
  predicate Lacks(d: File, today: int, code: Requirement) {
    match code
    case Title => d.title == ""
    case AcademicDomain => d.domain.None?
    case DocumentType => d.documentType.None?
    case Category => d.category.OtherCategory?
    case AccessModel => d.accessModel.OtherAccess?
    case Author => !HasWriter(d.authors)
    case RightsAgreement => d.rights.None?
    case RightsHolder => d.rights.Some? && d.rights.value.holderName == ""
    case WithdrawalRule => d.rights.Some? && d.rights.value.withdrawalRule == ""
    case AccessModelMismatch => d.rights.Some? && d.rights.value.accessModel != d.accessModel
    case StudentConsent => d.rights.Some? && d.category == StudentWork && d.rights.value.consentReference == ""
    case RightsNotApproved => d.rights.Some? && !ValidForPublication(d, d.rights.value, today)
  }

  function Lacking(d: File, today: int, codes: seq<Requirement>): seq<Requirement> {
    if codes == [] then []
    else (if Lacks(d, today, codes[0]) then [codes[0]] else []) + Lacking(d, today, codes[1..])
  }

  /** The requirements in the order they are checked: metadata, then the rights declaration. */
  const DEPOSIT: seq<Requirement> :=
    [Title, AcademicDomain, DocumentType, Category, AccessModel, Author,
     RightsAgreement, RightsHolder, WithdrawalRule, AccessModelMismatch, StudentConsent]

  /** What is missing to submit the document for review; no requirement of a deposit looks at the date. */
  function MissingDeposit(d: File): seq<Requirement> {
    Lacking(d, 0, DEPOSIT)
  }

  /** What is missing to publish it: the declaration, then its approval. */
  function MissingPublication(d: File, today: int): seq<Requirement> {
    MissingDeposit(d) + Lacking(d, today, [RightsNotApproved])
  }

  /** The list names exactly the requirements that are not met. */
  lemma {:induction false} LackingLists(d: File, today: int, codes: seq<Requirement>)
    ensures forall code :: code in Lacking(d, today, codes) <==> code in codes && Lacks(d, today, code)
  {
    if codes != [] {
      LackingLists(d, today, codes[1..]);
      assert codes == [codes[0]] + codes[1..];
    }
  }

  lemma NothingLacking(d: File, today: int, codes: seq<Requirement>)
    ensures Lacking(d, today, codes) == [] <==> forall code | code in codes :: !Lacks(d, today, code)
  {
    LackingLists(d, today, codes);
    if Lacking(d, today, codes) != [] {
      assert Lacking(d, today, codes)[0] in Lacking(d, today, codes);
    }
  }

  /** What each name in the list of missing requirements stands for: the document's own columns. */
  lemma MissingNames(d: File, today: int)
    ensures var missing := MissingPublication(d, today);
            && (Title in missing <==> d.title == "")
            && (AcademicDomain in missing <==> d.domain.None?)
            && (DocumentType in missing <==> d.documentType.None?)
            && (Category in missing <==> d.category.OtherCategory?)
            && (AccessModel in missing <==> d.accessModel.OtherAccess?)
            && (Author in missing <==> forall a | a in d.authors :: a.role != MainAuthor && a.role != Coauthor)
  {
    forall code ensures code in MissingPublication(d, today) <==> Lacks(d, today, code) {
      MissingIffLacks(d, today, code);
    }
  }

  /** And those of its rights. */
  lemma MissingRights(d: File, today: int)
    ensures var missing := MissingPublication(d, today);
            && (RightsAgreement in missing <==> d.rights.None?)
            && (RightsHolder in missing <==> d.rights.Some? && d.rights.value.holderName == "")
            && (WithdrawalRule in missing <==> d.rights.Some? && d.rights.value.withdrawalRule == "")
            && (AccessModelMismatch in missing <==> d.rights.Some? && d.rights.value.accessModel != d.accessModel)
            && (StudentConsent in missing <==>
                  d.rights.Some? && d.category == StudentWork && d.rights.value.consentReference == "")
            && (RightsNotApproved in missing <==> d.rights.Some? && !InForce(d.rights.value, d.accessModel, today))
  {
    forall code ensures code in MissingPublication(d, today) <==> Lacks(d, today, code) {
      MissingIffLacks(d, today, code);
    }
  }

  lemma MissingIffLacks(d: File, today: int, code: Requirement)
    ensures code in MissingDeposit(d) <==> code != RightsNotApproved && Lacks(d, today, code)
    ensures code in MissingPublication(d, today) <==> Lacks(d, today, code)
  {
    LackingLists(d, 0, DEPOSIT);
    LackingLists(d, today, [RightsNotApproved]);
    AllListed();
  }

  /** Approved on a date, by a named decision with its reference, for this access model, and valid on the day. */
  ghost predicate InForce(r: Rights, accessModel: AccessValue, today: int) {
    && r.authorization == RightsApproved && r.authorizationDate.Some?
    && r.reviewerDecision != "" && r.auditReference != "" && r.holderName != "" && r.withdrawalRule != ""
    && r.accessModel == accessModel && !r.accessModel.OtherAccess?
    && (r.validFrom == None || r.validFrom.value <= today) && (r.validUntil == None || r.validUntil.value >= today)
  }

  /** A document may go public exactly when its file is complete and its rights are in force. */
  ghost predicate Publishable(d: File, today: int) {
    && d.title != "" && d.domain.Some? && d.documentType.Some? && !d.category.OtherCategory?
    && (exists a | a in d.authors :: a.role == MainAuthor || a.role == Coauthor)
    && d.rights.Some? && InForce(d.rights.value, d.accessModel, today)
    && (d.category == StudentWork ==> d.rights.value.consentReference != "")
  }

  lemma NothingMissingIffPublishable(d: File, today: int)
    ensures MissingPublication(d, today) == [] <==> Publishable(d, today)
  {
    NothingLacking(d, 0, DEPOSIT);
    NothingLacking(d, today, [RightsNotApproved]);
    assert RightsNotApproved in [RightsNotApproved];
    AllListed();
    var lack := FirstLack(d);
    if lack.Some? {
      assert lack.value in DEPOSIT && Lacks(d, 0, lack.value);
    }
  }

  /** Some deposit requirement that is not met, if there is one. */
  function FirstLack(d: File): (lack: Option<Requirement>)
    ensures lack.Some? ==> Lacks(d, 0, lack.value) && lack.value != RightsNotApproved
    ensures lack.None? ==> forall code: Requirement | code != RightsNotApproved :: !Lacks(d, 0, code)
  {
    if Lacks(d, 0, Title) then Some(Title)
    else if Lacks(d, 0, AcademicDomain) then Some(AcademicDomain)
    else if Lacks(d, 0, DocumentType) then Some(DocumentType)
    else if Lacks(d, 0, Category) then Some(Category)
    else if Lacks(d, 0, AccessModel) then Some(AccessModel)
    else if Lacks(d, 0, Author) then Some(Author)
    else if Lacks(d, 0, RightsAgreement) then Some(RightsAgreement)
    else if Lacks(d, 0, RightsHolder) then Some(RightsHolder)
    else if Lacks(d, 0, WithdrawalRule) then Some(WithdrawalRule)
    else if Lacks(d, 0, AccessModelMismatch) then Some(AccessModelMismatch)
    else if Lacks(d, 0, StudentConsent) then Some(StudentConsent)
    else None
  }

  lemma AllListed()
    ensures forall code: Requirement :: code in DEPOSIT <==> code != RightsNotApproved
  {
    assert DEPOSIT[0] == Title && DEPOSIT[1] == AcademicDomain && DEPOSIT[2] == DocumentType && DEPOSIT[3] == Category
        && DEPOSIT[4] == AccessModel && DEPOSIT[5] == Author && DEPOSIT[6] == RightsAgreement &&
             DEPOSIT[7] == RightsHolder
        && DEPOSIT[8] == WithdrawalRule && DEPOSIT[9] == AccessModelMismatch && DEPOSIT[10] == StudentConsent;
  }
}
