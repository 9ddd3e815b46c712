/**
 Certification decisions and the guards of certificate issue:
 `backend/services/certification_decisions.py` and `issue_certificate_for_company` in
 `backend/auth/certificate_router.py`.

 There is one step per statement at which another request can run: a finalizer checks
 and later writes with a compare-and-set, an issuer lists the dossiers, checks them one by
 one, and inserts last.  A step whose guard fails changes nothing.
 */
module CertificationDecisions {
  import opened Common
  import opened Strings

  type Id = nat

  datatype Status = PendingReview | Approved | Rejected | Cancelled

  datatype Decision = Decision(
    submission: Id, provider: Id, status: Status, createdAt: int,
    decidedAt: Option<int>, maker: Option<Id>, reason: string)

  datatype DossierStatus = DossierApproved | DossierRejected | DossierOpen

  datatype Submission = Submission(business: Id, provider: Id, status: DossierStatus, auditor: Option<Id>)

  /** A finalizer between its checks and its write. */
  datatype Finalizer = Finalizer(decision: Id, provider: Id, verdict: Status, maker: Id, reason: string)

  /** An issuer between listing the dossiers and inserting the certificate. */
  datatype Issuer = Issuer(business: Id, provider: Id, listed: set<Id>, unchecked: set<Id>)

  /** `basis` records the dossiers the issuing request listed. */
  datatype Certificate = Certificate(business: Id, issuedBy: Id, submission: Id, basis: set<Id>)

  datatype State = State(
    decisions: map<Id, Decision>,
    submissions: map<Id, Submission>,
    finalizers: map<Id, Finalizer>,
    issuers: map<Id, Issuer>,
    certificates: map<Id, Certificate>)

  datatype Step =
      // `permitted` stands for the reviewer, visit and conflict-of-interest checks
    | Create(id: Id, submission: Id, provider: Id, now: int, permitted: bool)
    | CheckFinalize(session: Id, decision: Id, provider: Id, verdict: Status, maker: Id, reason: string, permitted: bool)
    | WriteFinalize(session: Id, now: int)
    | FileSubmission(id: Id, business: Id, provider: Id)
      // other routes move a dossier and assign auditors
    | ChangeSubmission(id: Id, status: DossierStatus, auditor: Option<Id>)
    | ListDossiers(session: Id, business: Id, provider: Id)
    | CheckDossier(session: Id, submission: Id)
    | InsertCertificate(session: Id, id: Id, submission: Id)

  // ---------------------------------------------------------------- queries

  predicate Undecided(s: Status) {
    s.PendingReview? || s.Approved?
  }

  /** `ORDER BY created_at DESC, decided_at DESC NULLS LAST, id DESC`: x comes before y. */
  predicate Newer(x: Decision, xid: Id, y: Decision, yid: Id) {
    || x.createdAt > y.createdAt
    || (x.createdAt == y.createdAt
        && (|| (x.decidedAt.Some? && (y.decidedAt.None? || x.decidedAt.value > y.decidedAt.value))
            || (x.decidedAt == y.decidedAt && xid > yid)))
  }

  /** The rows the latest-decision query ranges over. */
  function Candidates(ds: map<Id, Decision>, submission: Id, provider: Id): set<Id> {
    set d | d in ds && ds[d].submission == submission && ds[d].provider == provider && !ds[d].status.Cancelled?
  }

  predicate IsNewest(ds: map<Id, Decision>, submission: Id, provider: Id, d: Id) {
    && d in Candidates(ds, submission, provider)
    && forall e :: e in Candidates(ds, submission, provider) && e != d ==> Newer(ds[d], d, ds[e], e)
  }

  /** `assert_certificate_issue_allowed` passes: the newest row exists and is approved. */
  predicate IssueAllowed(ds: map<Id, Decision>, submission: Id, provider: Id) {
    exists d :: d in Candidates(ds, submission, provider) && IsNewest(ds, submission, provider, d) && ds[d].status.Approved?
  }

  predicate HasApproval(ds: map<Id, Decision>, submission: Id, provider: Id) {
    exists d :: d in ds && ds[d].submission == submission && ds[d].provider == provider && ds[d].status.Approved?
  }

  /** The dossiers of a business with a provider that are not rejected. */
  function ActiveDossiers(subs: map<Id, Submission>, business: Id, provider: Id): set<Id> {
    set s | s in subs && subs[s].business == business && subs[s].provider == provider && !subs[s].status.DossierRejected?
  }

  /** The partial unique index and the query before it. */
  predicate HasUndecided(ds: map<Id, Decision>, submission: Id) {
    exists d :: d in ds && ds[d].submission == submission && Undecided(ds[d].status)
  }

  // ---------------------------------------------------------------- steps

  function Apply(st: State, step: Step): State {
    match step
    case Create(id, submission, provider, now, permitted) =>
      if permitted && id !in st.decisions && submission in st.submissions
         && st.submissions[submission].provider == provider && !HasUndecided(st.decisions, submission)
      then st.(decisions := st.decisions[id := Decision(submission, provider, PendingReview, now, None, None, "")])
      else st
    case CheckFinalize(session, d, provider, verdict, maker, reason, permitted) =>
      if permitted && session !in st.finalizers && (verdict.Approved? || verdict.Rejected?) && !IsBlank(reason)
         && d in st.decisions && st.decisions[d].provider == provider && st.decisions[d].status.PendingReview?
         && st.decisions[d].submission in st.submissions
         && st.submissions[st.decisions[d].submission].auditor != Some(maker)
      then st.(finalizers := st.finalizers[session := Finalizer(d, provider, verdict, maker, Strip(reason))])
      else st
    case WriteFinalize(session, now) =>
      if session !in st.finalizers then st
      else
        var f := st.finalizers[session];
        st.(finalizers := st.finalizers - {session},
            decisions :=
              if f.decision in st.decisions && st.decisions[f.decision].provider == f.provider
                 && st.decisions[f.decision].status.PendingReview?
              then st.decisions[f.decision := st.decisions[f.decision].(
                                  status := f.verdict, maker := Some(f.maker), reason := f.reason, decidedAt := Some(now))]
              else st.decisions)
    case FileSubmission(id, business, provider) =>
      if id in st.submissions then st
      else st.(submissions := st.submissions[id := Submission(business, provider, DossierOpen, None)])
    case ChangeSubmission(id, status, auditor) =>
      if id !in st.submissions then st
      else st.(submissions := st.submissions[id := st.submissions[id].(status := status, auditor := auditor)])
    case ListDossiers(session, business, provider) =>
      var active := ActiveDossiers(st.submissions, business, provider);
      if session !in st.issuers && active != {} && forall s :: s in active ==> st.submissions[s].status.DossierApproved?
      then st.(issuers := st.issuers[session := Issuer(business, provider, active, active)])
      else st
    case CheckDossier(session, submission) =>
      if session !in st.issuers || submission !in st.issuers[session].unchecked then st
      else if IssueAllowed(st.decisions, submission, st.issuers[session].provider)
      then st.(issuers := st.issuers[session := st.issuers[session].(unchecked := st.issuers[session].unchecked - {submission})])
      else st.(issuers := st.issuers - {session})
    case InsertCertificate(session, id, submission) =>
      if session in st.issuers && st.issuers[session].unchecked == {} && submission in st.issuers[session].listed
         && id !in st.certificates
      then
        var i := st.issuers[session];
        st.(issuers := st.issuers - {session},
            certificates := st.certificates[id := Certificate(i.business, i.provider, submission, i.listed)])
      else st
  }

  function Run(start: State, steps: seq<Step>): State {
    if steps == [] then start
    else Apply(Run(start, steps[..|steps| - 1]), steps[|steps| - 1])
  }

  // ---------------------------------------------------------------- what each step does

  /** A case is opened, pending and under the clock, exactly by permission, for the provider's own submission, without another pending or approved case. */
  lemma CreateOpens(st: State, id: Id, submission: Id, provider: Id, now: int, permitted: bool)
    ensures Apply(st, Create(id, submission, provider, now, permitted))
            == if && permitted && id !in st.decisions && submission in st.submissions && st.submissions[submission].provider == provider
                  && forall d | d in st.decisions && st.decisions[d].submission == submission :: st.decisions[d].status in {Rejected, Cancelled}
               then st.(decisions := st.decisions[id := Decision(submission, provider, PendingReview, now, None, None, "")])
               else st
  {
    assert forall s: Status :: s in {Rejected, Cancelled} <==> !s.PendingReview? && !s.Approved? by {
      forall s: Status ensures s in {Rejected, Cancelled} <==> !s.PendingReview? && !s.Approved? {
        match s
        case PendingReview =>
        case Approved =>
        case Rejected =>
        case Cancelled =>
      }
    }
  }

  /**
   A finalizer passes its checks exactly by permission, with a verdict and a reason, which
   is kept stripped, for a pending case of its provider whose submission is known and not
   audited by the maker.
   */
  lemma FinalizerPasses(st: State, session: Id, d: Id, provider: Id, verdict: Status, maker: Id, reason: string, permitted: bool)
    requires session !in st.finalizers
    ensures Apply(st, CheckFinalize(session, d, provider, verdict, maker, reason, permitted))
            == if && permitted && verdict in {Approved, Rejected} && Strip(reason) != ""
                  && d in st.decisions && st.decisions[d].provider == provider && st.decisions[d].status == PendingReview
                  && st.decisions[d].submission in st.submissions && st.submissions[st.decisions[d].submission].auditor != Some(maker)
               then st.(finalizers := st.finalizers[session := Finalizer(d, provider, verdict, maker, Strip(reason))])
               else st
  {
  }

  /** Its write decides a case that is still pending, with verdict, maker, reason and time; other cases, and the rest, stay. */
  lemma FinalizerDecides(st: State, session: Id, now: int)
    requires session in st.finalizers
    ensures var f, next := st.finalizers[session], Apply(st, WriteFinalize(session, now));
            var pending := f.decision in st.decisions && st.decisions[f.decision].provider == f.provider && st.decisions[f.decision].status == PendingReview;
            && next == st.(finalizers := next.finalizers, decisions := next.decisions)
            && next.finalizers == (map s | s in st.finalizers && s != session :: st.finalizers[s])
            && (!pending ==> next.decisions == st.decisions)
            && (pending ==> next.decisions == st.decisions[f.decision := Decision(
                               st.decisions[f.decision].submission, f.provider, f.verdict, st.decisions[f.decision].createdAt,
                               Some(now), Some(f.maker), f.reason)])
  {
  }

  function NotRejected(subs: map<Id, Submission>, business: Id, provider: Id): set<Id> {
    set s | s in subs && subs[s].business == business && subs[s].provider == provider && subs[s].status in {DossierApproved, DossierOpen}
  }

  /** A request to issue is begun exactly when there are dossiers of the pair that are not rejected, and all of them are approved. */
  lemma ListingBegins(st: State, session: Id, business: Id, provider: Id)
    requires session !in st.issuers
    ensures var listed := NotRejected(st.submissions, business, provider);
            Apply(st, ListDossiers(session, business, provider))
            == if listed != {} && forall s :: s in listed ==> st.submissions[s].status == DossierApproved
               then st.(issuers := st.issuers[session := Issuer(business, provider, listed, listed)])
               else st
  {
    forall s | s in st.submissions
      ensures s in ActiveDossiers(st.submissions, business, provider) <==> s in NotRejected(st.submissions, business, provider)
    {
      match st.submissions[s].status
      case DossierApproved =>
      case DossierRejected =>
      case DossierOpen =>
    }
    assert ActiveDossiers(st.submissions, business, provider) == NotRejected(st.submissions, business, provider);
  }

  /** A dossier is checked off, or the request ends, by the newest live decision on it; a certificate is inserted when all are checked off. */
  lemma IssuerProceeds(st: State, session: Id, submission: Id, id: Id)
    requires session in st.issuers
    ensures var i := st.issuers[session];
            var checked := Apply(st, CheckDossier(session, submission));
            && checked == st.(issuers := checked.issuers)
            && (forall s :: s != session ==> (s in checked.issuers <==> s in st.issuers))
            && (forall s :: s in st.issuers && s != session ==> checked.issuers[s] == st.issuers[s])
            && (submission !in i.unchecked ==> checked == st)
            && (submission in i.unchecked ==>
                  && (session in checked.issuers <==> IssueAllowed(st.decisions, submission, i.provider))
                  && (session in checked.issuers ==> checked.issuers[session] == i.(unchecked := i.unchecked - {submission})))
    ensures var i := st.issuers[session];
            Apply(st, InsertCertificate(session, id, submission))
            == if i.unchecked == {} && submission in i.listed && id !in st.certificates
               then st.(issuers := map s | s in st.issuers && s != session :: st.issuers[s],
                        certificates := st.certificates[id := Certificate(i.business, i.provider, submission, i.listed)])
               else st
  {
    assert st.issuers - {session} == map s | s in st.issuers && s != session :: st.issuers[s];
  }

  /** The order of the newest-row query: creation first, then the decision time with undecided rows last, then the id. */
  lemma NewerIs(x: Decision, xid: Id, y: Decision, yid: Id)
    ensures Newer(x, xid, y, yid) <==>
              if x.createdAt != y.createdAt then y.createdAt < x.createdAt
              else if x.decidedAt != y.decidedAt
                then x.decidedAt.Some? && (y.decidedAt == None || y.decidedAt.value < x.decidedAt.value)
                else yid < xid
  {
  }

  /** The check passes exactly when some approved row comes before all other rows of the submission and provider that are not cancelled. */
  lemma IssueAllowedIs(ds: map<Id, Decision>, submission: Id, provider: Id)
    ensures IssueAllowed(ds, submission, provider) <==>
              exists d | d in ds && ds[d].submission == submission && ds[d].provider == provider && ds[d].status == Approved ::
                forall e | e in ds && e != d && ds[e].submission == submission && ds[e].provider == provider && ds[e].status != Cancelled ::
                  Newer(ds[d], d, ds[e], e)
  {
    forall d | d in ds && ds[d].submission == submission && ds[d].provider == provider && ds[d].status == Approved
      ensures IsNewest(ds, submission, provider, d) <==>
                forall e | e in ds && e != d && ds[e].submission == submission && ds[e].provider == provider && ds[e].status != Cancelled ::
                  Newer(ds[d], d, ds[e], e)
    {
      assert d in Candidates(ds, submission, provider);
      forall e | e in ds ensures e in Candidates(ds, submission, provider)
                                 <==> ds[e].submission == submission && ds[e].provider == provider && ds[e].status != Cancelled
      {
      }
    }
  }

  /** A dossier is filed open, without an auditor; other routes set its status and auditor. */
  lemma SubmissionsChange(st: State, id: Id, business: Id, provider: Id, status: DossierStatus, auditor: Option<Id>)
    ensures id !in st.submissions ==>
              && Apply(st, FileSubmission(id, business, provider))
                 == st.(submissions := st.submissions[id := Submission(business, provider, DossierOpen, None)])
              && Apply(st, ChangeSubmission(id, status, auditor)) == st
    ensures id in st.submissions ==>
              && Apply(st, FileSubmission(id, business, provider)) == st
              && Apply(st, ChangeSubmission(id, status, auditor))
                 == st.(submissions := st.submissions[id := Submission(st.submissions[id].business, st.submissions[id].provider, status, auditor)])
  {
  }

  // ---------------------------------------------------------------- the invariant

  predicate Live(d: Decision) {
    !d.status.Cancelled?
  }

  /** Of two live rows of a submission at most one is not rejected. */
  ghost predicate OneOpen(ds: map<Id, Decision>) {
    forall d, e | d in ds && e in ds && d != e && ds[d].submission == ds[e].submission && Live(ds[d]) && Live(ds[e]) ::
      ds[d].status.Rejected? || ds[e].status.Rejected?
  }

  ghost predicate ScopeKept(st: State) {
    forall d :: d in st.decisions ==>
      st.decisions[d].submission in st.submissions
      && st.decisions[d].provider == st.submissions[st.decisions[d].submission].provider
  }

  ghost predicate IssuerOk(ds: map<Id, Decision>, i: Issuer) {
    i.listed != {} && forall x :: x in i.listed - i.unchecked ==> IssueAllowed(ds, x, i.provider)
  }

  ghost predicate CertificateOk(ds: map<Id, Decision>, c: Certificate) {
    c.submission in c.basis && forall x :: x in c.basis ==> IssueAllowed(ds, x, c.issuedBy)
  }

  ghost predicate IssuersChecked(st: State) {
    && (forall s :: s in st.issuers ==> IssuerOk(st.decisions, st.issuers[s]))
    && (forall c :: c in st.certificates ==> CertificateOk(st.decisions, st.certificates[c]))
  }

  ghost predicate VerdictsAreFinal(st: State) {
    forall s :: s in st.finalizers ==> st.finalizers[s].verdict.Approved? || st.finalizers[s].verdict.Rejected?
  }

  ghost predicate Inv(st: State) {
    OneOpen(st.decisions) && ScopeKept(st) && IssuersChecked(st) && VerdictsAreFinal(st)
  }

  /** A row that has left review is never written again. */
  lemma FinalRowsStay(st: State, step: Step, d: Id)
    requires d in st.decisions && !st.decisions[d].status.PendingReview?
    ensures d in Apply(st, step).decisions && Apply(st, step).decisions[d] == st.decisions[d]
  {
  }

  /** Decisions change by opening a case of a submission without an open one, or by deciding a pending row. */
  lemma DecisionChange(st: State, step: Step)
    ensures var ds, next := st.decisions, Apply(st, step).decisions;
            || next == ds
            || (&& step.Create? && step.id !in ds && !HasUndecided(ds, step.submission)
                && next == ds[step.id := Decision(step.submission, step.provider, PendingReview, step.now, None, None, "")])
            || (&& step.WriteFinalize? && step.session in st.finalizers
                && var d := st.finalizers[step.session].decision;
                   && d in ds && ds[d].status.PendingReview? && d in next && next == ds[d := next[d]]
                   && next[d].submission == ds[d].submission && next[d].createdAt == ds[d].createdAt
                   && next[d].status == st.finalizers[step.session].verdict)
  {
  }

  lemma StepKeepsOneOpen(st: State, step: Step)
    requires OneOpen(st.decisions)
    ensures OneOpen(Apply(st, step).decisions)
  {
    DecisionChange(st, step);
  }

  lemma StepKeepsScope(st: State, step: Step)
    requires ScopeKept(st) && VerdictsAreFinal(st)
    ensures ScopeKept(Apply(st, step)) && VerdictsAreFinal(Apply(st, step))
  {
  }

  /** While a submission has an approved decision no other row of it is opened or decided. */
  lemma ApprovedSubmissionIsSettled(st: State, step: Step, submission: Id, d: Id)
    requires OneOpen(st.decisions)
    requires d in st.decisions && st.decisions[d].submission == submission && st.decisions[d].status.Approved?
    ensures var next := Apply(st, step).decisions;
            forall e :: e in next && next[e].submission == submission ==> e in st.decisions && next[e] == st.decisions[e]
  {
  }

  /** A submission that passes the check passes it ever after. */
  lemma AllowedStays(st: State, step: Step, submission: Id, provider: Id)
    requires OneOpen(st.decisions) && IssueAllowed(st.decisions, submission, provider)
    ensures IssueAllowed(Apply(st, step).decisions, submission, provider)
  {
    var ds, next := st.decisions, Apply(st, step).decisions;
    var d :| d in Candidates(ds, submission, provider) && IsNewest(ds, submission, provider, d) && ds[d].status.Approved?;
    FinalRowsStay(st, step, d);
    ApprovedSubmissionIsSettled(st, step, submission, d);
    forall e | e in Candidates(next, submission, provider) && e != d ensures Newer(next[d], d, next[e], e) {
      assert e in Candidates(ds, submission, provider);
    }
    assert IsNewest(next, submission, provider, d);
  }

  lemma IssuerStaysOk(st: State, step: Step, i: Issuer)
    requires OneOpen(st.decisions) && IssuerOk(st.decisions, i)
    ensures IssuerOk(Apply(st, step).decisions, i)
  {
    forall x | x in i.listed - i.unchecked ensures IssueAllowed(Apply(st, step).decisions, x, i.provider) {
      AllowedStays(st, step, x, i.provider);
    }
  }

  lemma CertificateStaysOk(st: State, step: Step, c: Certificate)
    requires OneOpen(st.decisions) && CertificateOk(st.decisions, c)
    ensures CertificateOk(Apply(st, step).decisions, c)
  {
    forall x | x in c.basis ensures IssueAllowed(Apply(st, step).decisions, x, c.issuedBy) {
      AllowedStays(st, step, x, c.issuedBy);
    }
  }

  /** How an issuer can look after a step. */
  lemma IssuerChange(st: State, step: Step, s: Id)
    requires s in Apply(st, step).issuers
    ensures var i := Apply(st, step).issuers[s];
            || (s in st.issuers && i == st.issuers[s])
            || (i.listed == i.unchecked && i.listed != {})
            || (&& step.CheckDossier? && s in st.issuers
                && IssueAllowed(st.decisions, step.submission, i.provider)
                && i == st.issuers[s].(unchecked := st.issuers[s].unchecked - {step.submission}))
  {
  }

  lemma IssuerStep(st: State, step: Step, s: Id)
    requires OneOpen(st.decisions) && IssuersChecked(st) && s in Apply(st, step).issuers
    ensures IssuerOk(Apply(st, step).decisions, Apply(st, step).issuers[s])
  {
    IssuerChange(st, step, s);
    IssuerStaysOk(st, step, Apply(st, step).issuers[s]);
  }

  /** A certificate is new only from an issuer with nothing left to check. */
  lemma CertificateChange(st: State, step: Step, c: Id)
    requires c in Apply(st, step).certificates
    ensures var cert := Apply(st, step).certificates[c];
            || (c in st.certificates && cert == st.certificates[c])
            || (&& step.InsertCertificate? && step.session in st.issuers && step.submission in st.issuers[step.session].listed
                && st.issuers[step.session].unchecked == {}
                && cert == Certificate(st.issuers[step.session].business, st.issuers[step.session].provider,
                                       step.submission, st.issuers[step.session].listed))
  {
  }

  lemma CertificateStep(st: State, step: Step, c: Id)
    requires OneOpen(st.decisions) && IssuersChecked(st) && c in Apply(st, step).certificates
    ensures CertificateOk(Apply(st, step).decisions, Apply(st, step).certificates[c])
  {
    CertificateChange(st, step, c);
    CertificateStaysOk(st, step, Apply(st, step).certificates[c]);
  }

  lemma StepKeepsIssuers(st: State, step: Step)
    requires OneOpen(st.decisions) && IssuersChecked(st)
    ensures IssuersChecked(Apply(st, step))
  {
    forall s | s in Apply(st, step).issuers ensures IssuerOk(Apply(st, step).decisions, Apply(st, step).issuers[s]) {
      IssuerStep(st, step, s);
    }
    forall c | c in Apply(st, step).certificates
      ensures CertificateOk(Apply(st, step).decisions, Apply(st, step).certificates[c])
    {
      CertificateStep(st, step, c);
    }
  }

  /** Every step of every session keeps the invariant, whatever the clock shows. */
  lemma {:induction false} StepKeepsInv(st: State, step: Step)
    requires Inv(st)
    ensures Inv(Apply(st, step))
  {
    StepKeepsOneOpen(st, step);
    StepKeepsScope(st, step);
    StepKeepsIssuers(st, step);
  }

  lemma {:induction false} RunKeepsInv(start: State, steps: seq<Step>)
    requires Inv(start)
    ensures Inv(Run(start, steps))
  {
    if steps != [] {
      RunKeepsInv(start, steps[..|steps| - 1]);
      StepKeepsInv(Run(start, steps[..|steps| - 1]), steps[|steps| - 1]);
    }
  }

  // ---------------------------------------------------------------- the newest-row check

  predicate IsApprovedRow(ds: map<Id, Decision>, submission: Id, provider: Id, d: Id) {
    d in Candidates(ds, submission, provider) && ds[d].status.Approved?
  }

  /** In every run all live decisions of a submission but an undecided or approved one are rejected. */
  lemma {:induction false} AllOthersAreRejected(start: State, steps: seq<Step>, submission: Id, provider: Id, d: Id)
    requires Inv(start)
    requires d in Candidates(Run(start, steps).decisions, submission, provider) && Undecided(Run(start, steps).decisions[d].status)
    ensures var ds := Run(start, steps).decisions;
            forall e :: e in Candidates(ds, submission, provider) && e != d ==> ds[e].status.Rejected?
  {
    RunKeepsInv(start, steps);
  }

  /**
   Exactly when the newest-row check finds an approval, in every run and with any clock:
   the approved row, of which there is at most one, must come before all other live rows.
   */
  lemma {:induction false} IssueCheckFindsApprovalIff(start: State, steps: seq<Step>, submission: Id, provider: Id)
    requires Inv(start)
    ensures var ds := Run(start, steps).decisions;
            && (!HasApproval(ds, submission, provider) ==> !IssueAllowed(ds, submission, provider))
            && forall a | IsApprovedRow(ds, submission, provider, a) ::
                 IssueAllowed(ds, submission, provider) <==>
                   forall e :: e in Candidates(ds, submission, provider) && e != a ==> Newer(ds[a], a, ds[e], e)
  {
    RunKeepsInv(start, steps);
  }

  /**
   The same before the approval is written.  The finalizer's row will be found exactly when
   every other live row of the submission is older; or as old and decided earlier, or not
   at all; or as old, decided at the same instant, and smaller by id.
   */
  lemma ApprovalWillBeFoundIff(st: State, session: Id, now: int)
    requires Inv(st) && session in st.finalizers && st.finalizers[session].verdict.Approved?
    requires var f := st.finalizers[session];
             f.decision in st.decisions && st.decisions[f.decision].provider == f.provider && st.decisions[f.decision].status.PendingReview?
    ensures var f := st.finalizers[session];
            var ds, row := st.decisions, st.decisions[f.decision];
            IssueAllowed(Apply(st, WriteFinalize(session, now)).decisions, row.submission, f.provider) <==>
              forall e :: e in Candidates(ds, row.submission, f.provider) && e != f.decision ==>
                || ds[e].createdAt < row.createdAt
                || (ds[e].createdAt == row.createdAt
                    && (|| ds[e].decidedAt.None? || ds[e].decidedAt.value < now
                        || (ds[e].decidedAt.value == now && e < f.decision)))
  {
    var f := st.finalizers[session];
    var ds, next := st.decisions, Apply(st, WriteFinalize(session, now)).decisions;
    var s, p := ds[f.decision].submission, f.provider;
    StepKeepsOneOpen(st, WriteFinalize(session, now));
    assert Candidates(next, s, p) == Candidates(ds, s, p);
    assert IsApprovedRow(next, s, p, f.decision);
  }

  // ---------------------------------------------------------------- an advancing clock

  /** The older of two live rows is rejected, and no two are of one age. */
  ghost predicate Ordered(ds: map<Id, Decision>) {
    forall d, e | d in ds && e in ds && d != e && ds[d].submission == ds[e].submission && Live(ds[d]) && Live(ds[e]) ::
      && ds[d].createdAt != ds[e].createdAt
      && (ds[d].createdAt < ds[e].createdAt ==> ds[d].status.Rejected?)
  }

  /** A case is opened strictly after every earlier case of its submission was created. */
  ghost predicate OpensLater(st: State, step: Step) {
    step.Create? ==> forall d :: d in st.decisions && st.decisions[d].submission == step.submission ==> st.decisions[d].createdAt < step.now
  }

  ghost predicate ClockAdvances(start: State, steps: seq<Step>) {
    forall i :: 0 <= i < |steps| ==> OpensLater(Run(start, steps[..i]), steps[i])
  }

  /** Under that order the newest-row check is the search for an approved decision. */
  lemma AllowedIffApproved(ds: map<Id, Decision>, submission: Id, provider: Id)
    requires Ordered(ds)
    ensures IssueAllowed(ds, submission, provider) <==> HasApproval(ds, submission, provider)
  {
  }

  lemma OpeningKeepsOrdered(ds: map<Id, Decision>, id: Id, row: Decision)
    requires Ordered(ds) && id !in ds && !HasUndecided(ds, row.submission)
    requires forall d :: d in ds && ds[d].submission == row.submission ==> ds[d].createdAt < row.createdAt
    ensures Ordered(ds[id := row])
  {
  }

  lemma DecidingKeepsOrdered(ds: map<Id, Decision>, id: Id, row: Decision)
    requires Ordered(ds) && OneOpen(ds) && id in ds && ds[id].status.PendingReview?
    requires row.submission == ds[id].submission && row.createdAt == ds[id].createdAt
    ensures Ordered(ds[id := row])
  {
  }

  lemma StepKeepsOrdered(st: State, step: Step)
    requires Ordered(st.decisions) && OneOpen(st.decisions) && OpensLater(st, step)
    ensures Ordered(Apply(st, step).decisions)
  {
    DecisionChange(st, step);
    var ds, next := st.decisions, Apply(st, step).decisions;
    match step {
      case Create(id, _, _, _, _) =>
        if next != ds {
          OpeningKeepsOrdered(ds, id, next[id]);
        }
      case WriteFinalize(session, _) =>
        if next != ds {
          DecidingKeepsOrdered(ds, st.finalizers[session].decision, next[st.finalizers[session].decision]);
        }
      case _ =>
    }
  }

  lemma {:induction false} ClockPrefix(start: State, steps: seq<Step>, n: nat)
    requires ClockAdvances(start, steps) && n < |steps|
    ensures ClockAdvances(start, steps[..n]) && OpensLater(Run(start, steps[..n]), steps[n])
  {
    forall i | 0 <= i < n ensures OpensLater(Run(start, steps[..n][..i]), steps[..n][i]) {
      assert steps[..n][..i] == steps[..i];
    }
  }

  lemma {:induction false} RunKeepsOrdered(start: State, steps: seq<Step>)
    requires Inv(start) && Ordered(start.decisions) && ClockAdvances(start, steps)
    ensures Ordered(Run(start, steps).decisions)
  {
    if steps != [] {
      var n := |steps| - 1;
      ClockPrefix(start, steps, n);
      RunKeepsInv(start, steps[..n]);
      RunKeepsOrdered(start, steps[..n]);
      StepKeepsOrdered(Run(start, steps[..n]), steps[n]);
    }
  }

  // ---------------------------------------------------------------- theorems

  /** Of all live decisions of a submission every one but the newest is rejected. */
  lemma {:induction false} OnlyTheNewestIsOpen(start: State, steps: seq<Step>, submission: Id, provider: Id, newest: Id)
    requires Inv(start) && Ordered(start.decisions) && ClockAdvances(start, steps)
    requires IsNewest(Run(start, steps).decisions, submission, provider, newest)
    ensures var ds := Run(start, steps).decisions;
            forall d :: d in Candidates(ds, submission, provider) && d != newest ==> ds[d].status.Rejected?
  {
    RunKeepsOrdered(start, steps);
  }

  /** So with an advancing clock the check passes exactly when an approved decision exists. */
  lemma {:induction false} IssueCheckIffApproved(start: State, steps: seq<Step>, submission: Id, provider: Id)
    requires Inv(start) && Ordered(start.decisions) && ClockAdvances(start, steps)
    ensures var ds := Run(start, steps).decisions;
            IssueAllowed(ds, submission, provider) <==> HasApproval(ds, submission, provider)
  {
    RunKeepsOrdered(start, steps);
    AllowedIffApproved(Run(start, steps).decisions, submission, provider);
  }

  /** A decision leaves review at most once: whoever races, the first verdict stays with its maker, reason and time. */
  lemma {:induction false} DecidedOnce(start: State, steps: seq<Step>, d: Id)
    requires d in start.decisions && !start.decisions[d].status.PendingReview?
    ensures d in Run(start, steps).decisions && Run(start, steps).decisions[d] == start.decisions[d]
  {
    if steps != [] {
      DecidedOnce(start, steps[..|steps| - 1], d);
      FinalRowsStay(Run(start, steps[..|steps| - 1]), steps[|steps| - 1], d);
    }
  }

  /** Of two finalizers that both passed the checks, the first to write decides and the second changes no decision. */
  lemma RacingFinalizersOneWins(st: State, a: Id, b: Id, t: int, u: int)
    requires a != b && a in st.finalizers && b in st.finalizers && VerdictsAreFinal(st)
    requires st.finalizers[a].decision == st.finalizers[b].decision && st.finalizers[a].provider == st.finalizers[b].provider
    requires var f := st.finalizers[a]; f.decision in st.decisions && st.decisions[f.decision].provider == f.provider
                                        && st.decisions[f.decision].status.PendingReview?
    ensures var first := Apply(st, WriteFinalize(a, t));
            && first.decisions[st.finalizers[a].decision].status == st.finalizers[a].verdict
            && first.decisions[st.finalizers[a].decision].maker == Some(st.finalizers[a].maker)
            && Apply(first, WriteFinalize(b, u)).decisions == first.decisions
  {
  }

  /** Every certificate rests on dossiers that all pass the check, then and ever after, whatever the clock shows. */
  lemma CertificatesRestOnApprovals(start: State, steps: seq<Step>, c: Id)
    requires Inv(start) && c in Run(start, steps).certificates
    ensures var st := Run(start, steps);
            var cert := st.certificates[c];
            && cert.submission in cert.basis
            && forall x :: x in cert.basis ==> IssueAllowed(st.decisions, x, cert.issuedBy)
  {
    RunKeepsInv(start, steps);
  }

  /**
   At the moment of the insert all active dossiers of the pair pass the check exactly when
   those that were not yet on the list do: nothing else can have gone wrong since.
   */
  lemma InsertCoversActiveDossiersIff(st: State, session: Id)
    requires Inv(st) && session in st.issuers && st.issuers[session].unchecked == {}
    ensures var i := st.issuers[session];
            var active := ActiveDossiers(st.submissions, i.business, i.provider);
            (forall x :: x in active ==> IssueAllowed(st.decisions, x, i.provider))
            <==> (forall x :: x in active - i.listed ==> IssueAllowed(st.decisions, x, i.provider))
  {
  }

  /** One approved dossier with one approved decision. */
  function OneApproved(business: Id, provider: Id): State {
    State(map[0 := Decision(0, provider, Approved, 1, Some(2), Some(9), "ok")],
          map[0 := Submission(business, provider, DossierApproved, None)], map[], map[], map[])
  }

  lemma OneApprovedIsChecked(business: Id, provider: Id)
    ensures var st := OneApproved(business, provider);
            Apply(Apply(st, ListDossiers(0, business, provider)), CheckDossier(0, 0))
            == st.(issuers := map[0 := Issuer(business, provider, {0}, {})])
  {
    var st := OneApproved(business, provider);
    assert ActiveDossiers(st.submissions, business, provider) == {0};
    assert IsNewest(st.decisions, 0, provider, 0);
    var listed := Apply(st, ListDossiers(0, business, provider));
    assert listed == st.(issuers := map[0 := Issuer(business, provider, {0}, {0})]);
    assert IssueAllowed(st.decisions, 0, provider);
    var all: set<Id> := {0};
    assert all - {0} == {};
    assert Apply(listed, CheckDossier(0, 0)).issuers[0] == Issuer(business, provider, {0}, {});
  }

  /** A dossier filed between the list and the insert is not covered. */
  lemma LateDossierIsNotCovered(business: Id, provider: Id)
    ensures var st := OneApproved(business, provider);
            var checked := Apply(Apply(st, ListDossiers(0, business, provider)), CheckDossier(0, 0));
            var filed := Apply(checked, FileSubmission(1, business, provider));
            var end := Apply(filed, InsertCertificate(0, 0, 0));
            && Inv(st)
            && end.certificates == map[0 := Certificate(business, provider, 0, {0})]
            && 1 in ActiveDossiers(end.submissions, business, provider)
            && !IssueAllowed(end.decisions, 1, provider)
  {
    OneApprovedIsChecked(business, provider);
  }

  /** A case opened and decided by one undisturbed finalizer. */
  function DecidedCase(st: State, id: Id, submission: Id, provider: Id, verdict: Status, maker: Id, reason: string, now: int): State {
    var created := Apply(st, Create(id, submission, provider, now, true));
    Apply(Apply(created, CheckFinalize(0, id, provider, verdict, maker, reason, true)), WriteFinalize(0, now))
  }

  lemma DecidedCaseAddsARow(st: State, id: Id, submission: Id, provider: Id, verdict: Status, maker: Id, reason: string, now: int)
    requires id !in st.decisions && 0 !in st.finalizers && !HasUndecided(st.decisions, submission) && !IsBlank(reason)
    requires submission in st.submissions && st.submissions[submission].provider == provider
    requires st.submissions[submission].auditor != Some(maker) && (verdict.Approved? || verdict.Rejected?)
    ensures DecidedCase(st, id, submission, provider, verdict, maker, reason, now)
            == st.(decisions := st.decisions[id := Decision(submission, provider, verdict, now, Some(now), Some(maker), Strip(reason))])
  {
    assert st.finalizers[0 := Finalizer(id, provider, verdict, maker, Strip(reason))] - {0} == st.finalizers;
  }

  /**
   The check can miss an approval: two cases created and decided at one instant are
   ordered by id alone.
   */
  lemma TiedRowsHideAnApproval(provider: Id, now: int)
    ensures var st := State(map[], map[7 := Submission(3, provider, DossierOpen, None)], map[], map[], map[]);
            var refused := DecidedCase(st, 1, 7, provider, Rejected, 9, "no", now);
            var end := DecidedCase(refused, 0, 7, provider, Approved, 9, "ok", now);
            Inv(st) && HasApproval(end.decisions, 7, provider) && !IssueAllowed(end.decisions, 7, provider)
  {
    var st := State(map[], map[7 := Submission(3, provider, DossierOpen, None)], map[], map[], map[]);
    NotBlankAt("no", 0);
    NotBlankAt("ok", 0);
    DecidedCaseAddsARow(st, 1, 7, provider, Rejected, 9, "no", now);
    var refused := DecidedCase(st, 1, 7, provider, Rejected, 9, "no", now);
    DecidedCaseAddsARow(refused, 0, 7, provider, Approved, 9, "ok", now);
    var ds := DecidedCase(refused, 0, 7, provider, Approved, 9, "ok", now).decisions;
    assert ds[0].status.Approved?;
    assert 1 in Candidates(ds, 7, provider) && !Newer(ds[0], 0, ds[1], 1);
  }
}
