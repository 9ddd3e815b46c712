/**
 Audit visits and the freeze of their evidence: the visit, checklist and NCR writers of
 `backend/auth/audit_router.py`.

 A request holds the row lock of its visit from the access check to the end of its
 transaction.  The lock table `held` says which request holds which visit; between taking
 the lock and committing, requests on other visits and the two writers that take no lock
 may run.  What a request writes becomes visible at its commit.
 */
module VisitFreeze {
  import opened Common
  import opened Scores

  type Id = nat

  datatype Status = Scheduled | InProgress | Completed | ReportSubmitted | ReportAccepted

  datatype Visit = Visit(business: Id, provider: Id, auditor: Option<Id>, template: Option<Id>,
                         kind: string, date: int, location: string, notes: string,
                         status: Status, score: Option<int>, report: Option<string>,
                         auditorSignature: Option<string>, businessSignature: Option<string>,
                         startGps: Option<string>, endGps: Option<string>, acceptedBy: Option<Id>)

  datatype Item = Item(visit: Id, question: string, result: Option<Answer>, remarks: map<string, string>, photos: seq<string>)

  datatype Severity = Critical | Major | Minor

  datatype NcrStatus = Open | InReview | Closed

  datatype Ncr = Ncr(visit: Id, item: Option<Id>, description: string, severity: Severity, deadline: Option<int>,
                     correctiveAction: string, status: NcrStatus, photos: seq<string>, evidence: seq<string>,
                     closedBy: Option<Id>)

  datatype Db = Db(visits: map<Id, Visit>, items: map<Id, Item>, ncrs: map<Id, Ncr>)

  predicate Final(s: Status) {
    s.ReportSubmitted? || s.ReportAccepted?
  }

  // ---------------------------------------------------------------- requests

  /** The canonical principal: an owner sees the visits of its organisation, an auditor its own. */
  datatype Actor = Owner(provider: Id, user: Id) | Auditor(id: Id)

  datatype Request =
    | UpdateVisit(newKind: string, newDate: Option<int>, newLocation: Option<string>, newNotes: Option<string>)
    | DeleteVisit
      // `cleared`: an auditor of the organisation without an unresolved conflict of interest
    | Assign(auditor: Id, cleared: bool)
    | SetStatus(status: Status)
    | AcceptReport
      // `questions` is what the visit's template holds; ids of new rows start at `firstId`
    | Populate(questions: Option<seq<string>>, firstId: Id)
    | AddItem(id: Id, question: string)
    | DeleteItem(id: Id)
    | UpdateItem(id: Id, result: Option<Option<Answer>>, remarks: map<string, string>)
    | ItemPhoto(id: Id, path: string)
    | CreateNcr(id: Id, item: Option<Id>, description: string, severity: Severity, deadline: Option<int>, action: string)
      // `newDeadline` is `Some(None)` when the request carries an empty one
    | UpdateNcr(id: Id, newDescription: Option<string>, newSeverity: Option<Severity>, newDeadline: Option<Option<int>>,
                newAction: Option<string>, newStatus: Option<NcrStatus>)
    | NcrPhoto(id: Id, path: string)
    | GenerateReport(path: string)
    | Signature(byAuditor: bool, path: string)
    | SaveGps(atStart: bool, gps: string)
    | VerifyNcr(id: Id, close: bool)
    | FollowUp(id: Id, date: int, location: string, notes: string)

  datatype Call = Call(actor: Actor, vid: Id, request: Request)

  predicate InScope(v: Visit, a: Actor) {
    match a
    case Owner(provider, _) => v.provider == provider
    case Auditor(id) => v.auditor == Some(id)
  }

  predicate OwnerOnly(r: Request) {
    r.UpdateVisit? || r.DeleteVisit? || r.Assign? || r.AcceptReport? || r.FollowUp?
  }

  predicate AuditorOnly(r: Request) {
    r.GenerateReport? || (r.SetStatus? && r.status.ReportSubmitted?)
  }

  /** Requests that insist on a visit whose report is not submitted. */
  predicate NeedsMutable(r: Request) {
    match r
    case SetStatus(_) => false
    case AcceptReport => false
    case UpdateNcr(_, description, severity, deadline, _, _) => description.Some? || severity.Some? || deadline.Some?
    case NcrPhoto(_, _) => false
    case VerifyNcr(_, _) => false
    case FollowUp(_, _, _, _) => false
    case _ => true
  }

  /** The checks every request passes while it takes the lock. */
  predicate Admitted(db: Db, c: Call) {
    && c.vid in db.visits
    && InScope(db.visits[c.vid], c.actor)
    && (OwnerOnly(c.request) ==> c.actor.Owner?)
    && (AuditorOnly(c.request) ==> c.actor.Auditor?)
    && (NeedsMutable(c.request) ==> !Final(db.visits[c.vid].status))
  }

  // ---------------------------------------------------------------- what a request writes

  predicate IsItemOf(db: Db, vid: Id, id: Id) {
    id in db.items && db.items[id].visit == vid
  }

  predicate IsNcrOf(db: Db, vid: Id, id: Id) {
    id in db.ncrs && db.ncrs[id].visit == vid
  }

  function ItemsIn(items: map<Id, Item>, vid: Id): map<Id, Item> {
    map i | i in items && items[i].visit == vid :: items[i]
  }

  function ItemsOf(db: Db, vid: Id): map<Id, Item> {
    ItemsIn(db.items, vid)
  }

  function ResultsIn(items: map<Id, Item>, vid: Id): Results {
    map i | i in items && items[i].visit == vid :: items[i].result
  }

  function ResultsOf(db: Db, vid: Id): Results {
    ResultsIn(db.items, vid)
  }

  /** Some NCR points at an item of the visit; the foreign key then refuses to delete that item. */
  predicate ItemsReferenced(db: Db, vid: Id) {
    exists n | n in db.ncrs :: db.ncrs[n].item.Some? && IsItemOf(db, vid, db.ncrs[n].item.value)
  }

  predicate ItemsReferencedElsewhere(db: Db, vid: Id) {
    exists n | n in db.ncrs :: db.ncrs[n].visit != vid && db.ncrs[n].item.Some? && IsItemOf(db, vid, db.ncrs[n].item.value)
  }

  function ItemsExcept(items: map<Id, Item>, vid: Id): map<Id, Item> {
    map i | i in items && items[i].visit != vid :: items[i]
  }

  /** An id of a new row is taken. */
  predicate Clash(items: map<Id, Item>, firstId: Id, count: nat) {
    exists i | i in items :: firstId <= i < firstId + count
  }

  function Blank(vid: Id, question: string): Item {
    Item(vid, question, None, map[], [])
  }

  function Inserted(items: map<Id, Item>, vid: Id, questions: seq<string>, firstId: Id, n: nat): map<Id, Item>
    requires n <= |questions|
  {
    if n == 0 then items else Inserted(items, vid, questions, firstId, n - 1)[firstId + n - 1 := Blank(vid, questions[n - 1])]
  }

  function AfterStatus(db: Db, vid: Id, status: Status): Visit
    requires vid in db.visits
  {
    var v := db.visits[vid];
    var allowed := if status.ReportSubmitted? then v.status.Completed? else !Final(v.status);
    if status.ReportAccepted? || !allowed then v
    else v.(status := status,
            score := if status.Completed? && ItemsOf(db, vid) != map[] then Some(CompletionScore(ResultsOf(db, vid))) else v.score)
  }

  function AfterUpdate(v: Visit, r: Request): Visit
    requires r.UpdateVisit?
  {
    v.(kind := if r.newKind != "" then r.newKind else v.kind,
       date := if r.newDate.Some? then r.newDate.value else v.date,
       location := if r.newLocation.Some? then r.newLocation.value else v.location,
       notes := if r.newNotes.Some? then r.newNotes.value else v.notes)
  }

  /** The visit's row after the request, unless it is deleted. */
  function VisitAfter(db: Db, c: Call): Visit
    requires c.vid in db.visits
  {
    var v := db.visits[c.vid];
    match c.request
    case UpdateVisit(_, _, _, _) => AfterUpdate(v, c.request)
    case Assign(auditor, cleared) => if cleared then v.(auditor := Some(auditor)) else v
    case SetStatus(status) => AfterStatus(db, c.vid, status)
    case AcceptReport =>
      if v.status.ReportSubmitted? && c.actor.Owner? then v.(status := ReportAccepted, acceptedBy := Some(c.actor.user)) else v
    case GenerateReport(path) =>
      v.(report := Some(path), status := ReportSubmitted, score := Some(ReportScore(v.score, ResultsOf(db, c.vid))))
    case Signature(byAuditor, path) =>
      if byAuditor then v.(auditorSignature := Some(path)) else v.(businessSignature := Some(path))
    case SaveGps(atStart, gps) => if atStart then v.(startGps := Some(gps)) else v.(endGps := Some(gps))
    case _ => v
  }

  predicate Deletes(db: Db, c: Call)
    requires c.vid in db.visits
  {
    c.request.DeleteVisit? && db.visits[c.vid].status.Scheduled? && !ItemsReferencedElsewhere(db, c.vid)
  }

  function VisitsAfter(db: Db, c: Call): map<Id, Visit>
    requires c.vid in db.visits
  {
    var v := db.visits[c.vid];
    match c.request
    case DeleteVisit => if Deletes(db, c) then db.visits - {c.vid} else db.visits
    case FollowUp(id, date, location, notes) =>
      if id in db.visits then db.visits
      else db.visits[id := NewVisit(v.business, v.provider, v.auditor, v.template, "renewal", date, location, notes)]
    case _ => db.visits[c.vid := VisitAfter(db, c)]
  }

  function NewVisit(business: Id, provider: Id, auditor: Option<Id>, template: Option<Id>, kind: string, date: int,
                    location: string, notes: string): Visit {
    Visit(business, provider, auditor, template, kind, date, location, notes, Scheduled, None, None, None, None, None, None, None)
  }

  function ItemsAfter(db: Db, c: Call): map<Id, Item>
    requires c.vid in db.visits
  {
    match c.request
    case DeleteVisit =>
      if Deletes(db, c) then ItemsExcept(db.items, c.vid) else db.items
    case Populate(questions, firstId) =>
      if db.visits[c.vid].template.None? || questions.None? || ItemsReferenced(db, c.vid)
         || Clash(db.items, firstId, |questions.value|) then db.items
      else Inserted(ItemsExcept(db.items, c.vid), c.vid, questions.value, firstId, |questions.value|)
    case AddItem(id, question) => if id in db.items then db.items else db.items[id := Blank(c.vid, question)]
    case DeleteItem(id) =>
      if !IsItemOf(db, c.vid, id) || exists n | n in db.ncrs :: db.ncrs[n].item == Some(id) then db.items else db.items - {id}
    case UpdateItem(id, result, remarks) =>
      if !IsItemOf(db, c.vid, id) then db.items
      else
        var i := db.items[id];
        db.items[id := i.(result := if result.Some? then result.value else i.result, remarks := i.remarks + remarks)]
    case ItemPhoto(id, path) =>
      if !IsItemOf(db, c.vid, id) then db.items else db.items[id := db.items[id].(photos := db.items[id].photos + [path])]
    case _ => db.items
  }

  function NcrAfterUpdate(n: Ncr, r: Request): Ncr
    requires r.UpdateNcr?
  {
    n.(description := if r.newDescription.Some? then r.newDescription.value else n.description,
       severity := if r.newSeverity.Some? then r.newSeverity.value else n.severity,
       deadline := if r.newDeadline.Some? && r.newDeadline.value.Some? then r.newDeadline.value else n.deadline,
       correctiveAction := if r.newAction.Some? then r.newAction.value else n.correctiveAction,
       status := if r.newStatus.Some? then r.newStatus.value else n.status)
  }

  function NcrsAfter(db: Db, c: Call): map<Id, Ncr>
    requires c.vid in db.visits
  {
    match c.request
    case DeleteVisit =>
      if Deletes(db, c) then map n | n in db.ncrs && db.ncrs[n].visit != c.vid :: db.ncrs[n] else db.ncrs
    case CreateNcr(id, item, description, severity, deadline, action) =>
      if id in db.ncrs || (item.Some? && item.value !in db.items) then db.ncrs
      else db.ncrs[id := Ncr(c.vid, item, description, severity, deadline, action, Open, [], [], None)]
    case UpdateNcr(id, _, _, _, _, _) =>
      if !IsNcrOf(db, c.vid, id) then db.ncrs else db.ncrs[id := NcrAfterUpdate(db.ncrs[id], c.request)]
    case NcrPhoto(id, path) =>
      if !IsNcrOf(db, c.vid, id) then db.ncrs else db.ncrs[id := db.ncrs[id].(photos := db.ncrs[id].photos + [path])]
    case VerifyNcr(id, close) =>
      if !IsNcrOf(db, c.vid, id) then db.ncrs
      else if close then db.ncrs[id := db.ncrs[id].(status := Closed, closedBy := Some(UserOf(c.actor)))]
      else db.ncrs[id := db.ncrs[id].(status := Open)]
    case _ => db.ncrs
  }

  function UserOf(a: Actor): Id {
    match a case Owner(_, user) => user case Auditor(id) => id
  }

  function Apply(db: Db, c: Call): Db
    requires c.vid in db.visits
  {
    Db(VisitsAfter(db, c), ItemsAfter(db, c), NcrsAfter(db, c))
  }

  /** Requests that write their visit's row and nothing else. */
  predicate WritesRowOnly(r: Request) {
    r.UpdateVisit? || r.Assign? || r.SetStatus? || r.AcceptReport? || r.GenerateReport? || r.Signature? || r.SaveGps?
  }

  lemma RowOnly(db: Db, c: Call)
    requires c.vid in db.visits && WritesRowOnly(c.request)
    ensures Apply(db, c) == db.(visits := db.visits[c.vid := VisitAfter(db, c)])
  {
  }

  /** The two writers without a lock: a new visit, and a business adding evidence to its own NCR. */
  function AfterCreate(db: Db, id: Id, business: Id, provider: Id, template: Option<Id>, kind: string, date: int,
                       location: string, notes: string): Db {
    if id in db.visits then db
    else db.(visits := db.visits[id := NewVisit(business, provider, None, template, kind, date, location, notes)])
  }

  function AfterEvidence(db: Db, id: Id, business: Id, path: string): Db {
    if id in db.ncrs && db.ncrs[id].visit in db.visits && db.visits[db.ncrs[id].visit].business == business
    then db.(ncrs := db.ncrs[id := db.ncrs[id].(evidence := db.ncrs[id].evidence + [path], status := InReview)])
    else db
  }

  // ---------------------------------------------------------------- what is frozen

  datatype NcrCore = NcrCore(item: Option<Id>, description: string, severity: Severity, deadline: Option<int>)

  /** Everything about a visit except its status, its acceptance and the follow-up of its NCRs. */
  datatype Evidence = Evidence(visit: Visit, items: map<Id, Item>, ncrs: map<Id, NcrCore>)

  function Masked(v: Visit): Visit {
    v.(status := Scheduled, acceptedBy := None)
  }

  function Core(n: Ncr): NcrCore {
    NcrCore(n.item, n.description, n.severity, n.deadline)
  }

  function NcrCoresOf(db: Db, vid: Id): map<Id, NcrCore> {
    map n | n in db.ncrs && db.ncrs[n].visit == vid :: Core(db.ncrs[n])
  }

  function EvidenceOf(db: Db, vid: Id): Evidence
    requires vid in db.visits
  {
    Evidence(Masked(db.visits[vid]), ItemsOf(db, vid), NcrCoresOf(db, vid))
  }

  // ---------------------------------------------------------------- one request

  lemma {:induction false} InsertedItems(items: map<Id, Item>, vid: Id, questions: seq<string>, firstId: Id, n: nat)
    requires n <= |questions|
    ensures forall i :: i in Inserted(items, vid, questions, firstId, n) <==> i in items || firstId <= i < firstId + n
    ensures forall i | i in Inserted(items, vid, questions, firstId, n) ::
              Inserted(items, vid, questions, firstId, n)[i]
              == if firstId <= i < firstId + n then Blank(vid, questions[i - firstId]) else items[i]
  {
    if n > 0 {
      InsertedItems(items, vid, questions, firstId, n - 1);
    }
  }

  /** Which requests are admitted, written out by actor, by request and by the status of the visit. */
  lemma AdmittedIff(db: Db, c: Call)
    ensures Admitted(db, c) <==>
              && c.vid in db.visits
              && var v, r := db.visits[c.vid], c.request;
                 var open := v.status in {Scheduled, InProgress, Completed};
                 var ownersOnly := r.UpdateVisit? || r.DeleteVisit? || r.Assign? || r.AcceptReport? || r.FollowUp?;
                 var auditorsOnly := r.GenerateReport? || r == SetStatus(ReportSubmitted);
                 var always := || r.SetStatus? || r.AcceptReport? || r.NcrPhoto? || r.VerifyNcr? || r.FollowUp?
                               || (r.UpdateNcr? && r.newDescription.None? && r.newSeverity.None? && r.newDeadline.None?);
                 && (if c.actor.Owner? then v.provider == c.actor.provider && !auditorsOnly
                     else v.auditor == Some(c.actor.id) && !ownersOnly)
                 && (open || always)
  {
  }

  /** No template, an NCR that points at an item of the visit, or a taken id. */
  predicate CannotPopulate(db: Db, c: Call)
    requires c.vid in db.visits && c.request.Populate?
  {
    || db.visits[c.vid].template.None? || c.request.questions.None?
    || (exists n | n in db.ncrs :: && db.ncrs[n].item.Some? && db.ncrs[n].item.value in db.items
                                   && db.items[db.ncrs[n].item.value].visit == c.vid)
    || (exists i | i in db.items :: c.request.firstId <= i < c.request.firstId + |c.request.questions.value|)
  }

  lemma RefusedPopulateKeepsAll(db: Db, c: Call)
    requires Admitted(db, c) && c.request.Populate? && CannotPopulate(db, c)
    ensures Apply(db, c) == db
  {
    assert db.visits[c.vid := db.visits[c.vid]] == db.visits;
  }

  /** The items of the visit are gone, blank items with the questions are there, and all others are as they were. */
  ghost predicate Replaced(before: map<Id, Item>, after: map<Id, Item>, vid: Id, firstId: Id, questions: seq<string>) {
    && (forall i :: i in after && after[i].visit == vid <==> firstId <= i < firstId + |questions|)
    && (forall i | 0 <= i < |questions| :: firstId + i in after && after[firstId + i] == Item(vid, questions[i], None, map[], []))
    && (forall i :: i in after && after[i].visit != vid <==> i in before && before[i].visit != vid)
    && (forall i | i in before && before[i].visit != vid :: after[i] == before[i])
  }

  lemma {:induction false} InsertedReplaces(items: map<Id, Item>, vid: Id, firstId: Id, questions: seq<string>)
    requires forall i | i in items :: !(firstId <= i < firstId + |questions|)
    ensures Replaced(items, Inserted(ItemsExcept(items, vid), vid, questions, firstId, |questions|), vid, firstId, questions)
  {
    InsertedItems(ItemsExcept(items, vid), vid, questions, firstId, |questions|);
  }

  /** Replacing a checklist: afterwards the visit's items are the template's, all blank, and the old ones are gone. */
  lemma {:induction false} PopulateReplaces(db: Db, c: Call)
    requires Admitted(db, c) && c.request.Populate? && !CannotPopulate(db, c)
    ensures Apply(db, c).visits == db.visits && Apply(db, c).ncrs == db.ncrs
    ensures Replaced(db.items, Apply(db, c).items, c.vid, c.request.firstId, c.request.questions.value)
  {
    assert db.visits[c.vid := db.visits[c.vid]] == db.visits;
    InsertedReplaces(db.items, c.vid, c.request.firstId, c.request.questions.value);
  }

  /**
   A status is taken over exactly when the visit is open and the status is an open one, or
   the visit is completed and its auditor submits it; completing a visit with items scores it.
   */
  lemma StatusAnswers(db: Db, c: Call)
    requires Admitted(db, c) && c.request.SetStatus?
    ensures var v, next, status := db.visits[c.vid], Apply(db, c), c.request.status;
            var taken := if status.ReportSubmitted? then v.status.Completed?
                         else status in {Scheduled, InProgress, Completed} && v.status in {Scheduled, InProgress, Completed};
            var scored := status.Completed? && exists i :: i in db.items && db.items[i].visit == c.vid;
            && next.items == db.items && next.ncrs == db.ncrs && next.visits.Keys == db.visits.Keys
            && (forall o :: o in db.visits && o != c.vid ==> next.visits[o] == db.visits[o])
            && next.visits[c.vid] == v.(status := if taken then status else v.status,
                                        score := if taken && scored then Some(CompletionScore(ResultsOf(db, c.vid))) else v.score)
  {
    if i :| i in db.items && db.items[i].visit == c.vid {
      assert i in ItemsOf(db, c.vid);
    }
  }

  /** The owner accepts exactly a submitted report, on record with the owner's user. */
  lemma AcceptAnswers(db: Db, c: Call)
    requires Admitted(db, c) && c.request.AcceptReport?
    ensures c.actor.Owner?
    ensures var v, next := db.visits[c.vid], Apply(db, c);
            next == if v.status == ReportSubmitted
                    then db.(visits := db.visits[c.vid := v.(status := ReportAccepted, acceptedBy := Some(c.actor.user))]) else db
  {
    assert db.visits[c.vid := db.visits[c.vid]] == db.visits;
  }

  /** An update of a visit writes the fields that are given; an assignment takes effect for a cleared auditor. */
  lemma UpdateAndAssignAnswer(db: Db, c: Call)
    requires Admitted(db, c) && (c.request.UpdateVisit? || c.request.Assign?)
    ensures c.vid in Apply(db, c).visits && Apply(db, c) == db.(visits := db.visits[c.vid := Apply(db, c).visits[c.vid]])
    ensures var v, w, r := db.visits[c.vid], Apply(db, c).visits[c.vid], c.request;
            && (r.UpdateVisit? ==>
                  && w == v.(kind := w.kind, date := w.date, location := w.location, notes := w.notes)
                  && w.kind == (if r.newKind == "" then v.kind else r.newKind)
                  && (if r.newDate.Some? then Some(w.date) == r.newDate else w.date == v.date)
                  && (if r.newLocation.Some? then Some(w.location) == r.newLocation else w.location == v.location)
                  && (if r.newNotes.Some? then Some(w.notes) == r.newNotes else w.notes == v.notes))
            && (r.Assign? ==> w == v.(auditor := if r.cleared then Some(r.auditor) else v.auditor))
  {
  }

  /** A report is stored with its score and submits the visit; a signature and a GPS record go into the field they are for. */
  lemma ReportSignatureGpsAnswer(db: Db, c: Call)
    requires Admitted(db, c) && (c.request.GenerateReport? || c.request.Signature? || c.request.SaveGps?)
    ensures c.vid in Apply(db, c).visits && Apply(db, c) == db.(visits := db.visits[c.vid := Apply(db, c).visits[c.vid]])
    ensures var v, w, r := db.visits[c.vid], Apply(db, c).visits[c.vid], c.request;
            && (r.GenerateReport? ==>
                  w == v.(report := Some(r.path), status := ReportSubmitted, score := Some(ReportScore(v.score, ResultsOf(db, c.vid)))))
            && (r.Signature? ==> if r.byAuditor then w == v.(auditorSignature := Some(r.path)) else w == v.(businessSignature := Some(r.path)))
            && (r.SaveGps? ==> if r.atStart then w == v.(startGps := Some(r.gps)) else w == v.(endGps := Some(r.gps)))
  {
  }

  /**
   Deleting a visit takes its row, items and NCRs, and is refused unless the visit is
   scheduled and no NCR of another visit points at its items.
   */
  lemma DeleteAnswers(db: Db, c: Call)
    requires Admitted(db, c) && c.request.DeleteVisit?
    ensures var next := Apply(db, c);
            if && db.visits[c.vid].status == Scheduled
               && forall n | n in db.ncrs && db.ncrs[n].visit != c.vid && db.ncrs[n].item.Some? && db.ncrs[n].item.value in db.items ::
                    db.items[db.ncrs[n].item.value].visit != c.vid
            then
              && next.visits == (map v | v in db.visits && v != c.vid :: db.visits[v])
              && next.items == (map i | i in db.items && db.items[i].visit != c.vid :: db.items[i])
              && next.ncrs == (map n | n in db.ncrs && db.ncrs[n].visit != c.vid :: db.ncrs[n])
            else next == db
  {
  }

  /** A follow-up is a new scheduled visit of the same parties and template, and leaves the old one alone. */
  lemma FollowUpAnswers(db: Db, c: Call)
    requires Admitted(db, c) && c.request.FollowUp?
    ensures var v, next, id := db.visits[c.vid], Apply(db, c), c.request.id;
            if id in db.visits then next == db
            else next == db.(visits := db.visits[id := Visit(v.business, v.provider, v.auditor, v.template, "renewal", c.request.date,
                                                             c.request.location, c.request.notes, Scheduled, None, None, None, None,
                                                             None, None, None)])
  {
  }

  predicate IsItemRequest(r: Request) {
    r.AddItem? || r.DeleteItem? || r.UpdateItem? || r.ItemPhoto?
  }

  /** The requests on one item write no row, no NCR and no other item; of an item of another visit, nothing. */
  lemma ItemRequestsWriteOneItem(db: Db, c: Call)
    requires Admitted(db, c) && IsItemRequest(c.request)
    ensures var next, id := Apply(db, c), c.request.id;
            && next.visits == db.visits && next.ncrs == db.ncrs
            && (forall i :: i != id ==> (i in next.items <==> i in db.items))
            && (forall i :: i != id && i in db.items ==> next.items[i] == db.items[i])
            && (!c.request.AddItem? && !(id in db.items && db.items[id].visit == c.vid) ==> next == db)
  {
    assert db.visits[c.vid := db.visits[c.vid]] == db.visits;
  }

  /** An added item is blank; an item is deleted exactly when it is the visit's own and no NCR points at it. */
  lemma AddAndDeleteItem(db: Db, c: Call)
    requires Admitted(db, c)
    ensures c.request.AddItem? ==>
              var next, id := Apply(db, c).items, c.request.id;
              id in next && next[id] == if id in db.items then db.items[id] else Item(c.vid, c.request.question, None, map[], [])
    ensures c.request.DeleteItem? && c.request.id in db.items ==>
              var next, id := Apply(db, c).items, c.request.id;
              && (id !in next <==> db.items[id].visit == c.vid && forall n | n in db.ncrs :: db.ncrs[n].item != Some(id))
              && (id in next ==> next[id] == db.items[id])
  {
  }

  /** An update writes the result if one is given, the remarks that are given, and no other field; a photo is added at the end. */
  lemma UpdateItemAnswers(db: Db, c: Call)
    requires Admitted(db, c) && (c.request.UpdateItem? || c.request.ItemPhoto?)
    requires c.request.id in db.items && db.items[c.request.id].visit == c.vid
    ensures c.request.id in Apply(db, c).items
    ensures var r, old', new' := c.request, db.items[c.request.id], Apply(db, c).items[c.request.id];
            && (r.UpdateItem? ==>
                  && new' == old'.(result := new'.result, remarks := new'.remarks)
                  && (if r.result.Some? then r.result == Some(new'.result) else new'.result == old'.result)
                  && new'.remarks.Keys == old'.remarks.Keys + r.remarks.Keys
                  && (forall k | k in new'.remarks :: new'.remarks[k] == if k in r.remarks then r.remarks[k] else old'.remarks[k]))
            && (r.ItemPhoto? ==> new' == old'.(photos := old'.photos + [r.path]))
  {
  }

  predicate IsNcrRequest(r: Request) {
    r.CreateNcr? || r.UpdateNcr? || r.NcrPhoto? || r.VerifyNcr?
  }

  /** The requests on one NCR write no row, no item and no other NCR; of an NCR of another visit, nothing. */
  lemma NcrRequestsWriteOneNcr(db: Db, c: Call)
    requires Admitted(db, c) && IsNcrRequest(c.request)
    ensures var next, id := Apply(db, c), c.request.id;
            && next.visits == db.visits && next.items == db.items
            && (forall n :: n != id ==> (n in next.ncrs <==> n in db.ncrs))
            && (forall n :: n != id && n in db.ncrs ==> next.ncrs[n] == db.ncrs[n])
            && (!c.request.CreateNcr? && !(id in db.ncrs && db.ncrs[id].visit == c.vid) ==> next == db)
  {
    assert db.visits[c.vid := db.visits[c.vid]] == db.visits;
  }

  /** A new NCR is open, without photos and evidence; its item, if it names one, must exist. */
  lemma CreateNcrAnswers(db: Db, c: Call)
    requires Admitted(db, c) && c.request.CreateNcr?
    ensures var next, r := Apply(db, c).ncrs, c.request;
            next == if r.id in db.ncrs || (r.item.Some? && r.item.value !in db.items) then db.ncrs
                    else db.ncrs[r.id := Ncr(c.vid, r.item, r.description, r.severity, r.deadline, r.action, Open, [], [], None)]
  {
  }

  /** An update of an NCR of the visit writes the fields that are given, a photo is added at the end, a verification closes or reopens it. */
  lemma NcrAnswers(db: Db, c: Call)
    requires Admitted(db, c) && (c.request.UpdateNcr? || c.request.NcrPhoto? || c.request.VerifyNcr?)
    requires c.request.id in db.ncrs && db.ncrs[c.request.id].visit == c.vid
    ensures c.request.id in Apply(db, c).ncrs
    ensures var r, n, m := c.request, db.ncrs[c.request.id], Apply(db, c).ncrs[c.request.id];
            && (r.UpdateNcr? ==> UpdatedNcr(n, m, r))
            && (r.NcrPhoto? ==> m == n.(photos := n.photos + [r.path]))
            && (r.VerifyNcr? && r.close ==> m == n.(status := Closed, closedBy := Some(if c.actor.Owner? then c.actor.user else c.actor.id)))
            && (r.VerifyNcr? && !r.close ==> m == n.(status := Open))
  {
  }

  /** Each field of the request that is given is written, and no other; an empty deadline does not clear the old one. */
  predicate UpdatedNcr(n: Ncr, m: Ncr, r: Request)
    requires r.UpdateNcr?
  {
    && m.visit == n.visit && m.item == n.item && m.photos == n.photos && m.evidence == n.evidence && m.closedBy == n.closedBy
    && (if r.newDescription.Some? then r.newDescription == Some(m.description) else m.description == n.description)
    && (if r.newSeverity.Some? then r.newSeverity == Some(m.severity) else m.severity == n.severity)
    && (if r.newAction.Some? then r.newAction == Some(m.correctiveAction) else m.correctiveAction == n.correctiveAction)
    && (if r.newStatus.Some? then r.newStatus == Some(m.status) else m.status == n.status)
    && (match r.newDeadline
        case Some(Some(day)) => m.deadline == Some(day)
        case _ => m.deadline == n.deadline)
  }

  lemma PopulateKeepsOthers(items: map<Id, Item>, vid: Id, questions: seq<string>, firstId: Id, other: Id)
    requires other != vid && !Clash(items, firstId, |questions|)
    ensures var next := Inserted(ItemsExcept(items, vid), vid, questions, firstId, |questions|);
            ItemsIn(next, other) == ItemsIn(items, other)
  {
    InsertedItems(ItemsExcept(items, vid), vid, questions, firstId, |questions|);
  }

  /** A request leaves the items of other visits alone. */
  lemma OtherItemsKept(db: Db, c: Call, other: Id)
    requires c.vid in db.visits && other != c.vid
    ensures ItemsOf(Apply(db, c), other) == ItemsOf(db, other)
  {
    if c.request.Populate? {
      if c.request.questions.Some? && !Clash(db.items, c.request.firstId, |c.request.questions.value|) {
        PopulateKeepsOthers(db.items, c.vid, c.request.questions.value, c.request.firstId, other);
      }
    }
  }

  lemma OtherNcrsKept(db: Db, c: Call, other: Id)
    requires c.vid in db.visits && other != c.vid
    ensures NcrCoresOf(Apply(db, c), other) == NcrCoresOf(db, other)
  {
  }

  /** A request leaves other visits alone, row, items and NCRs. */
  lemma OtherVisitsKept(db: Db, c: Call, other: Id)
    requires c.vid in db.visits && other != c.vid && other in db.visits
    ensures other in Apply(db, c).visits && Apply(db, c).visits[other] == db.visits[other]
    ensures EvidenceOf(Apply(db, c), other) == EvidenceOf(db, other)
  {
    OtherItemsKept(db, c, other);
    OtherNcrsKept(db, c, other);
  }

  lemma FrozenNcrs(db: Db, c: Call)
    requires Admitted(db, c) && Final(db.visits[c.vid].status)
    ensures NcrCoresOf(Apply(db, c), c.vid) == NcrCoresOf(db, c.vid)
  {
  }

  /** An admitted request on a submitted visit leaves all its evidence alone; at most it accepts the report. */
  lemma FrozenVisitKept(db: Db, c: Call)
    requires Admitted(db, c) && Final(db.visits[c.vid].status)
    ensures c.vid in Apply(db, c).visits
    ensures EvidenceOf(Apply(db, c), c.vid) == EvidenceOf(db, c.vid)
    ensures Apply(db, c).visits[c.vid].status == db.visits[c.vid].status
            || (db.visits[c.vid].status.ReportSubmitted? && Apply(db, c).visits[c.vid].status.ReportAccepted? && c.request.AcceptReport?)
  {
    FrozenNcrs(db, c);
    assert Apply(db, c).items == db.items;
  }

  // ---------------------------------------------------------------- sessions

  datatype State = State(db: Db, held: map<Id, Call>)

  datatype Step =
    | Begin(call: Call)
    | Commit(vid: Id)
    | Abort(vid: Id)
    | CreateVisit(id: Id, business: Id, provider: Id, template: Option<Id>, kind: string, date: int, location: string, notes: string)
    | UploadEvidence(ncr: Id, business: Id, path: string)

  /** A refused or waiting request changes nothing. */
  function Next(s: State, step: Step): State {
    match step
    case Begin(c) =>
      if c.vid !in s.held && Admitted(s.db, c) then s.(held := s.held[c.vid := c]) else s
    case Commit(vid) =>
      if vid in s.held && s.held[vid].vid in s.db.visits
      then State(Apply(s.db, s.held[vid]), s.held - {vid}) else s
    case Abort(vid) => s.(held := s.held - {vid})
    case CreateVisit(id, business, provider, template, kind, date, location, notes) =>
      s.(db := AfterCreate(s.db, id, business, provider, template, kind, date, location, notes))
    case UploadEvidence(ncr, business, path) => s.(db := AfterEvidence(s.db, ncr, business, path))
  }

  /** A commit writes what its request writes and gives up the lock, a beginning request takes a free lock, and neither it nor an abort writes anything. */
  lemma StepAnswers(s: State, step: Step)
    requires Inv(s)
    ensures var next := Next(s, step);
            && (step.Begin? ==>
                  && next.db == s.db
                  && next.held == if step.call.vid in s.held || !Admitted(s.db, step.call) then s.held else s.held[step.call.vid := step.call])
            && (step.Commit? ==>
                  && next.db == (if step.vid in s.held then Apply(s.db, s.held[step.vid]) else s.db)
                  && next.held == (map v | v in s.held && v != step.vid :: s.held[v]))
            && (step.Abort? ==> next.db == s.db && next.held == (map v | v in s.held && v != step.vid :: s.held[v]))
            && (step.CreateVisit? || step.UploadEvidence? ==> next.held == s.held)
  {
    if step.Commit? && step.vid !in s.held {
      assert s.held == (map v | v in s.held && v != step.vid :: s.held[v]);
    }
  }

  /** A new visit is scheduled and unassigned; creating it takes no lock and writes nothing else. */
  lemma CreateVisitAnswers(s: State, id: Id, business: Id, provider: Id, template: Option<Id>, kind: string, date: int, location: string, notes: string)
    ensures var visit := Visit(business, provider, None, template, kind, date, location, notes, Scheduled,
                               None, None, None, None, None, None, None);
            Next(s, CreateVisit(id, business, provider, template, kind, date, location, notes))
            == if id in s.db.visits then s else State(Db(s.db.visits[id := visit], s.db.items, s.db.ncrs), s.held)
  {
  }

  /** Evidence is added at the end, by the business of the NCR's visit, and puts the NCR under review; nothing else is written. */
  lemma EvidenceAnswers(s: State, id: Id, business: Id, path: string)
    ensures var next := Next(s, UploadEvidence(id, business, path));
            if id in s.db.ncrs && s.db.ncrs[id].visit in s.db.visits && s.db.visits[s.db.ncrs[id].visit].business == business
            then
              var n := s.db.ncrs[id];
              next == State(Db(s.db.visits, s.db.items, s.db.ncrs[id := n.(evidence := n.evidence + [path], status := InReview)]), s.held)
            else next == s
  {
  }

  function Run(s: State, steps: seq<Step>): State {
    if steps == [] then s else Next(Run(s, steps[..|steps| - 1]), steps[|steps| - 1])
  }

  /** What a lock holder checked still holds, whatever has run since. */
  ghost predicate Inv(s: State) {
    forall v | v in s.held :: s.held[v].vid == v && Admitted(s.db, s.held[v])
  }

  lemma StepKeepsInv(s: State, step: Step)
    requires Inv(s)
    ensures Inv(Next(s, step))
  {
  }

  /** In every interleaving the checks of a request still hold when it commits. */
  lemma {:induction false} RunKeepsInv(s: State, steps: seq<Step>)
    requires Inv(s)
    ensures Inv(Run(s, steps))
  {
    if steps != [] {
      RunKeepsInv(s, steps[..|steps| - 1]);
      StepKeepsInv(Run(s, steps[..|steps| - 1]), steps[|steps| - 1]);
    }
  }

  lemma UnlockedWritersKeepEvidence(db: Db, ncr: Id, business: Id, path: string, vid: Id)
    requires vid in db.visits
    ensures EvidenceOf(AfterEvidence(db, ncr, business, path), vid) == EvidenceOf(db, vid)
  {
  }

  predicate FrozenIn(db: Db, vid: Id) {
    vid in db.visits && Final(db.visits[vid].status)
  }

  /** No step changes the evidence of a submitted visit, and none takes it out of the final states. */
  lemma StepKeepsFrozen(s: State, step: Step, vid: Id)
    requires Inv(s) && FrozenIn(s.db, vid)
    ensures FrozenIn(Next(s, step).db, vid)
    ensures EvidenceOf(Next(s, step).db, vid) == EvidenceOf(s.db, vid)
    ensures s.db.visits[vid].status.ReportAccepted? ==> Next(s, step).db.visits[vid] == s.db.visits[vid]
  {
    match step {
      case Commit(v) =>
        if v in s.held {
          if v == vid {
            FrozenVisitKept(s.db, s.held[v]);
          } else {
            OtherVisitsKept(s.db, s.held[v], vid);
          }
        }
      case UploadEvidence(ncr, business, path) =>
        UnlockedWritersKeepEvidence(s.db, ncr, business, path, vid);
      case _ =>
    }
  }

  // ---------------------------------------------------------------- theorems

  /**
   In every interleaving, from the moment a visit is committed as submitted its items,
   score, report, signatures, GPS records, assignment, and the set, description, severity
   and deadline of its NCRs never change; an accepted visit's row never changes again.
   */
  lemma {:induction false} EvidenceIsFrozen(s: State, steps: seq<Step>, vid: Id)
    requires Inv(s) && FrozenIn(s.db, vid)
    ensures FrozenIn(Run(s, steps).db, vid)
    ensures EvidenceOf(Run(s, steps).db, vid) == EvidenceOf(s.db, vid)
    ensures s.db.visits[vid].status.ReportAccepted? ==> Run(s, steps).db.visits[vid] == s.db.visits[vid]
  {
    if steps != [] {
      EvidenceIsFrozen(s, steps[..|steps| - 1], vid);
      RunKeepsInv(s, steps[..|steps| - 1]);
      StepKeepsFrozen(Run(s, steps[..|steps| - 1]), steps[|steps| - 1], vid);
    }
  }

  predicate HasStatus(db: Db, vid: Id, status: Status) {
    vid in db.visits && db.visits[vid].status == status
  }

  /** A visit becomes accepted only by its owner accepting a submitted report. */
  lemma AcceptedOnlyFromSubmitted(s: State, step: Step, vid: Id)
    requires Inv(s) && !HasStatus(s.db, vid, ReportAccepted) && HasStatus(Next(s, step).db, vid, ReportAccepted)
    ensures HasStatus(s.db, vid, ReportSubmitted)
    ensures step == Commit(vid) && vid in s.held && s.held[vid].request.AcceptReport?
    ensures s.held[vid].actor.Owner? && s.db.visits[vid].provider == s.held[vid].actor.provider
  {
    if step.Commit? && step.vid in s.held && step.vid != vid && vid in s.db.visits {
      OtherVisitsKept(s.db, s.held[step.vid], vid);
    }
  }

  /** A report is submitted only by the auditor assigned when it commits, with a PDF, or from a completed visit. */
  lemma SubmittedByAssignedAuditor(s: State, step: Step, vid: Id)
    requires Inv(s) && !HasStatus(s.db, vid, ReportSubmitted) && HasStatus(Next(s, step).db, vid, ReportSubmitted)
    ensures step == Commit(vid) && vid in s.held && vid in s.db.visits
    ensures s.held[vid].actor.Auditor? && s.db.visits[vid].auditor == Some(s.held[vid].actor.id)
    ensures Next(s, step).db.visits[vid].report.Some? || HasStatus(s.db, vid, Completed)
  {
  }

  /** A visit disappears only while it is merely scheduled, at the hands of its owner. */
  lemma DeletedOnlyWhenScheduled(s: State, step: Step, vid: Id)
    requires Inv(s) && vid in s.db.visits && vid !in Next(s, step).db.visits
    ensures HasStatus(s.db, vid, Scheduled) && step == Commit(vid) && s.held[vid].request.DeleteVisit? && s.held[vid].actor.Owner?
  {
  }

  predicate ScoreInRange(v: Visit) {
    v.score.Some? ==> 0 <= v.score.value <= 100
  }

  ghost predicate ScoresInRange(db: Db) {
    forall v | v in db.visits :: ScoreInRange(db.visits[v])
  }

  lemma VisitAfterInRange(db: Db, c: Call)
    requires c.vid in db.visits && ScoreInRange(db.visits[c.vid])
    ensures ScoreInRange(VisitAfter(db, c))
  {
    ScoresCompare(ResultsOf(db, c.vid));
  }

  /** In every run stored scores lie in 0..100, so the CHECK on the column never refuses a request. */
  lemma {:induction false} ScoresStayInRange(s: State, steps: seq<Step>)
    requires ScoresInRange(s.db)
    ensures ScoresInRange(Run(s, steps).db)
  {
    if steps != [] {
      var before, step := Run(s, steps[..|steps| - 1]), steps[|steps| - 1];
      ScoresStayInRange(s, steps[..|steps| - 1]);
      if step.Commit? && step.vid in before.held && before.held[step.vid].vid in before.db.visits {
        VisitAfterInRange(before.db, before.held[step.vid]);
      }
    }
  }

  /** The lock is what makes it so: a result checked before the submission and written after it changes the evidence. */
  lemma LateItemUpdateWouldThaw(v: Visit, vid: Id, item: Item, id: Id, auditor: Id)
    requires v.auditor == Some(auditor) && v.status.Completed? && item.visit == vid && item.result == Some(MajorNc)
    ensures var db := Db(map[vid := v], map[id := item], map[]);
            var update := Call(Auditor(auditor), vid, UpdateItem(id, Some(Some(Conform)), map[]));
            var submitted := Apply(db, Call(Auditor(auditor), vid, SetStatus(ReportSubmitted)));
            && Admitted(db, update) && FrozenIn(submitted, vid) && !Admitted(submitted, update)
            && EvidenceOf(Apply(submitted, update), vid) != EvidenceOf(submitted, vid)
  {
  }

  // ---------------------------------------------------------------- requests that do not overlap

  /** One request at a time: the access check, then the writes of the request. */
  function Handled(db: Db, c: Call): Db {
    if Admitted(db, c) then Apply(db, c) else db
  }

  function HandledAll(db: Db, calls: seq<Call>): Db {
    if calls == [] then db else Handled(HandledAll(db, calls[..|calls| - 1]), calls[|calls| - 1])
  }

  /** Each call begins and ends before the next begins; a refused call holds no lock to give up. */
  function Serial(calls: seq<Call>): seq<Step> {
    if calls == [] then []
    else Serial(calls[..|calls| - 1]) + [Begin(calls[|calls| - 1]), Commit(calls[|calls| - 1].vid)]
  }

  lemma RunTwoMore(s: State, steps: seq<Step>, x: Step, y: Step)
    ensures Run(s, steps + [x, y]) == Next(Next(Run(s, steps), x), y)
  {
    var all := steps + [x, y];
    assert all[..|all| - 1] == steps + [x] && (steps + [x])[..|steps|] == steps;
  }

  lemma {:induction false} SerialRunsAreHandled(s: State, calls: seq<Call>)
    requires s.held == map[]
    ensures Run(s, Serial(calls)) == State(HandledAll(s.db, calls), map[])
  {
    if calls != [] {
      var c := calls[|calls| - 1];
      SerialRunsAreHandled(s, calls[..|calls| - 1]);
      RunTwoMore(s, Serial(calls[..|calls| - 1]), Begin(c), Commit(c.vid));
      assert map[c.vid := c] - {c.vid} == map[];
    }
  }

  // ---------------------------------------------------------------- the score of a report

  /** Commits that store another score for the visit, or delete it. */
  predicate Rescores(s: State, step: Step, vid: Id) {
    step == Commit(vid) && vid in s.held &&
    var r := s.held[vid].request;
    (r.SetStatus? && r.status.Completed?) || r.GenerateReport? || r.DeleteVisit?
  }

  predicate WritesItems(s: State, step: Step, vid: Id) {
    step == Commit(vid) && vid in s.held &&
    var r := s.held[vid].request;
    r.Populate? || r.AddItem? || r.DeleteItem? || r.UpdateItem? || r.DeleteVisit?
  }

  ghost predicate NeverRescored(s: State, steps: seq<Step>, vid: Id) {
    forall i | 0 <= i < |steps| :: !Rescores(Run(s, steps[..i]), steps[i], vid)
  }

  ghost predicate ItemsNeverWritten(s: State, steps: seq<Step>, vid: Id) {
    forall i | 0 <= i < |steps| :: !WritesItems(Run(s, steps[..i]), steps[i], vid)
  }

  lemma StepKeepsScore(s: State, step: Step, vid: Id)
    requires Inv(s) && vid in s.db.visits && !Rescores(s, step, vid)
    ensures vid in Next(s, step).db.visits && Next(s, step).db.visits[vid].score == s.db.visits[vid].score
  {
    if step.Commit? && step.vid in s.held && step.vid != vid {
      OtherVisitsKept(s.db, s.held[step.vid], vid);
    }
  }

  lemma StepKeepsResults(s: State, step: Step, vid: Id)
    requires Inv(s) && !WritesItems(s, step, vid)
    ensures ResultsOf(Next(s, step).db, vid) == ResultsOf(s.db, vid)
  {
    if step.Commit? && step.vid in s.held {
      var next := Next(s, step).db;
      if step.vid != vid {
        OtherItemsKept(s.db, s.held[step.vid], vid);
        assert ItemsOf(next, vid) == ItemsOf(s.db, vid);
      }
      SameItemsSameResults(s.db, next, vid);
    }
  }

  lemma SameItemsSameResults(a: Db, b: Db, vid: Id)
    ensures ItemsOf(a, vid) == ItemsOf(b, vid) ==> ResultsOf(a, vid) == ResultsOf(b, vid)
  {
    assert forall db: Db :: ResultsOf(db, vid) == map i | i in ItemsOf(db, vid) :: ItemsOf(db, vid)[i].result;
  }

  lemma {:induction false} NeverRescoredPrefix(s: State, steps: seq<Step>, vid: Id, n: nat)
    requires n < |steps| && NeverRescored(s, steps, vid)
    ensures NeverRescored(s, steps[..n], vid) && !Rescores(Run(s, steps[..n]), steps[n], vid)
  {
    forall i | 0 <= i < n ensures !Rescores(Run(s, steps[..n][..i]), steps[..n][i], vid) {
      assert steps[..n][..i] == steps[..i];
    }
  }

  lemma {:induction false} StoredScoreStays(s: State, steps: seq<Step>, vid: Id)
    requires Inv(s) && vid in s.db.visits && NeverRescored(s, steps, vid)
    ensures vid in Run(s, steps).db.visits && Run(s, steps).db.visits[vid].score == s.db.visits[vid].score
  {
    if steps != [] {
      var n := |steps| - 1;
      NeverRescoredPrefix(s, steps, vid, n);
      StoredScoreStays(s, steps[..n], vid);
      RunKeepsInv(s, steps[..n]);
      StepKeepsScore(Run(s, steps[..n]), steps[n], vid);
    }
  }

  lemma {:induction false} ItemsNeverWrittenPrefix(s: State, steps: seq<Step>, vid: Id, n: nat)
    requires n < |steps| && ItemsNeverWritten(s, steps, vid)
    ensures ItemsNeverWritten(s, steps[..n], vid) && !WritesItems(Run(s, steps[..n]), steps[n], vid)
  {
    forall i | 0 <= i < n ensures !WritesItems(Run(s, steps[..n][..i]), steps[..n][i], vid) {
      assert steps[..n][..i] == steps[..i];
    }
  }

  lemma {:induction false} ResultsStay(s: State, steps: seq<Step>, vid: Id)
    requires Inv(s) && ItemsNeverWritten(s, steps, vid)
    ensures ResultsOf(Run(s, steps).db, vid) == ResultsOf(s.db, vid)
  {
    if steps != [] {
      var n := |steps| - 1;
      ItemsNeverWrittenPrefix(s, steps, vid, n);
      ResultsStay(s, steps[..n], vid);
      RunKeepsInv(s, steps[..n]);
      StepKeepsResults(Run(s, steps[..n]), steps[n], vid);
    }
  }

  /** Completing a visit that is not final stores the score of its checklist, unless that is empty. */
  lemma CompletionStoresItsScore(db: Db, c: Call)
    requires Admitted(db, c) && c.request == SetStatus(Completed) && !Final(db.visits[c.vid].status)
    ensures ItemsOf(db, c.vid) != map[] ==>
              Apply(db, c).visits[c.vid].score == Some(CompletionScore(ResultsOf(db, c.vid)))
    ensures ResultsOf(Apply(db, c), c.vid) == ResultsOf(db, c.vid)
  {
  }

  /** What a report writes is what the checklist it reports comes to. */
  predicate ReportIsCurrent(db: Db, c: Call)
    requires Admitted(db, c)
  {
    c.vid in Apply(db, c).visits && Apply(db, c).visits[c.vid].score == Some(CompletionScore(ResultsOf(db, c.vid)))
  }

  /** Exactly when an admitted report is current, by the score it finds stored. */
  lemma ReportIsCurrentByStoredScore(db: Db, c: Call)
    requires Admitted(db, c) && c.request.GenerateReport?
    ensures var stored, rs := db.visits[c.vid].score, ResultsOf(db, c.vid);
            ReportIsCurrent(db, c) <==>
              if stored.Some? && stored.value != 0 then stored.value == CompletionScore(rs)
              else Answered(rs) == {} || Percent(|Passed(rs)|, |Applicable(rs)|) == Percent(|Passed(rs)|, |Answered(rs)|)
  {
    ReportIsCurrentIff(db.visits[c.vid].score, ResultsOf(db, c.vid));
  }

  /**
   Exactly when a report is current, by what has happened since the visit's score was
   stored: the checklist then and the checklist now must come to the same score, or, when
   it was zero, answered and applicable items must.  It always is when no item was written.
   */
  lemma {:induction false} ReportIsCurrentSinceCompletionIff(s: State, steps: seq<Step>, c: Call)
    requires Inv(s) && c.vid in s.db.visits && NeverRescored(s, steps, c.vid)
    requires s.db.visits[c.vid].score == Some(CompletionScore(ResultsOf(s.db, c.vid)))
    requires c.request.GenerateReport? && Admitted(Run(s, steps).db, c)
    ensures var db, earlier := Run(s, steps).db, CompletionScore(ResultsOf(s.db, c.vid));
            var now := ResultsOf(db, c.vid);
            && (ReportIsCurrent(db, c) <==>
                  if earlier != 0 then earlier == CompletionScore(now)
                  else Answered(now) == {} || Percent(|Passed(now)|, |Applicable(now)|) == Percent(|Passed(now)|, |Answered(now)|))
            && (ItemsNeverWritten(s, steps, c.vid) ==> ReportIsCurrent(db, c))
  {
    StoredScoreStays(s, steps, c.vid);
    ReportIsCurrentByStoredScore(Run(s, steps).db, c);
    ReportIsCurrentIff(Run(s, steps).db.visits[c.vid].score, ResultsOf(Run(s, steps).db, c.vid));
    if ItemsNeverWritten(s, steps, c.vid) {
      ResultsStay(s, steps, c.vid);
    }
  }

  /** A database of one visit with one item. */
  function OneItem(vid: Id, v: Visit, id: Id, item: Item): Db {
    Db(map[vid := v], map[id := item], map[])
  }

  lemma CompleteOne(vid: Id, v: Visit, id: Id, item: Item, a: Actor)
    requires InScope(v, a) && v.status.InProgress? && item.visit == vid && item.result == Some(Conform)
    ensures Handled(OneItem(vid, v, id, item), Call(a, vid, SetStatus(Completed)))
            == OneItem(vid, v.(status := Completed, score := Some(100)), id, item)
  {
    var db := OneItem(vid, v, id, item);
    OneItemScores(id);
    assert id in ItemsOf(db, vid);
    assert ResultsOf(db, vid) == map[id := Some(Conform)];
  }

  lemma ChangeOne(vid: Id, v: Visit, id: Id, item: Item, a: Actor, answer: Answer)
    requires InScope(v, a) && v.status.Completed? && item.visit == vid
    ensures Handled(OneItem(vid, v, id, item), Call(a, vid, UpdateItem(id, Some(Some(answer)), map[])))
            == OneItem(vid, v, id, item.(result := Some(answer)))
  {
    assert item.remarks + map[] == item.remarks;
  }

  lemma SubmitOne(vid: Id, v: Visit, id: Id, item: Item, a: Actor, path: string)
    requires InScope(v, a) && a.Auditor? && v.status.Completed? && v.score.Some? && v.score.value != 0
    ensures Handled(OneItem(vid, v, id, item), Call(a, vid, GenerateReport(path)))
            == OneItem(vid, v.(status := ReportSubmitted, report := Some(path)), id, item)
  {
  }

  /**
   An auditor completes a visit with its one item conforming, changes the item to a major
   non-conformity, which a completed visit still admits, and submits: the report shows 100
   for a checklist that comes to 0.
   */
  lemma StaleScoreIsReported(v: Visit, vid: Id, item: Item, id: Id, auditor: Id, path: string)
    requires v.auditor == Some(auditor) && v.status.InProgress? && item.visit == vid && item.result == Some(Conform)
    ensures var complete := Call(Auditor(auditor), vid, SetStatus(Completed));
            var change := Call(Auditor(auditor), vid, UpdateItem(id, Some(Some(MajorNc)), map[]));
            var submit := Call(Auditor(auditor), vid, GenerateReport(path));
            var end := Run(State(OneItem(vid, v, id, item), map[]), Serial([complete, change, submit])).db;
            && vid in end.visits && end.visits[vid].status.ReportSubmitted? && end.visits[vid].score == Some(100)
            && CompletionScore(ResultsOf(end, vid)) == 0
  {
    var a := Auditor(auditor);
    var complete, change := Call(a, vid, SetStatus(Completed)), Call(a, vid, UpdateItem(id, Some(Some(MajorNc)), map[]));
    var submit := Call(a, vid, GenerateReport(path));
    SerialRunsAreHandled(State(OneItem(vid, v, id, item), map[]), [complete, change, submit]);
    HandledThree(OneItem(vid, v, id, item), complete, change, submit);
    var done := v.(status := Completed, score := Some(100));
    var bad := item.(result := Some(MajorNc));
    CompleteOne(vid, v, id, item, a);
    ChangeOne(vid, done, id, item, a, MajorNc);
    SubmitOne(vid, done, id, bad, a, path);
    OneItemScores(id);
    assert ResultsOf(OneItem(vid, done.(status := ReportSubmitted, report := Some(path)), id, bad), vid) == map[id := Some(MajorNc)];
  }

  lemma HandledThree(db: Db, a: Call, b: Call, c: Call)
    ensures HandledAll(db, [a, b, c]) == Handled(Handled(Handled(db, a), b), c)
  {
    assert [a, b, c][..2] == [a, b] && [a, b][..1] == [a] && [a][..0] == [];
    assert HandledAll(db, []) == db;
    assert HandledAll(db, [a]) == Handled(db, a);
    assert HandledAll(db, [a, b]) == Handled(Handled(db, a), b);
  }

  // ---------------------------------------------------------------- the routes

  lemma RefusedStatus(db: Db, vid: Id, a: Actor, status: Status)
    requires || vid !in db.visits || !InScope(db.visits[vid], a) || status.ReportAccepted? || (status.ReportSubmitted? && a.Owner?)
             || (if status.ReportSubmitted? then !db.visits[vid].status.Completed? else Final(db.visits[vid].status))
    ensures Handled(db, Call(a, vid, SetStatus(status))) == db
  {
    if vid in db.visits {
      assert db.visits[vid := db.visits[vid]] == db.visits;
    }
  }

  lemma AcceptedStatus(db: Db, vid: Id, a: Actor, status: Status)
    requires vid in db.visits && InScope(db.visits[vid], a) && !status.ReportAccepted?
    requires if status.ReportSubmitted? then a.Auditor? && db.visits[vid].status.Completed? else !Final(db.visits[vid].status)
    ensures var score := if status.Completed? && ItemsIn(db.items, vid) != map[]
                         then Some(CompletionScore(ResultsIn(db.items, vid))) else db.visits[vid].score;
            Handled(db, Call(a, vid, SetStatus(status)))
            == Db(db.visits[vid := db.visits[vid].(status := status, score := score)], db.items, db.ncrs)
  {
  }

  class AuditStore {
    var visits: map<Id, Visit>
    var items: map<Id, Item>
    var ncrs: map<Id, Ncr>

    function Value(): Db
      reads this
    {
      Db(visits, items, ncrs)
    }

    constructor ()
      ensures Value() == Db(map[], map[], map[])
    {
      visits, items, ncrs := map[], map[], map[];
    }

    /** `_require_visit_access` for a provider principal. */
    method RequireVisitAccess(vid: Id, a: Actor, mutable: bool, assignedOnly: bool) returns (ok: bool)
      ensures ok <==> && vid in visits && InScope(visits[vid], a)
                      && (mutable ==> !Final(visits[vid].status)) && (assignedOnly ==> a.Auditor?)
    {
      if assignedOnly && a.Owner? {
        return false;
      }
      if vid !in visits || !InScope(visits[vid], a) {
        return false;
      }
      if mutable && (visits[vid].status.ReportSubmitted? || visits[vid].status.ReportAccepted?) {
        return false;
      }
      return true;
    }

    /** The score computed when a visit is completed: none for an empty checklist. */
    method ChecklistScore(vid: Id) returns (score: Option<int>)
      ensures score == if ItemsIn(items, vid) == map[] then None else Some(CompletionScore(ResultsIn(items, vid)))
    {
      var mine := map i | i in items && items[i].visit == vid :: items[i].result;
      assert mine == ResultsIn(items, vid);
      assert mine.Keys == ItemsIn(items, vid).Keys;
      if mine == map[] {
        return None;
      }
      var answered := set i | i in mine && mine[i].Some? && mine[i] != Some(NotApplicable);
      var passed := set i | i in answered && mine[i] == Some(Conform);
      assert answered == Answered(mine) && passed == Passed(mine);
      return Some(if answered != {} then Percent(|passed|, |answered|) else 0);
    }

    method UpdateVisitStatus(vid: Id, a: Actor, status: Status)
      modifies this
      ensures Value() == old(Handled(Value(), Call(a, vid, SetStatus(status))))
    {
      var ok := RequireVisitAccess(vid, a, false, false);
      if !ok || status.ReportAccepted? || (status.ReportSubmitted? && a.Owner?) {
        RefusedStatus(Value(), vid, a, status);
        return;
      }
      var current := visits[vid].status;
      var guarded := if status.ReportSubmitted? then current == Completed else current != ReportAccepted && current != ReportSubmitted;
      if !guarded {
        RefusedStatus(Value(), vid, a, status);
        return;
      }
      AcceptedStatus(Value(), vid, a, status);
      visits := visits[vid := visits[vid].(status := status)];
      if status.Completed? {
        var score := ChecklistScore(vid);
        if score.Some? {
          visits := visits[vid := visits[vid].(score := score)];
        }
      }
    }

    method AcceptSubmittedReport(vid: Id, a: Actor)
      modifies this
      ensures Value() == old(Handled(Value(), Call(a, vid, AcceptReport)))
    {
      if a.Auditor? {
        return;
      }
      var ok := RequireVisitAccess(vid, a, false, false);
      assert ok ==> visits[vid := visits[vid]] == visits;
      if !ok || visits[vid].status != ReportSubmitted {
        return;
      }
      visits := visits[vid := visits[vid].(status := ReportAccepted, acceptedBy := Some(a.user))];
    }

    method PopulateChecklist(vid: Id, a: Actor, questions: Option<seq<string>>, firstId: Id)
      modifies this
      ensures Value() == old(Handled(Value(), Call(a, vid, Populate(questions, firstId))))
    {
      var ok := RequireVisitAccess(vid, a, true, false);
      assert ok ==> visits[vid := visits[vid]] == visits;
      if !ok || visits[vid].template.None? || questions.None? {
        return;
      }
      // a foreign key or primary key violation rolls the whole request back
      if ItemsReferenced(Value(), vid) || Clash(items, firstId, |questions.value|) {
        return;
      }
      items := map i | i in items && items[i].visit != vid :: items[i];
      ghost var others := items;
      for n := 0 to |questions.value|
        invariant visits == old(visits) && ncrs == old(ncrs)
        invariant items == Inserted(others, vid, questions.value, firstId, n)
      {
        items := items[firstId + n := Item(vid, questions.value[n], None, map[], [])];
      }
    }

    /** The score a report shows. */
    method ReportedScore(vid: Id, stored: Option<int>) returns (score: int)
      ensures score == ReportScore(stored, ResultsIn(items, vid))
    {
      var mine := map i | i in items && items[i].visit == vid :: items[i].result;
      var conform := set i | i in mine && mine[i] == Some(Conform);
      var na := set i | i in mine && mine[i] == Some(NotApplicable);
      var answered := |mine| - |na|;
      ApplicableCount(mine);
      assert mine == ResultsIn(items, vid) && conform == Passed(mine) && na == MarkedNa(mine);
      return if stored.Some? && stored.value != 0 then stored.value
             else if answered > 0 then Percent(|conform|, answered) else 0;
    }

    method GenerateVisitReport(vid: Id, a: Actor, path: string)
      modifies this
      ensures Value() == old(Handled(Value(), Call(a, vid, GenerateReport(path))))
    {
      var ok := RequireVisitAccess(vid, a, true, true);
      if !ok {
        return;
      }
      RowOnly(Value(), Call(a, vid, GenerateReport(path)));
      var score := ReportedScore(vid, visits[vid].score);
      visits := visits[vid := visits[vid].(report := Some(path), status := ReportSubmitted, score := Some(score))];
    }

    method UpdateNonConformity(vid: Id, a: Actor, r: Request)
      requires r.UpdateNcr?
      modifies this
      ensures Value() == old(Handled(Value(), Call(a, vid, r)))
    {
      var ok := RequireVisitAccess(vid, a, false, false);
      assert ok ==> visits[vid := visits[vid]] == visits;
      if !ok || !IsNcrOf(Value(), vid, r.id) {
        return;
      }
      if r.newDescription.Some? || r.newSeverity.Some? || r.newDeadline.Some? {
        ok := RequireVisitAccess(vid, a, true, false);
        if !ok {
          return;
        }
      }
      var n := ncrs[r.id];
      if r.newDescription.Some? {
        n := n.(description := r.newDescription.value);
      }
      if r.newSeverity.Some? {
        n := n.(severity := r.newSeverity.value);
      }
      if r.newAction.Some? {
        n := n.(correctiveAction := r.newAction.value);
      }
      if r.newStatus.Some? {
        n := n.(status := r.newStatus.value);
      }
      if r.newDeadline.Some? && r.newDeadline.value.Some? {
        n := n.(deadline := r.newDeadline.value);
      }
      ncrs := ncrs[r.id := n];
    }
  }
}
