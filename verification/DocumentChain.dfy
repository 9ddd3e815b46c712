/**
 Document approval and version chains: `backend/auth/document_router.py`, with the
 triggers and constraints of migrations 017 and 051.

 Each request is one atomic step, except in the last two sections, where the checks of
 submit, approve, reject and supersede run before their UPDATEs, as they do in the source.  The
 checks of a deletion are repeated by triggers and foreign keys when its DELETE runs.
 */
module DocumentChain {
  import opened Common
  import opened Links

  datatype Approval = Draft | PendingApproval | Approved | Obsolete

  datatype Doc = Doc(
    tenant: nat, approval: Approval, version: int,
    parent: Option<Id>, supersededBy: Option<Id>,
    artifact: bool)  // an official artifact row references the document

  type Docs = map<Id, Doc>

  const RETENTION_FLOOR_DAYS := 1825

  datatype Request =
    | Upload(tenant: nat, id: Id)
    | Submit(tenant: nat, id: Id)
      // `stored` is false when the official artifact cannot be created
    | Approve(tenant: nat, id: Id, effective: int, nextReview: int, retention: int, stored: bool)
    | Reject(tenant: nat, id: Id)
      // `reconciled` is false when re-selecting the current version fails
    | Supersede(tenant: nat, previous: Id, replacement: Id, reconciled: bool)
      // `referenced` when another table's foreign key blocks the row
    | Delete(tenant: nat, id: Id, referenced: bool)

  datatype Result =
    | Done(docs: Docs)
    | NotFound        // 404
    | Conflict        // 409
    | Unprocessable   // 422
    | Failed          // 500, transaction rolled back

  predicate InTenant(docs: Docs, tenant: nat, id: Id) {
    id in docs && docs[id].tenant == tenant
  }

  /** The first UPDATE; its trigger makes a row obsolete when it gets its first successor. */
  function SetSuccessor(docs: Docs, previous: Id, replacement: Id): Docs
    requires previous in docs
  {
    docs[previous := docs[previous].(supersededBy := Some(replacement),
                           approval := if docs[previous].supersededBy.None? then Obsolete else docs[previous].approval)]
  }

  /** Both UPDATEs of a supersede; `readVersion` is the old row's version as read by the checks. */
  function WriteSupersede(docs: Docs, previous: Id, replacement: Id, readVersion: int): Docs
    requires previous in docs && replacement in docs
  {
    var linked := SetSuccessor(docs, previous, replacement);
    linked[replacement := linked[replacement].(parent := Some(previous),
                                               version := (if readVersion == 0 then 1 else readVersion) + 1)]
  }

  predicate HasChild(docs: Docs, id: Id) {
    exists c :: c in docs && docs[c].parent == Some(id)
  }

  /** Deleting a row nulls the successor links that point at it. */
  function WithoutDoc(docs: Docs, id: Id): Docs {
    map d | d in docs && d != id ::
      if docs[d].supersededBy == Some(id) then docs[d].(supersededBy := None) else docs[d]
  }

  function Handle(docs: Docs, r: Request): Result {
    match r
    case Upload(tenant, id) =>
      if id in docs then Failed else Done(docs[id := Doc(tenant, Draft, 1, None, None, false)])
    case Submit(tenant, id) =>
      if !InTenant(docs, tenant, id) then NotFound
      else if docs[id].approval != Draft then Conflict
      else Done(docs[id := docs[id].(approval := PendingApproval)])
    case Approve(tenant, id, effective, nextReview, retention, stored) =>
      if !InTenant(docs, tenant, id) then NotFound
      else if docs[id].approval != PendingApproval then Conflict
      else if retention < RETENTION_FLOOR_DAYS || nextReview < effective then Unprocessable
      else if !stored then Failed
      else Done(docs[id := docs[id].(approval := Approved, artifact := true)])
    case Reject(tenant, id) =>
      if !InTenant(docs, tenant, id) then NotFound
      else if docs[id].approval != PendingApproval then Conflict
      else Done(docs[id := docs[id].(approval := Draft)])
    case Supersede(tenant, previous, replacement, reconciled) =>
      if previous == replacement then Unprocessable
      else if !InTenant(docs, tenant, previous) then NotFound
      else if docs[previous].approval != Approved then Conflict
      else if !InTenant(docs, tenant, replacement) then NotFound
      else if docs[replacement].approval != Approved then Conflict
      else if !reconciled then Failed
      else Done(WriteSupersede(docs, previous, replacement, docs[previous].version))
    case Delete(tenant, id, referenced) =>
      if !InTenant(docs, tenant, id) then NotFound
      else if docs[id].artifact || HasChild(docs, id) || referenced then Conflict
      else Done(WithoutDoc(docs, id))
  }

  // ---------------------------------------------------------------- what each request answers

  /** A new document is a draft of version 1, in no chain and without artifact. */
  lemma UploadAnswers(docs: Docs, tenant: nat, id: Id)
    ensures Handle(docs, Upload(tenant, id))
            == if id in docs then Failed else Done(docs[id := Doc(tenant, Draft, 1, None, None, false)])
  {
  }

  /** Submit takes a draft to review and reject takes it back; the document must be the tenant's and in that state. */
  lemma SubmitAndRejectAnswer(docs: Docs, tenant: nat, id: Id)
    ensures var submit, reject := Handle(docs, Submit(tenant, id)), Handle(docs, Reject(tenant, id));
            if id !in docs || docs[id].tenant != tenant then submit == NotFound && reject == NotFound
            else
              && submit == (if docs[id].approval == Draft then Done(docs[id := docs[id].(approval := PendingApproval)]) else Conflict)
              && reject == (if docs[id].approval == PendingApproval then Done(docs[id := docs[id].(approval := Draft)]) else Conflict)
  {
  }

  /**
   An approval needs a pending document of the tenant, retention for five years, and a
   review no earlier than the effective date; it ends with the artifact, or not at all.
   */
  lemma ApproveAnswers(docs: Docs, tenant: nat, id: Id, effective: int, nextReview: int, retention: int, stored: bool)
    ensures var r := Handle(docs, Approve(tenant, id, effective, nextReview, retention, stored));
            var mine := id in docs && docs[id].tenant == tenant;
            var datesOk := retention >= 1825 && effective <= nextReview;
            && (r == NotFound <==> !mine)
            && (r == Conflict <==> mine && docs[id].approval != PendingApproval)
            && (r == Unprocessable <==> mine && docs[id].approval == PendingApproval && !datesOk)
            && (r == Failed <==> mine && docs[id].approval == PendingApproval && datesOk && !stored)
            && (r.Done? ==> r.docs == docs[id := docs[id].(approval := Approved, artifact := true)])
  {
  }

  /**
   A supersede needs two approved documents of the tenant, of which the old one is looked
   at first.  The old one ends obsolete with its successor, the new one as its child and
   one version up, and no other document changes.
   */
  lemma SupersedeAnswers(docs: Docs, tenant: nat, a: Id, b: Id, reconciled: bool)
    ensures var r := Handle(docs, Supersede(tenant, a, b, reconciled));
            var oldOk := a in docs && docs[a].tenant == tenant && docs[a].approval == Approved;
            var newMine := b in docs && docs[b].tenant == tenant;
            && (r == Unprocessable <==> a == b)
            && (r == NotFound <==> a != b && (a !in docs || docs[a].tenant != tenant || (oldOk && !newMine)))
            && (r == Conflict <==> && a != b && a in docs && docs[a].tenant == tenant
                                   && (docs[a].approval != Approved || (newMine && docs[b].approval != Approved)))
            && (r == Failed <==> a != b && oldOk && newMine && docs[b].approval == Approved && !reconciled)
            && (r.Done? ==>
                  && r.docs.Keys == docs.Keys && (forall d :: d in docs && d != a && d != b ==> r.docs[d] == docs[d])
                  && r.docs[a] == docs[a].(supersededBy := Some(b), approval := r.docs[a].approval)
                  && (docs[a].supersededBy.None? ==> r.docs[a].approval == Obsolete)
                  && (docs[a].supersededBy.Some? ==> r.docs[a].approval == Approved)
                  && r.docs[b] == docs[b].(parent := Some(a), version := if docs[a].version == 0 then 2 else docs[a].version + 1))
  {
  }

  /** A deletion is refused for an artifact, a child or a reference; otherwise the row goes, and links to it are nulled. */
  lemma DeleteAnswers(docs: Docs, tenant: nat, id: Id, referenced: bool)
    ensures var r := Handle(docs, Delete(tenant, id, referenced));
            var mine := id in docs && docs[id].tenant == tenant;
            var held := mine && (docs[id].artifact || referenced || exists c :: c in docs && docs[c].parent == Some(id));
            && (r == NotFound <==> !mine) && (r == Conflict <==> held) && r != Unprocessable && r != Failed
            && (r.Done? ==>
                  && (forall d :: d in r.docs <==> d in docs && d != id)
                  && (forall d | d in r.docs ::
                        if docs[d].supersededBy == Some(id) then r.docs[d] == docs[d].(supersededBy := None) else r.docs[d] == docs[d]))
  {
  }

  function After(docs: Docs, r: Request): Docs {
    var result := Handle(docs, r);
    if result.Done? then result.docs else docs
  }

  function Run(start: Docs, requests: seq<Request>): Docs {
    if requests == [] then start
    else After(Run(start, requests[..|requests| - 1]), requests[|requests| - 1])
  }

  /** The documents table, changed in place by the routes. */
  class DocumentStore {
    var docs: Docs

    constructor ()
      ensures docs == map[] && ChainInv(docs)
    {
      docs := map[];
      assert Stamped(map[], map[]);
    }

    method SupersedeDocument(tenant: nat, previous: Id, replacement: Id, reconciled: bool) returns (r: Result)
      modifies this
      ensures r == old(Handle(docs, Supersede(tenant, previous, replacement, reconciled)))
      ensures docs == old(After(docs, Supersede(tenant, previous, replacement, reconciled)))
    {
      if previous == replacement {
        return Unprocessable;
      }
      if !InTenant(docs, tenant, previous) {
        return NotFound;
      }
      var oldRow := docs[previous];
      if oldRow.approval != Approved {
        return Conflict;
      }
      if !InTenant(docs, tenant, replacement) {
        return NotFound;
      }
      if docs[replacement].approval != Approved {
        return Conflict;
      }
      var saved := docs;
      docs := SetSuccessor(docs, previous, replacement);
      var nextVersion := (if oldRow.version == 0 then 1 else oldRow.version) + 1;
      docs := docs[replacement := docs[replacement].(parent := Some(previous), version := nextVersion)];
      if !reconciled {
        docs := saved;
        return Failed;
      }
      return Done(docs);
    }

    method DeleteDocument(tenant: nat, id: Id, referenced: bool) returns (r: Result)
      modifies this
      ensures r == old(Handle(docs, Delete(tenant, id, referenced)))
      ensures docs == old(After(docs, Delete(tenant, id, referenced)))
    {
      if !InTenant(docs, tenant, id) {
        return NotFound;
      }
      if docs[id].artifact || HasChild(docs, id) || referenced {
        return Conflict;
      }
      docs := WithoutDoc(docs, id);
      return Done(docs);
    }

    /** Submit, approve and reject change one row's approval. */
    method ChangeApproval(r: Request) returns (result: Result)
      requires r.Submit? || r.Approve? || r.Reject?
      modifies this
      ensures result == old(Handle(docs, r))
      ensures docs == old(After(docs, r))
    {
      if !InTenant(docs, r.tenant, r.id) {
        return NotFound;
      }
      if docs[r.id].approval != if r.Submit? then Draft else PendingApproval {
        return Conflict;
      }
      match r {
        case Submit(_, id) => docs := docs[id := docs[id].(approval := PendingApproval)];
        case Reject(_, id) => docs := docs[id := docs[id].(approval := Draft)];
        case Approve(_, id, effective, nextReview, retention, stored) =>
          if retention < RETENTION_FLOOR_DAYS || nextReview < effective {
            return Unprocessable;
          }
          var saved := docs;
          docs := docs[id := docs[id].(approval := Approved)];
          if !stored {
            docs := saved;
            return Failed;
          }
          docs := docs[id := docs[id].(artifact := true)];
      }
      return Done(docs);
    }
  }

  // ---------------------------------------------------------------- the invariant

  predicate EverApproved(d: Doc) {
    d.approval.Approved? || d.approval.Obsolete?
  }

  ghost predicate DocOk(docs: Docs, d: Id)
    requires d in docs
  {
    var doc := docs[d];
    && doc.version >= 1
    && (EverApproved(doc) ==> doc.artifact)
    && (doc.approval.Obsolete? <==> doc.supersededBy.Some?)
    && (doc.supersededBy.Some? ==>
          var q := doc.supersededBy.value;
          q in docs && docs[q].tenant == doc.tenant && EverApproved(docs[q]))
    && (doc.parent.Some? ==>
          var p := doc.parent.value;
          && p in docs && EverApproved(doc)
          && docs[p].supersededBy == Some(d)
          && doc.version == docs[p].version + 1)
  }

  /** The time at which a document became obsolete, as an order only. */
  ghost predicate Stamped(docs: Docs, stamp: map<Id, nat>) {
    forall d :: d in docs && docs[d].approval.Obsolete? ==>
      && d in stamp
      && (docs[d].supersededBy.Some? ==>
            var q := docs[d].supersededBy.value;
            q in docs && (docs[q].approval.Obsolete? ==> q in stamp && stamp[d] < stamp[q]))
  }

  ghost predicate ChainInv(docs: Docs) {
    && (forall d :: d in docs ==> DocOk(docs, d))
    && exists stamp :: Stamped(docs, stamp)
  }

  lemma {:induction false} Above(stamp: map<Id, nat>, keys: set<Id>) returns (top: nat)
    requires keys <= stamp.Keys
    ensures forall d :: d in keys ==> stamp[d] < top
    decreases keys
  {
    if keys == {} {
      top := 0;
    } else {
      var d :| d in keys;
      top := Above(stamp, keys - {d});
      top := if stamp[d] < top then top else stamp[d] + 1;
    }
  }

  lemma SupersedeKeepsDocs(docs: Docs, tenant: nat, previous: Id, replacement: Id)
    requires forall d :: d in docs ==> DocOk(docs, d)
    requires Handle(docs, Supersede(tenant, previous, replacement, true)).Done?
    ensures var next := After(docs, Supersede(tenant, previous, replacement, true));
            forall d :: d in next ==> DocOk(next, d)
  {
  }

  lemma DeleteKeepsDocs(docs: Docs, tenant: nat, id: Id)
    requires forall d :: d in docs ==> DocOk(docs, d)
    requires Handle(docs, Delete(tenant, id, false)).Done?
    ensures var next := After(docs, Delete(tenant, id, false));
            && (forall d :: d in next ==> DocOk(next, d) && next[d] == docs[d])
  {
  }

  lemma SupersedeKeepsStamps(docs: Docs, stamp: map<Id, nat>, tenant: nat, previous: Id, replacement: Id)
    requires (forall d :: d in docs ==> DocOk(docs, d)) && Stamped(docs, stamp)
    requires Handle(docs, Supersede(tenant, previous, replacement, true)).Done?
    ensures exists stamp' :: Stamped(After(docs, Supersede(tenant, previous, replacement, true)), stamp')
  {
    var next := After(docs, Supersede(tenant, previous, replacement, true));
    var top := Above(stamp, stamp.Keys);
    var stamp' := stamp[previous := top];
    assert forall d :: d in docs && d != previous ==> next[d].approval == docs[d].approval && next[d].supersededBy == docs[d].supersededBy;
    assert Stamped(next, stamp');
  }

  lemma ApprovalStepKeepsInv(docs: Docs, r: Request)
    requires ChainInv(docs) && Handle(docs, r).Done?
    requires r.Upload? || r.Submit? || r.Approve? || r.Reject?
    ensures ChainInv(After(docs, r))
  {
    var next := After(docs, r);
    forall d | d in next ensures DocOk(next, d) {
      if d in docs {
        assert DocOk(docs, d);
      }
    }
    var stamp :| Stamped(docs, stamp);
    assert Stamped(next, stamp);
  }

  /** Every request, accepted or refused, keeps the chain invariant. */
  lemma StepKeepsInv(docs: Docs, r: Request)
    requires ChainInv(docs)
    ensures ChainInv(After(docs, r))
  {
    var stamp :| Stamped(docs, stamp);
    if Handle(docs, r).Done? {
      match r {
        case Supersede(tenant, previous, replacement, _) =>
          SupersedeKeepsDocs(docs, tenant, previous, replacement);
          SupersedeKeepsStamps(docs, stamp, tenant, previous, replacement);
        case Delete(tenant, id, _) =>
          DeleteKeepsDocs(docs, tenant, id);
          assert Stamped(After(docs, r), stamp);
        case _ =>
          ApprovalStepKeepsInv(docs, r);
      }
    }
  }

  lemma {:induction false} RunKeepsInv(start: Docs, requests: seq<Request>)
    requires ChainInv(start)
    ensures ChainInv(Run(start, requests))
  {
    if requests != [] {
      RunKeepsInv(start, requests[..|requests| - 1]);
      StepKeepsInv(Run(start, requests[..|requests| - 1]), requests[|requests| - 1]);
    }
  }

  // ---------------------------------------------------------------- theorems

  function SuccessorLinks(docs: Docs): map<Id, Id> {
    map d | d in docs && docs[d].supersededBy.Some? :: docs[d].supersededBy.value
  }

  function ParentLinks(docs: Docs): map<Id, Id> {
    map d | d in docs && docs[d].parent.Some? :: docs[d].parent.value
  }

  /**
   In every run: an approved document has neither child nor successor, no document has two
   children, and each child is one version above its parent.
   */
  lemma VersionsAreConsistent(start: Docs, requests: seq<Request>)
    requires ChainInv(start)
    ensures var docs := Run(start, requests);
            && (forall d :: d in docs && docs[d].approval.Approved? ==> !HasChild(docs, d) && docs[d].supersededBy.None?)
            && (forall c :: c in docs && docs[c].parent.Some? ==>
                  docs[c].parent.value in docs && docs[c].version == docs[docs[c].parent.value].version + 1)
            && (forall c, c' :: c in docs && c' in docs && docs[c].parent.Some? && docs[c].parent == docs[c'].parent ==> c == c')
  {
    RunKeepsInv(start, requests);
    var docs := Run(start, requests);
    assert forall d :: d in docs ==> DocOk(docs, d);
  }

  lemma {:induction false} SuccessorsAscend(docs: Docs, stamp: map<Id, nat>, p: seq<Id>)
    requires (forall d :: d in docs ==> DocOk(docs, d)) && Stamped(docs, stamp)
    requires IsPath(SuccessorLinks(docs), p) && |p| >= 2
    ensures p[0] in docs && p[|p| - 1] in docs && docs[p[0]].approval.Obsolete?
    ensures docs[p[|p| - 1]].approval.Obsolete? ==>
              p[0] in stamp && p[|p| - 1] in stamp && stamp[p[0]] < stamp[p[|p| - 1]]
  {
    assert (p[0], p[1]) in Edges(SuccessorLinks(docs)) && DocOk(docs, p[0]);
    if |p| > 2 {
      SubPath(SuccessorLinks(docs), p, 1, |p|);
      SuccessorsAscend(docs, stamp, p[1..]);
    }
  }

  lemma {:induction false} ParentsDescend(docs: Docs, stamp: map<Id, nat>, p: seq<Id>)
    requires (forall d :: d in docs ==> DocOk(docs, d)) && Stamped(docs, stamp)
    requires IsPath(ParentLinks(docs), p) && |p| >= 2
    ensures p[|p| - 1] in docs && docs[p[|p| - 1]].approval.Obsolete? && p[0] in docs && p[|p| - 1] in stamp
    ensures docs[p[0]].approval.Obsolete? ==> p[0] in stamp && stamp[p[|p| - 1]] < stamp[p[0]]
  {
    assert (p[0], p[1]) in Edges(ParentLinks(docs)) && DocOk(docs, p[0]) && DocOk(docs, p[1]);
    if |p| > 2 {
      SubPath(ParentLinks(docs), p, 1, |p|);
      ParentsDescend(docs, stamp, p[1..]);
    }
  }

  lemma InvMeansAcyclic(docs: Docs)
    requires ChainInv(docs)
    ensures Acyclic(SuccessorLinks(docs)) && Acyclic(ParentLinks(docs))
  {
    var stamp :| Stamped(docs, stamp);
    forall p | IsPath(SuccessorLinks(docs), p) && |p| >= 2 ensures p[0] != p[|p| - 1] {
      SuccessorsAscend(docs, stamp, p);
    }
    forall p | IsPath(ParentLinks(docs), p) && |p| >= 2 ensures p[0] != p[|p| - 1] {
      ParentsDescend(docs, stamp, p);
    }
  }

  /** In every run neither the parent links nor the successor links form a cycle. */
  lemma {:induction false} ChainsAreAcyclic(start: Docs, requests: seq<Request>)
    requires ChainInv(start)
    ensures Acyclic(SuccessorLinks(Run(start, requests))) && Acyclic(ParentLinks(Run(start, requests)))
  {
    RunKeepsInv(start, requests);
    InvMeansAcyclic(Run(start, requests));
  }

  /** Following successors ends at the current head, an approved document of the same tenant. */
  lemma {:induction false} HeadExists(docs: Docs, stamp: map<Id, nat>, top: nat, d: Id) returns (p: seq<Id>)
    requires (forall x :: x in docs ==> DocOk(docs, x)) && Stamped(docs, stamp)
    requires forall x :: x in stamp ==> stamp[x] < top
    requires d in docs && EverApproved(docs[d])
    ensures IsPath(SuccessorLinks(docs), p) && p[0] == d
    ensures p[|p| - 1] in docs && docs[p[|p| - 1]].approval.Approved? && docs[p[|p| - 1]].tenant == docs[d].tenant
    decreases if docs[d].approval.Obsolete? then top - stamp[d] else 0
  {
    if docs[d].approval.Approved? {
      p := [d];
    } else {
      assert DocOk(docs, d);
      var q := docs[d].supersededBy.value;
      p := HeadExists(docs, stamp, top, q);
      p := [d] + p;
    }
  }

  lemma EveryChainHasAHead(start: Docs, requests: seq<Request>, d: Id)
    requires ChainInv(start)
    requires d in Run(start, requests) && EverApproved(Run(start, requests)[d])
    ensures var docs := Run(start, requests);
            exists head :: && Leads(SuccessorLinks(docs), d, head)
                           && head in docs && docs[head].approval.Approved? && docs[head].tenant == docs[d].tenant
  {
    RunKeepsInv(start, requests);
    var docs := Run(start, requests);
    var stamp :| Stamped(docs, stamp);
    var top := Above(stamp, stamp.Keys);
    var p := HeadExists(docs, stamp, top, d);
    assert Leads(SuccessorLinks(docs), d, p[|p| - 1]);
  }

  lemma StepKeepsApproved(docs: Docs, r: Request, d: Id)
    requires ChainInv(docs) && d in docs && EverApproved(docs[d])
    ensures d in After(docs, r) && EverApproved(After(docs, r)[d])
    ensures docs[d].approval.Obsolete? ==> After(docs, r)[d].approval.Obsolete?
  {
  }

  /** Once approved, a document stays, approved or obsolete, through every later request. */
  lemma {:induction false} ApprovedIsForever(start: Docs, requests: seq<Request>, d: Id)
    requires ChainInv(start) && d in start && EverApproved(start[d])
    ensures d in Run(start, requests) && EverApproved(Run(start, requests)[d])
    ensures start[d].approval.Obsolete? ==> Run(start, requests)[d].approval.Obsolete?
  {
    if requests != [] {
      var n := |requests| - 1;
      ApprovedIsForever(start, requests[..n], d);
      RunKeepsInv(start, requests[..n]);
      StepKeepsApproved(Run(start, requests[..n]), requests[n], d);
    }
  }

  /** Deletion in general: only the artifact, a child or another table's reference protects a document, never its approval. */
  lemma DeletableIff(docs: Docs, tenant: nat, id: Id, referenced: bool)
    requires InTenant(docs, tenant, id)
    ensures id !in After(docs, Delete(tenant, id, referenced))
            <==> !docs[id].artifact && !HasChild(docs, id) && !referenced
  {
  }

  /** A row that the backfill of migration 017 marked approved has no artifact and can be deleted. */
  lemma BackfilledApprovalIsDeletable(tenant: nat, id: Id)
    ensures var docs := map[id := Doc(tenant, Approved, 1, None, None, false)];
            Handle(docs, Delete(tenant, id, false)) == Done(map[])
  {
  }

  // ---------------------------------------------------------------- checks before the transaction

  /**
   The checks of two supersede requests may both pass before either transaction runs.
   A is replaced by B and B by A: both end obsolete, each the other's successor and parent.
   */
  lemma InterleavedSupersedesMakeACycle(tenant: nat)
    ensures var docs := map[0 := Doc(tenant, Approved, 1, None, None, true), 1 := Doc(tenant, Approved, 1, None, None, true)];
            var end := WriteSupersede(WriteSupersede(docs, 0, 1, 1), 1, 0, 1);
            && ChainInv(docs)
            && Handle(docs, Supersede(tenant, 0, 1, true)).Done? && Handle(docs, Supersede(tenant, 1, 0, true)).Done?
            && !Acyclic(SuccessorLinks(end)) && !Acyclic(ParentLinks(end))
            && end[0].approval.Obsolete? && end[1].approval.Obsolete?
  {
    var docs := map[0 := Doc(tenant, Approved, 1, None, None, true), 1 := Doc(tenant, Approved, 1, None, None, true)];
    assert Stamped(docs, map[]);
    var end := WriteSupersede(WriteSupersede(docs, 0, 1, 1), 1, 0, 1);
    TwoLinksMakeACycle(SuccessorLinks(end), 0, 1);
    TwoLinksMakeACycle(ParentLinks(end), 0, 1);
  }

  lemma SupersedeRedirects(docs: Docs, previous: Id, replacement: Id, readVersion: int)
    requires previous in docs && replacement in docs && previous != replacement
    ensures var next := WriteSupersede(docs, previous, replacement, readVersion);
            && SuccessorLinks(next) == SuccessorLinks(docs)[previous := replacement]
            && ParentLinks(next) == ParentLinks(docs)[replacement := previous]
  {
  }

  /**
   Exactly when a late write keeps the chains acyclic, whatever else has committed since
   the checks: the replacement must not already lead to the old document by successors,
   nor the old one to the replacement by parents.
   */
  lemma LateSupersedeKeepsAcyclicIff(docs: Docs, previous: Id, replacement: Id, readVersion: int)
    requires previous in docs && replacement in docs && previous != replacement
    requires Acyclic(SuccessorLinks(docs)) && Acyclic(ParentLinks(docs))
    ensures var next := WriteSupersede(docs, previous, replacement, readVersion);
            && (Acyclic(SuccessorLinks(next)) <==> !Leads(SuccessorLinks(docs), replacement, previous))
            && (Acyclic(ParentLinks(next)) <==> !Leads(ParentLinks(docs), previous, replacement))
  {
    SupersedeRedirects(docs, previous, replacement, readVersion);
    RedirectKeepsAcyclicIff(SuccessorLinks(docs), previous, replacement);
    RedirectKeepsAcyclicIff(ParentLinks(docs), replacement, previous);
  }

  /** What a late write needs of the rows at its time: what the checks saw, as far as the invariant depends on it. */
  ghost predicate StillSupersedable(docs: Docs, previous: Id, replacement: Id, readVersion: int)
    requires previous in docs && replacement in docs
  {
    && docs[previous].artifact
    && docs[previous].tenant == docs[replacement].tenant
    && EverApproved(docs[replacement])
    && (if readVersion == 0 then 1 else readVersion) == docs[previous].version
    && (forall c :: c in docs && docs[c].parent == Some(previous) ==> c == replacement)
    && (HasChild(docs, replacement) ==> docs[replacement].version == docs[previous].version + 1)
    && !Leads(SuccessorLinks(docs), replacement, previous)
  }

  lemma ParentLeadsBack(docs: Docs, d: Id)
    requires d in docs && DocOk(docs, d) && docs[d].parent.Some?
    ensures Leads(SuccessorLinks(docs), docs[d].parent.value, d)
  {
    assert IsPath(SuccessorLinks(docs), [docs[d].parent.value, d]);
  }

  lemma LateSupersedeKeepsDocs(docs: Docs, previous: Id, replacement: Id, readVersion: int)
    requires previous in docs && replacement in docs && previous != replacement
    requires (forall d :: d in docs ==> DocOk(docs, d)) && StillSupersedable(docs, previous, replacement, readVersion)
    ensures var next := WriteSupersede(docs, previous, replacement, readVersion);
            forall d :: d in next ==> DocOk(next, d)
  {
    var next := WriteSupersede(docs, previous, replacement, readVersion);
    if docs[previous].parent.Some? {
      ParentLeadsBack(docs, previous);
    }
    forall d | d in next ensures DocOk(next, d) {
      assert DocOk(docs, d);
    }
  }

  /** A late supersede puts the documents that do not lead to `previous` after all others. */
  ghost function Restamped(docs: Docs, stamp: map<Id, nat>, previous: Id, top: nat): map<Id, nat> {
    map d | d in docs ::
      if d == previous then top
      else (if d in stamp then stamp[d] else 0) + if Leads(SuccessorLinks(docs), d, previous) then 0 else top + 1
  }

  lemma RestampedAscends(docs: Docs, stamp: map<Id, nat>, previous: Id, top: nat, d: Id)
    requires Stamped(docs, stamp) && forall x :: x in stamp ==> stamp[x] < top
    requires d in docs && DocOk(docs, d) && docs[d].approval.Obsolete? && d != previous && previous in docs
    ensures var q, stamp' := docs[d].supersededBy.value, Restamped(docs, stamp, previous, top);
            (docs[q].approval.Obsolete? || q == previous) ==> stamp'[d] < stamp'[q]
  {
    LeadsBeyond(SuccessorLinks(docs), d, previous);
    assert IsPath(SuccessorLinks(docs), [previous]);
  }

  /** The same at one document of the table after the write. */
  lemma RestampedAt(docs: Docs, stamp: map<Id, nat>, previous: Id, replacement: Id, top: nat, next: Docs, d: Id)
    requires previous in docs && replacement in docs && previous != replacement && d in docs && d in next
    requires next[d].supersededBy == (if d == previous then Some(replacement) else docs[d].supersededBy)
    requires DocOk(docs, d) && Stamped(docs, stamp) && forall x :: x in stamp ==> stamp[x] < top
    requires !Leads(SuccessorLinks(docs), replacement, previous) && (d == previous || docs[d].approval.Obsolete?)
    ensures var q, stamp' := next[d].supersededBy.value, Restamped(docs, stamp, previous, top);
            q in docs && (docs[q].approval.Obsolete? || q == previous ==> stamp'[d] < stamp'[q])
  {
    if d != previous {
      RestampedAscends(docs, stamp, previous, top, d);
    }
  }

  lemma LateSupersedeKeepsStamps(docs: Docs, stamp: map<Id, nat>, previous: Id, replacement: Id, readVersion: int)
    requires previous in docs && replacement in docs && previous != replacement
    requires (forall d :: d in docs ==> DocOk(docs, d)) && Stamped(docs, stamp)
    requires !Leads(SuccessorLinks(docs), replacement, previous)
    ensures exists stamp' :: Stamped(WriteSupersede(docs, previous, replacement, readVersion), stamp')
  {
    var next := WriteSupersede(docs, previous, replacement, readVersion);
    var top := Above(stamp, stamp.Keys);
    var stamp' := Restamped(docs, stamp, previous, top);
    ObsoleteAfterSupersede(docs, previous, replacement, readVersion);
    forall d | d in next && next[d].approval.Obsolete?
      ensures var q := next[d].supersededBy.value;
              q in next && (next[q].approval.Obsolete? ==> stamp'[d] < stamp'[q])
    {
      assert DocOk(docs, d);
      RestampedAt(docs, stamp, previous, replacement, top, next, d);
    }
    assert Stamped(next, stamp');
  }

  /** A late supersede makes no document but `previous` obsolete, and gives no other a successor. */
  lemma ObsoleteAfterSupersede(docs: Docs, previous: Id, replacement: Id, readVersion: int)
    requires previous in docs && replacement in docs && previous != replacement
    requires forall d :: d in docs ==> DocOk(docs, d)
    ensures var next := WriteSupersede(docs, previous, replacement, readVersion);
            && next.Keys == docs.Keys
            && (forall d :: d in next && next[d].approval.Obsolete? <==> d in docs && (d == previous || docs[d].approval.Obsolete?))
            && (forall d | d in next :: next[d].supersededBy == if d == previous then Some(replacement) else docs[d].supersededBy)
  {
    assert DocOk(docs, previous);
  }

  /** Exactly when a late write keeps the whole chain invariant, whatever has committed since the checks. */
  lemma LateSupersedeKeepsInvIff(docs: Docs, previous: Id, replacement: Id, readVersion: int)
    requires ChainInv(docs) && previous in docs && replacement in docs && previous != replacement
    ensures ChainInv(WriteSupersede(docs, previous, replacement, readVersion))
            <==> StillSupersedable(docs, previous, replacement, readVersion)
  {
    if StillSupersedable(docs, previous, replacement, readVersion) {
      var stamp :| Stamped(docs, stamp);
      LateSupersedeKeepsDocs(docs, previous, replacement, readVersion);
      LateSupersedeKeepsStamps(docs, stamp, previous, replacement, readVersion);
    }
    if ChainInv(WriteSupersede(docs, previous, replacement, readVersion)) {
      LateSupersedeNeedsReads(docs, previous, replacement, readVersion);
    }
  }

  lemma LateSupersedeNeedsReads(docs: Docs, previous: Id, replacement: Id, readVersion: int)
    requires ChainInv(docs) && previous in docs && replacement in docs && previous != replacement
    requires ChainInv(WriteSupersede(docs, previous, replacement, readVersion))
    ensures StillSupersedable(docs, previous, replacement, readVersion)
  {
    var next := WriteSupersede(docs, previous, replacement, readVersion);
    InvMeansAcyclic(docs);
    InvMeansAcyclic(next);
    LateSupersedeKeepsAcyclicIff(docs, previous, replacement, readVersion);
    assert DocOk(docs, previous) && DocOk(next, previous) && DocOk(next, replacement);
    forall c | c in docs
      ensures docs[c].parent == Some(previous) ==> c == replacement
      ensures docs[c].parent == Some(replacement) && c != previous ==> docs[replacement].version == docs[previous].version + 1
    {
      ChildrenStayOk(docs, previous, replacement, readVersion, c);
    }
    if docs[previous].parent.Some? {
      ParentLeadsBack(docs, previous);
    }
  }

  lemma ChildrenStayOk(docs: Docs, previous: Id, replacement: Id, readVersion: int, c: Id)
    requires previous in docs && replacement in docs && previous != replacement && c in docs
    requires var next := WriteSupersede(docs, previous, replacement, readVersion);
             DocOk(docs, c) && DocOk(next, c) && DocOk(next, replacement)
    ensures docs[c].parent == Some(previous) ==> c == replacement
    ensures docs[c].parent == Some(replacement) && c != previous && c != replacement ==> docs[replacement].version == docs[previous].version + 1
  {
  }

  function ThreeApproved(tenant: nat): Docs {
    var doc := Doc(tenant, Approved, 1, None, None, true);
    map[0 := doc, 1 := doc, 2 := doc]
  }

  lemma ReplacedTwice(tenant: nat)
    ensures var child := Doc(tenant, Approved, 2, Some(0), None, true);
            WriteSupersede(WriteSupersede(ThreeApproved(tenant), 0, 1, 1), 0, 2, 1)
            == map[0 := Doc(tenant, Obsolete, 1, None, Some(2), true), 1 := child, 2 := child]
  {
  }

  lemma SharedParent(docs: Docs, tenant: nat)
    requires var child := Doc(tenant, Approved, 2, Some(0), None, true);
             docs == map[0 := Doc(tenant, Obsolete, 1, None, Some(2), true), 1 := child, 2 := child]
    ensures Acyclic(SuccessorLinks(docs)) && Acyclic(ParentLinks(docs)) && !ChainInv(docs)
  {
    assert !DocOk(docs, 1);
    SingleLinksAreAcyclic(SuccessorLinks(docs));
    SingleLinksAreAcyclic(ParentLinks(docs));
  }

  /**
   Two supersedes of the same document may both pass their checks: 0 by 1 and 0 by 2.  No
   cycle arises, but both replacements end approved, at one version, as children of 0.
   */
  lemma InterleavedSupersedesShareAParent(tenant: nat)
    ensures var docs := ThreeApproved(tenant);
            var end := WriteSupersede(WriteSupersede(docs, 0, 1, 1), 0, 2, 1);
            && ChainInv(docs)
            && Handle(docs, Supersede(tenant, 0, 1, true)).Done? && Handle(docs, Supersede(tenant, 0, 2, true)).Done?
            && Acyclic(SuccessorLinks(end)) && Acyclic(ParentLinks(end)) && !ChainInv(end)
            && end[1] == end[2] == Doc(tenant, Approved, 2, Some(0), None, true)
  {
    assert Stamped(ThreeApproved(tenant), map[]);
    ReplacedTwice(tenant);
    SharedParent(WriteSupersede(WriteSupersede(ThreeApproved(tenant), 0, 1, 1), 0, 2, 1), tenant);
  }

  /** If both rows are still approved and the version read is current, the late write is the atomic request. */
  lemma LateSupersedeWithCurrentReads(docs: Docs, tenant: nat, previous: Id, replacement: Id, readVersion: int)
    requires ChainInv(docs) && previous != replacement
    requires InTenant(docs, tenant, previous) && InTenant(docs, tenant, replacement)
    requires docs[previous].approval.Approved? && docs[replacement].approval.Approved? && readVersion == docs[previous].version
    ensures ChainInv(WriteSupersede(docs, previous, replacement, readVersion))
  {
    StepKeepsInv(docs, Supersede(tenant, previous, replacement, true));
  }

  // Submit, approve and reject update by id alone, whatever the row has become.

  function WriteSubmit(docs: Docs, id: Id): Docs
    requires id in docs
  {
    docs[id := docs[id].(approval := PendingApproval)]
  }

  function WriteApprove(docs: Docs, id: Id): Docs
    requires id in docs
  {
    docs[id := docs[id].(approval := Approved, artifact := true)]
  }

  function WriteReject(docs: Docs, id: Id): Docs
    requires id in docs
  {
    docs[id := docs[id].(approval := Draft)]
  }

  ghost predicate KeepsApprovals(before: Docs, after: Docs) {
    forall d :: d in before && EverApproved(before[d]) ==> d in after && EverApproved(after[d])
  }

  /** A reject that read a pending row and writes after its approval puts the approved document back to draft. */
  lemma LateRejectUndoesApproval(tenant: nat, id: Id, effective: int, nextReview: int)
    requires effective <= nextReview
    ensures var docs := map[id := Doc(tenant, PendingApproval, 1, None, None, false)];
            var approved := After(docs, Approve(tenant, id, effective, nextReview, RETENTION_FLOOR_DAYS, true));
            && ChainInv(docs) && Handle(docs, Reject(tenant, id)).Done?
            && approved[id].approval.Approved?
            && WriteReject(approved, id)[id] == approved[id].(approval := Draft)
            && !KeepsApprovals(approved, WriteReject(approved, id))
  {
    var docs := map[id := Doc(tenant, PendingApproval, 1, None, None, false)];
    assert Stamped(docs, map[]);
    var approved := After(docs, Approve(tenant, id, effective, nextReview, RETENTION_FLOOR_DAYS, true));
    assert EverApproved(approved[id]);
  }

  /** A late submit or reject undoes no approval exactly when its row has not been approved by then. */
  lemma LateSubmitOrRejectKeepsApprovalsIff(docs: Docs, id: Id)
    requires id in docs
    ensures KeepsApprovals(docs, WriteReject(docs, id)) <==> !EverApproved(docs[id])
    ensures KeepsApprovals(docs, WriteSubmit(docs, id)) <==> !EverApproved(docs[id])
  {
    if EverApproved(docs[id]) {
      assert !EverApproved(WriteReject(docs, id)[id]) && !EverApproved(WriteSubmit(docs, id)[id]);
    }
  }

  /** A late approval keeps the chain invariant exactly when its row has not been superseded by then. */
  lemma LateApproveKeepsInvIff(docs: Docs, id: Id)
    requires ChainInv(docs) && id in docs
    ensures ChainInv(WriteApprove(docs, id)) <==> !docs[id].approval.Obsolete?
  {
    var next := WriteApprove(docs, id);
    assert DocOk(docs, id);
    if docs[id].approval.Obsolete? {
      assert !DocOk(next, id);
    } else {
      forall d | d in next ensures DocOk(next, d) {
        assert DocOk(docs, d);
      }
      var stamp :| Stamped(docs, stamp);
      assert Stamped(next, stamp);
    }
  }

  /** A row that may go back to draft or pending: never approved, or approved outside every chain. */
  predicate MayRevert(docs: Docs, id: Id)
    requires id in docs
  {
    !EverApproved(docs[id])
    || (docs[id].approval.Approved? && docs[id].parent.None? && forall d :: d in docs ==> docs[d].supersededBy != Some(id))
  }

  lemma RevertedKeepsInvIff(docs: Docs, id: Id, approval: Approval)
    requires ChainInv(docs) && id in docs && (approval.Draft? || approval.PendingApproval?)
    ensures ChainInv(docs[id := docs[id].(approval := approval)]) <==> MayRevert(docs, id)
  {
    var next := docs[id := docs[id].(approval := approval)];
    var stamp :| Stamped(docs, stamp);
    assert DocOk(docs, id);
    if MayRevert(docs, id) {
      forall d | d in docs ensures DocOk(next, d) {
        assert DocOk(docs, d);
      }
      assert Stamped(next, stamp);
    }
    if ChainInv(next) {
      assert DocOk(next, id);
      forall d | d in docs && d != id ensures EverApproved(docs[id]) ==> docs[d].supersededBy != Some(id) {
        assert DocOk(next, d);
      }
    }
  }

  /** A late submit or reject keeps the chain invariant exactly when its row was not approved by then, or is in no chain. */
  lemma LateSubmitOrRejectKeepsInvIff(docs: Docs, id: Id)
    requires ChainInv(docs) && id in docs
    ensures ChainInv(WriteSubmit(docs, id)) <==> MayRevert(docs, id)
    ensures ChainInv(WriteReject(docs, id)) <==> MayRevert(docs, id)
  {
    RevertedKeepsInvIff(docs, id, PendingApproval);
    RevertedKeepsInvIff(docs, id, Draft);
  }

  /** Of two submits that read a draft, the second may write after the approval of the first. */
  lemma LateSubmitUndoesApproval(tenant: nat, id: Id, effective: int, nextReview: int)
    requires effective <= nextReview
    ensures var docs := map[id := Doc(tenant, Draft, 1, None, None, false)];
            var approved := Run(docs, [Submit(tenant, id), Approve(tenant, id, effective, nextReview, RETENTION_FLOOR_DAYS, true)]);
            && ChainInv(docs) && Handle(docs, Submit(tenant, id)).Done?
            && id in approved && approved[id].approval.Approved?
            && !KeepsApprovals(approved, WriteSubmit(approved, id))
  {
    var docs := map[id := Doc(tenant, Draft, 1, None, None, false)];
    assert Stamped(docs, map[]);
    var approve := Approve(tenant, id, effective, nextReview, RETENTION_FLOOR_DAYS, true);
    RunOfTwo(docs, Submit(tenant, id), approve);
    var approved := After(After(docs, Submit(tenant, id)), approve);
    assert EverApproved(approved[id]) && !EverApproved(WriteSubmit(approved, id)[id]);
  }

  /** Of two approvals that read a pending row, the second may write after the approved document was superseded. */
  lemma LateApproveRevivesObsolete(tenant: nat, effective: int, nextReview: int)
    requires effective <= nextReview
    ensures var docs := map[0 := Doc(tenant, PendingApproval, 1, None, None, false), 1 := Doc(tenant, Approved, 1, None, None, true)];
            var approve := Approve(tenant, 0, effective, nextReview, RETENTION_FLOOR_DAYS, true);
            var superseded := Run(docs, [approve, Supersede(tenant, 0, 1, true)]);
            && ChainInv(docs) && Handle(docs, approve).Done?
            && ChainInv(superseded) && 0 in superseded && superseded[0].approval.Obsolete?
            && WriteApprove(superseded, 0)[0] == Doc(tenant, Approved, 1, None, Some(1), true)
            && !ChainInv(WriteApprove(superseded, 0))
  {
    var docs := map[0 := Doc(tenant, PendingApproval, 1, None, None, false), 1 := Doc(tenant, Approved, 1, None, None, true)];
    assert Stamped(docs, map[]);
    var approve := Approve(tenant, 0, effective, nextReview, RETENTION_FLOOR_DAYS, true);
    RunOfTwo(docs, approve, Supersede(tenant, 0, 1, true));
    RunKeepsInv(docs, [approve, Supersede(tenant, 0, 1, true)]);
    LateApproveKeepsInvIff(Run(docs, [approve, Supersede(tenant, 0, 1, true)]), 0);
  }

  lemma RunOfTwo(start: Docs, first: Request, second: Request)
    ensures Run(start, [first, second]) == After(After(start, first), second)
  {
    assert [first, second][..1] == [first] && [first][..0] == [];
    assert Run(start, [first]) == After(start, first);
  }

  // ---------------------------------------------------------------- runs with late writes

  /** A request served at once, or the UPDATEs of one whose checks ran at some earlier time. */
  datatype Write =
    | AtOnce(request: Request)
    | LateSubmit(id: Id)
    | LateApprove(id: Id)
    | LateReject(id: Id)
    | LateSupersede(previous: Id, replacement: Id, readVersion: int)

  function AfterWrite(docs: Docs, w: Write): Docs {
    match w
    case AtOnce(request) => After(docs, request)
    case LateSubmit(id) => if id in docs then WriteSubmit(docs, id) else docs
    case LateApprove(id) => if id in docs then WriteApprove(docs, id) else docs
    case LateReject(id) => if id in docs then WriteReject(docs, id) else docs
    case LateSupersede(previous, replacement, readVersion) =>
      if previous in docs && replacement in docs && previous != replacement
      then WriteSupersede(docs, previous, replacement, readVersion) else docs
  }

  function RunWrites(start: Docs, writes: seq<Write>): Docs {
    if writes == [] then start
    else AfterWrite(RunWrites(start, writes[..|writes| - 1]), writes[|writes| - 1])
  }

  predicate ApprovedOnRecord(docs: Docs, d: Id) {
    d in docs && EverApproved(docs[d]) && docs[d].artifact
  }

  predicate Undoes(w: Write, d: Id) {
    w == LateSubmit(d) || w == LateReject(d)
  }

  /** Of all requests and late writes, just a late submit or reject of the document itself undoes its approval. */
  lemma WriteKeepsApprovalIff(docs: Docs, w: Write, d: Id)
    requires ApprovedOnRecord(docs, d)
    ensures ApprovedOnRecord(AfterWrite(docs, w), d) <==> !Undoes(w, d)
  {
  }

  /** The document is approved, with its artifact, at the start and after each of the writes. */
  predicate ApprovedThroughout(start: Docs, writes: seq<Write>, d: Id) {
    ApprovedOnRecord(RunWrites(start, writes), d) && (writes == [] || ApprovedThroughout(start, writes[..|writes| - 1], d))
  }

  /** In every interleaving a document once approved, with its artifact, stays so exactly until a late submit or reject of it. */
  lemma {:induction false} ApprovedUntilUndoneIff(start: Docs, writes: seq<Write>, d: Id)
    requires ApprovedOnRecord(start, d)
    ensures ApprovedThroughout(start, writes, d) <==> forall i | 0 <= i < |writes| :: !Undoes(writes[i], d)
  {
    if writes != [] {
      var last := |writes| - 1;
      ApprovedUntilUndoneIff(start, writes[..last], d);
      if ApprovedThroughout(start, writes[..last], d) {
        WriteKeepsApprovalIff(RunWrites(start, writes[..last]), writes[last], d);
      }
    }
  }

  /** What a late write must find in the table at its time. */
  ghost predicate MayWrite(docs: Docs, w: Write) {
    match w
    case AtOnce(_) => true
    case LateSubmit(id) => id in docs ==> MayRevert(docs, id)
    case LateReject(id) => id in docs ==> MayRevert(docs, id)
    case LateApprove(id) => id in docs ==> !docs[id].approval.Obsolete?
    case LateSupersede(previous, replacement, readVersion) =>
      previous in docs && replacement in docs && previous != replacement ==>
        StillSupersedable(docs, previous, replacement, readVersion)
  }

  lemma WriteKeepsInvIff(docs: Docs, w: Write)
    requires ChainInv(docs)
    ensures ChainInv(AfterWrite(docs, w)) <==> MayWrite(docs, w)
  {
    match w
    case AtOnce(request) => StepKeepsInv(docs, request);
    case LateSubmit(id) => if id in docs { LateSubmitOrRejectKeepsInvIff(docs, id); }
    case LateReject(id) => if id in docs { LateSubmitOrRejectKeepsInvIff(docs, id); }
    case LateApprove(id) => if id in docs { LateApproveKeepsInvIff(docs, id); }
    case LateSupersede(previous, replacement, readVersion) =>
      if previous in docs && replacement in docs && previous != replacement {
        LateSupersedeKeepsInvIff(docs, previous, replacement, readVersion);
      }
  }

  /** The invariant holds at the start and after each of the writes. */
  ghost predicate InvThroughout(start: Docs, writes: seq<Write>) {
    ChainInv(RunWrites(start, writes)) && (writes == [] || InvThroughout(start, writes[..|writes| - 1]))
  }

  /** Each of the writes finds what it must at its time. */
  ghost predicate MayWriteAll(start: Docs, writes: seq<Write>) {
    writes == []
    || (MayWriteAll(start, writes[..|writes| - 1])
        && MayWrite(RunWrites(start, writes[..|writes| - 1]), writes[|writes| - 1]))
  }

  /** An interleaving keeps the chain invariant throughout exactly when every late write finds what it must at its time. */
  lemma {:induction false} InvThroughoutIff(start: Docs, writes: seq<Write>)
    requires ChainInv(start)
    ensures InvThroughout(start, writes) <==> MayWriteAll(start, writes)
  {
    if writes != [] {
      var earlier := writes[..|writes| - 1];
      InvThroughoutIff(start, earlier);
      if InvThroughout(start, earlier) {
        WriteKeepsInvIff(RunWrites(start, earlier), writes[|writes| - 1]);
      }
    }
  }
}
