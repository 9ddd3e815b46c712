/**
 Suspension, revocation and public verification of certificates:
 `backend/services/cert_lifecycle.py`, `update_cert_status` and `public_verify_cert` in
 `backend/auth/certificate_router.py`, `cert_decision` in `backend/auth/audit_router.py`.

 Requests are atomic steps, except in the last two sections, where a status change or a
 revocation reads its row in one statement and writes it in another, as the source does.
 */
module CertificateLifecycle {
  import opened Common
  import opened Strings

  type Id = nat

  datatype Status = Active | Suspended | Revoked

  datatype Revocation = Revocation(reason: Option<string>, at: Option<int>, revoker: Option<Id>)

  datatype Certificate = Certificate(business: Id, issuedBy: Id, status: Status, expiry: int, revocation: Revocation)

  type Certificates = map<Id, Certificate>

  const NOT_REVOKED := Revocation(None, None, None)

  datatype RevokeResult = Done | NotFound | Invalid | AlreadyRevoked

  // ---------------------------------------------------------------- revocation

  predicate ShowsRevocation(c: Certificate) {
    c.revocation.at.Some? || c.status.Revoked?
  }

  /** The checks of `revoke_cert`, in their order. */
  function RevokeCheck(certs: Certificates, id: Id, reason: string, revoker: Option<Id>): RevokeResult {
    if IsBlank(reason) then Invalid
    else if id !in certs then NotFound
    else if ShowsRevocation(certs[id]) then AlreadyRevoked
    else if revoker != Some(certs[id].issuedBy) then Invalid
    else Done
  }

  /** Which answer a revocation gets: the reason is looked at first, the revoker last. */
  lemma RevokeAnswers(certs: Certificates, id: Id, reason: string, revoker: Option<Id>)
    ensures var r := RevokeCheck(certs, id, reason, revoker);
            var shown := id in certs && (certs[id].status == Revoked || certs[id].revocation.at.Some?);
            if Strip(reason) == "" then r == Invalid
            else if id !in certs then r == NotFound
            else if shown then r == AlreadyRevoked
            else r == if revoker == Some(certs[id].issuedBy) then Done else Invalid
  {
  }

  function Record(reason: string, revoker: Option<Id>, now: int): Revocation {
    Revocation(Some(Strip(reason)), Some(now), revoker)
  }

  /** The UPDATE of `revoke_cert`, without its checks. */
  function WriteRevocation(certs: Certificates, id: Id, reason: string, revoker: Option<Id>, now: int): Certificates
    requires id in certs
  {
    certs[id := certs[id].(status := Revoked, revocation := Record(reason, revoker, now))]
  }

  function AfterRevoke(certs: Certificates, id: Id, reason: string, revoker: Option<Id>, now: int): Certificates {
    if RevokeCheck(certs, id, reason, revoker).Done? then WriteRevocation(certs, id, reason, revoker, now) else certs
  }

  predicate IsRevocable(certs: Certificates, c: Id, business: Id, issuer: Id) {
    c in certs && certs[c].business == business && certs[c].issuedBy == issuer
    && certs[c].status.Active? && certs[c].revocation.at.None?
  }

  /** The active, unrevoked certificates of a business with an issuer. */
  function Revocable(certs: Certificates, business: Id, issuer: Id): set<Id> {
    set c | c in certs && IsRevocable(certs, c, business, issuer)
  }

  /** The certificates after all of `ids` have been revoked. */
  function RevokeAll(certs: Certificates, ids: set<Id>, record: Revocation): Certificates {
    map c | c in certs ::
      if c in ids then certs[c].(status := Revoked, revocation := record)
      else certs[c]
  }

  lemma RevokeNone(certs: Certificates, record: Revocation)
    ensures RevokeAll(certs, {}, record) == certs
  {
  }

  /** Revoking one more certificate of the list fails for a revoker who is not the issuer, and extends `RevokeAll` otherwise. */
  lemma RevokeOneMore(saved: Certificates, business: Id, issuer: Id, revoked: set<Id>, id: Id,
                      reason: string, revoker: Option<Id>, now: int)
    requires !IsBlank(reason) && IsRevocable(saved, id, business, issuer) && id !in revoked
    ensures var certs := RevokeAll(saved, revoked, Record(reason, revoker, now));
            && id in certs
            && RevokeCheck(certs, id, reason, revoker) == (if revoker == Some(issuer) then Done else Invalid)
            && (revoker == Some(issuer) ==>
                  AfterRevoke(certs, id, reason, revoker, now) == RevokeAll(saved, revoked + {id}, Record(reason, revoker, now)))
  {
  }

  predicate NoRepeats(rows: seq<Id>) {
    forall i, j | 0 <= i < j < |rows| :: rows[i] != rows[j]
  }

  function Listed(rows: seq<Id>, n: nat): set<Id>
    requires n <= |rows|
  {
    set k | 0 <= k < n :: rows[k]
  }

  lemma ListedStep(rows: seq<Id>, n: nat)
    requires n < |rows| && NoRepeats(rows)
    ensures rows[n] !in Listed(rows, n) && rows[n] in Listed(rows, |rows|)
    ensures Listed(rows, n + 1) == Listed(rows, n) + {rows[n]}
  {
  }

  lemma ListedAppend(rows: seq<Id>, id: Id)
    requires NoRepeats(rows) && id !in Listed(rows, |rows|)
    ensures NoRepeats(rows + [id]) && Listed(rows + [id], |rows| + 1) == Listed(rows, |rows|) + {id}
  {
    var next := rows + [id];
    forall x ensures x in Listed(next, |next|) <==> x in Listed(rows, |rows|) + {id} {
      if k :| 0 <= k < |rows| && rows[k] == x {
        assert next[k] == x;
      }
      assert next[|rows|] == id;
    }
    assert forall k | 0 <= k < |rows| :: rows[k] in Listed(rows, |rows|);
  }

  datatype BulkResult = Affected(count: nat) | Raised

  class CertificateStore {
    var certs: Certificates

    constructor ()
      ensures certs == map[] && Consistent(certs)
    {
      certs := map[];
    }

    method RevokeCert(id: Id, reason: string, revoker: Option<Id>, now: int) returns (r: RevokeResult)
      modifies this
      ensures r == old(RevokeCheck(certs, id, reason, revoker))
      ensures certs == old(AfterRevoke(certs, id, reason, revoker, now))
    {
      if IsBlank(reason) {
        return Invalid;
      }
      if id !in certs {
        return NotFound;
      }
      var row := certs[id];
      if row.revocation.at.Some? || row.status.Revoked? {
        return AlreadyRevoked;
      }
      if revoker != Some(row.issuedBy) {
        return Invalid;
      }
      certs := certs[id := row.(status := Revoked, revocation := Record(reason, revoker, now))];
      return Done;
    }

    /** One turn of the bulk revocation, when those of `revoked` have been revoked already. */
    method RevokeListed(ghost saved: Certificates, business: Id, issuer: Id, ghost revoked: set<Id>, id: Id,
                        reason: string, revoker: Option<Id>, now: int) returns (r: RevokeResult)
      requires !IsBlank(reason) && IsRevocable(saved, id, business, issuer) && id !in revoked
      requires certs == RevokeAll(saved, revoked, Record(reason, revoker, now))
      modifies this
      ensures r == if revoker == Some(issuer) then Done else Invalid
      ensures r.Done? ==> certs == RevokeAll(saved, revoked + {id}, Record(reason, revoker, now))
    {
      RevokeOneMore(saved, business, issuer, revoked, id, reason, revoker, now);
      r := RevokeCert(id, reason, revoker, now);
    }

    /**
     `revoke_active_certs_for_business`: revoke one by one, skipping certificates found
     revoked.  Any other refusal is raised, and the route's transaction rolls back.
     Exactly the active certificates of that business and issuer flip, unless there are
     some and the revoker is not the issuer.
     */
    method RevokeActiveCertsForBusiness(business: Id, issuer: Id, reason: string, revoker: Option<Id>, now: int)
      returns (r: BulkResult)
      modifies this
      ensures r.Raised? <==> IsBlank(reason) || (revoker != Some(issuer) && old(Revocable(certs, business, issuer)) != {})
      ensures r.Raised? ==> certs == old(certs)
      ensures !r.Raised? ==>
                && r.count == |old(Revocable(certs, business, issuer))|
                && certs == old(RevokeAll(certs, Revocable(certs, business, issuer), Record(reason, revoker, now)))
    {
      if IsBlank(reason) {
        return Raised;
      }
      var rows := Fetched(Revocable(certs, business, issuer));
      r := RevokeEach(rows, business, issuer, reason, revoker, now);
    }

    /** The rows of a query, in whatever order. */
    static method Fetched(found: set<Id>) returns (rows: seq<Id>)
      ensures NoRepeats(rows) && |rows| == |found| && Listed(rows, |rows|) == found
    {
      rows := [];
      var todo := found;
      while todo != {}
        invariant NoRepeats(rows) && todo <= found && Listed(rows, |rows|) == found - todo && |rows| + |todo| == |found|
        decreases todo
      {
        var id :| id in todo;
        ListedAppend(rows, id);
        rows, todo := rows + [id], todo - {id};
      }
    }

    /** The loop over the rows found. */
    method RevokeEach(rows: seq<Id>, business: Id, issuer: Id, reason: string, revoker: Option<Id>, now: int)
      returns (r: BulkResult)
      requires !IsBlank(reason) && NoRepeats(rows)
      requires forall c :: c in Listed(rows, |rows|) ==> IsRevocable(certs, c, business, issuer)
      modifies this
      ensures revoker != Some(issuer) && rows != [] ==> r.Raised? && certs == old(certs)
      ensures revoker == Some(issuer) || rows == [] ==>
                r == Affected(|rows|) && certs == RevokeAll(old(certs), Listed(rows, |rows|), Record(reason, revoker, now))
    {
      var saved, affected := certs, 0;
      RevokeNone(saved, Record(reason, revoker, now));
      for n := 0 to |rows|
        invariant affected == n
        invariant certs == RevokeAll(saved, Listed(rows, n), Record(reason, revoker, now))
        invariant n > 0 ==> revoker == Some(issuer)
      {
        ListedStep(rows, n);
        var result := RevokeListed(saved, business, issuer, Listed(rows, n), rows[n], reason, revoker, now);
        if result.Invalid? {
          certs := saved;
          return Raised;
        }
        if result.Done? {
          affected := affected + 1;
        }
      }
      return Affected(affected);
    }

    /** `update_cert_status`: a revocation goes through `revoke_cert`; any other status is refused on a revoked row. */
    method UpdateCertStatus(id: Id, provider: Id, status: Status, reason: string, actor: Option<Id>, now: int)
      returns (r: RevokeResult)
      modifies this
      ensures certs == old(Apply(certs, ChangeStatus(id, provider, status, reason, actor, now)))
      ensures !r.Done? ==> certs == old(certs)
      ensures var mine := id in old(certs) && old(certs)[id].issuedBy == provider;
              var revoked := mine && (old(certs)[id].status == Revoked || old(certs)[id].revocation.at.Some?);
              && (r.NotFound? <==> !mine)
              && (status != Revoked ==> (r.AlreadyRevoked? <==> revoked) && (r.Done? <==> mine && !revoked))
              && (status == Revoked && mine ==>
                    && (r.Invalid? <==> IsBlank(reason) || (!revoked && actor != Some(provider)))
                    && (r.AlreadyRevoked? <==> !IsBlank(reason) && revoked)
                    && (r.Done? <==> !IsBlank(reason) && !revoked && actor == Some(provider)))
    {
      if id !in certs || certs[id].issuedBy != provider {
        return NotFound;
      }
      if status.Revoked? {
        r := RevokeCert(id, reason, actor, now);
        return r;
      }
      if certs[id].status.Revoked? || certs[id].revocation.at.Some? {
        return AlreadyRevoked;
      }
      certs := certs[id := certs[id].(status := status)];
      return Done;
    }

    /** A visit decision on the certificates of the visit's business and provider; what raises is rolled back. */
    method DecideOnCertificates(business: Id, provider: Id, decision: Decision, notes: string, actor: Option<Id>, now: int, audited: bool)
      modifies this
      ensures certs == old(Apply(certs, Decide(business, provider, decision, notes, actor, now, audited)))
    {
      if decision.Revoke? {
        if IsBlank(notes) {
          return;
        }
        StripIsNotBlank(notes);
        var _ := RevokeActiveCertsForBusiness(business, provider, Strip(notes), actor, now);
      } else {
        var saved := certs;
        certs := map c | c in certs ::
          if certs[c].business == business && certs[c].issuedBy == provider && !certs[c].status.Revoked?
          then certs[c].(status := if decision.Renew? then Active else Suspended) else certs[c];
        if !audited {
          certs := saved;
        }
      }
    }
  }

  // ---------------------------------------------------------------- requests

  datatype Decision = Renew | Suspend | Revoke

  datatype Request =
      // `rendered` is false when the PDF cannot be written; the fresh row is deleted again
    | Issue(id: Id, business: Id, issuer: Id, expiry: int, rendered: bool)
    | ChangeStatus(id: Id, provider: Id, status: Status, reason: string, actor: Option<Id>, now: int)
      // `audited` is false when writing the audit record raises; the renew and suspend branch
      // calls a name its module does not import, so as it stands it always raises
    | Decide(business: Id, provider: Id, decision: Decision, notes: string, actor: Option<Id>, now: int, audited: bool)

  function Apply(certs: Certificates, r: Request): Certificates {
    match r
    case Issue(id, business, issuer, expiry, rendered) =>
      if id in certs || !rendered then certs
      else certs[id := Certificate(business, issuer, Active, expiry, NOT_REVOKED)]
    case ChangeStatus(id, provider, status, reason, actor, now) =>
      if id !in certs || certs[id].issuedBy != provider then certs
      else if status.Revoked? then AfterRevoke(certs, id, reason, actor, now)
      else if ShowsRevocation(certs[id]) then certs
      else certs[id := certs[id].(status := status)]
    case Decide(business, provider, decision, notes, actor, now, audited) =>
      if decision.Revoke? then
        if IsBlank(notes) || (actor != Some(provider) && Revocable(certs, business, provider) != {}) then certs
        else RevokeAll(certs, Revocable(certs, business, provider), Record(Strip(notes), actor, now))
      else if !audited then certs
      else
        map c | c in certs ::
          if certs[c].business == business && certs[c].issuedBy == provider && !certs[c].status.Revoked?
          then certs[c].(status := if decision.Renew? then Active else Suspended) else certs[c]
  }

  /** A status other than revoked is taken over exactly from the issuer, for an unrevoked certificate; nothing else is written. */
  lemma StatusChangeWrites(certs: Certificates, id: Id, provider: Id, status: Status, reason: string, actor: Option<Id>, now: int)
    requires status != Revoked
    ensures var next := Apply(certs, ChangeStatus(id, provider, status, reason, actor, now));
            if id in certs && certs[id].issuedBy == provider && certs[id].status != Revoked && certs[id].revocation.at.None?
            then next == certs[id := certs[id].(status := status)]
            else next == certs
  {
  }

  /** And the public sees it: after the change the certificate is valid exactly when `active` was asked for and it has not expired. */
  lemma StatusChangeShows(certs: Certificates, id: Id, provider: Id, status: Status, reason: string, actor: Option<Id>, now: int, today: int)
    requires Consistent(certs) && id in certs && certs[id].issuedBy == provider && certs[id].status != Revoked && status != Revoked
    ensures PubliclyValid(Apply(certs, ChangeStatus(id, provider, status, reason, actor, now))[id], today)
            <==> status == Active && today <= certs[id].expiry
  {
  }

  /**
   A revocation is written exactly for a reason that is not blank, by the issuer, for a
   certificate that shows none: status, stripped reason, time and revoker, and nothing else.
   */
  lemma RevocationWrites(certs: Certificates, id: Id, provider: Id, reason: string, actor: Option<Id>, now: int)
    ensures var next := Apply(certs, ChangeStatus(id, provider, Revoked, reason, actor, now));
            if && id in certs && certs[id].issuedBy == provider && actor == Some(provider) && Strip(reason) != ""
               && certs[id].status != Revoked && certs[id].revocation.at.None?
            then next == certs[id := certs[id].(status := Revoked, revocation := Revocation(Some(Strip(reason)), Some(now), Some(provider)))]
            else next == certs
  {
  }

  /** A new certificate is active and unrevoked, under a fresh id; without its PDF it is not there. */
  lemma IssueWrites(certs: Certificates, id: Id, business: Id, issuer: Id, expiry: int, rendered: bool)
    ensures Apply(certs, Issue(id, business, issuer, expiry, rendered))
            == if id in certs || !rendered then certs
               else certs[id := Certificate(business, issuer, Active, expiry, Revocation(None, None, None))]
  {
  }

  /** What a decision writes to each certificate: that of another business or provider is left alone, and so is a revoked one. */
  lemma DecisionWrites(certs: Certificates, business: Id, provider: Id, decision: Decision, notes: string,
                       actor: Option<Id>, now: int, audited: bool, c: Id)
    requires c in certs
    ensures var next, row := Apply(certs, Decide(business, provider, decision, notes, actor, now, audited)), certs[c];
            var theirs := row.business == business && row.issuedBy == provider && row.status != Revoked;
            && next.Keys == certs.Keys
            && (decision == Renew ==> next[c] == if theirs && audited then row.(status := Active) else row)
            && (decision == Suspend ==> next[c] == if theirs && audited then row.(status := Suspended) else row)
            && (decision == Revoke ==>
                  next[c] == if theirs && row.status == Active && row.revocation.at.None? && Strip(notes) != "" && actor == Some(provider)
                             then row.(status := Revoked, revocation := Revocation(Some(Strip(Strip(notes))), Some(now), actor))
                             else row)
  {
    if IsRevocable(certs, c, business, provider) {
      assert c in Revocable(certs, business, provider);
    }
  }

  /** As the code stands a decision to renew or suspend raises after its UPDATE and is rolled back. */
  lemma UnauditedDecisionChangesNothing(certs: Certificates, business: Id, provider: Id, decision: Decision, notes: string,
                                        actor: Option<Id>, now: int)
    requires !decision.Revoke?
    ensures Apply(certs, Decide(business, provider, decision, notes, actor, now, false)) == certs
  {
  }

  /** Exactly when a decision to renew or suspend changes the table: it is audited, and some unrevoked row has another status. */
  lemma DecisionChangesTableIff(certs: Certificates, business: Id, provider: Id, decision: Decision, notes: string,
                                actor: Option<Id>, now: int, audited: bool)
    requires !decision.Revoke?
    ensures Apply(certs, Decide(business, provider, decision, notes, actor, now, audited)) != certs
            <==> audited && exists c :: && c in certs && certs[c].business == business && certs[c].issuedBy == provider
                                        && !certs[c].status.Revoked? && certs[c].status != if decision.Renew? then Active else Suspended
  {
    var next := Apply(certs, Decide(business, provider, decision, notes, actor, now, audited));
    if next != certs {
      var c :| c in certs && next[c] != certs[c];
    }
  }

  /** Exactly when a decision to revoke changes the table: the provider decides, with notes, and there is something to revoke. */
  lemma RevokeDecisionChangesTableIff(certs: Certificates, business: Id, provider: Id, notes: string, actor: Option<Id>,
                                      now: int, audited: bool)
    ensures Apply(certs, Decide(business, provider, Revoke, notes, actor, now, audited)) != certs
            <==> !IsBlank(notes) && actor == Some(provider) && Revocable(certs, business, provider) != {}
  {
    var record := Record(Strip(notes), actor, now);
    RevokeNone(certs, record);
    if c :| c in Revocable(certs, business, provider) {
      assert RevokeAll(certs, Revocable(certs, business, provider), record)[c] != certs[c];
    }
  }

  /** A decision to revoke by anyone but the provider leaves an active certificate as it is. */
  lemma RevokeDecisionOfAnother(provider: Id, actor: Id, notes: string, expiry: int, now: int, audited: bool)
    requires actor != provider
    ensures var certs := map[0 := Certificate(1, provider, Active, expiry, NOT_REVOKED)];
            && 0 in Revocable(certs, 1, provider)
            && Apply(certs, Decide(1, provider, Revoke, notes, Some(actor), now, audited)) == certs
  {
    RevokeDecisionChangesTableIff(map[0 := Certificate(1, provider, Active, expiry, NOT_REVOKED)], 1, provider, notes, Some(actor), now, audited);
  }

  function Run(start: Certificates, requests: seq<Request>): Certificates {
    if requests == [] then start
    else Apply(Run(start, requests[..|requests| - 1]), requests[|requests| - 1])
  }

  /** `public_verify_cert`: an active certificate shows as expired past its expiry date. */
  predicate PubliclyValid(c: Certificate, today: int) {
    var expired := c.expiry < today;
    (if expired && c.status.Active? then false else c.status.Active?) && !expired
  }

  // ---------------------------------------------------------------- the invariant

  predicate FullRevocation(r: Revocation) {
    r.at.Some? && r.revoker.Some? && r.reason.Some? && !IsBlank(r.reason.value)
  }

  predicate CertOk(c: Certificate) {
    (c.status.Revoked? && FullRevocation(c.revocation)) || (!c.status.Revoked? && c.revocation == NOT_REVOKED)
  }

  ghost predicate Consistent(certs: Certificates) {
    forall c :: c in certs ==> CertOk(certs[c])
  }

  lemma {:induction false} TrimLeftHead(s: string)
    ensures TrimLeft(s) == "" || !Space(TrimLeft(s)[0])
  {
    if s != [] && Space(s[0]) {
      TrimLeftHead(s[1..]);
    }
  }

  lemma {:induction false} TrimRightFacts(s: string)
    ensures TrimRight(s) <= s
    ensures TrimRight(s) == "" || !Space(TrimRight(s)[|TrimRight(s)| - 1])
  {
    if s != [] && Space(s[|s| - 1]) {
      TrimRightFacts(s[..|s| - 1]);
    }
  }

  /** A stripped reason that was not blank is not blank. */
  lemma StripIsNotBlank(s: string)
    requires !IsBlank(s)
    ensures !IsBlank(Strip(s))
  {
    TrimLeftHead(s);
    TrimRightFacts(TrimLeft(s));
    NotBlankAt(Strip(s), 0);
  }

  lemma RevokedCertOk(c: Certificate, reason: string, revoker: Id, now: int)
    requires !IsBlank(reason)
    ensures CertOk(c.(status := Revoked, revocation := Record(reason, Some(revoker), now)))
  {
    StripIsNotBlank(reason);
  }

  /** No request changes a revoked certificate, and every request keeps the table consistent. */
  lemma StepKeepsConsistent(certs: Certificates, r: Request)
    requires Consistent(certs)
    ensures Consistent(Apply(certs, r))
    ensures forall c :: c in certs ==> c in Apply(certs, r)
    ensures forall c :: c in certs && certs[c].status.Revoked? ==> Apply(certs, r)[c] == certs[c]
  {
    var next := Apply(certs, r);
    forall c | c in next ensures CertOk(next[c]) {
      match r {
        case Issue(_, _, _, _, _) =>
        case ChangeStatus(id, provider, status, reason, actor, now) =>
          if next[c] != certs[c] && status.Revoked? {
            RevokedCertOk(certs[c], reason, actor.value, now);
          }
        case Decide(business, provider, decision, notes, actor, now, _) =>
          if next[c] != certs[c] && decision.Revoke? {
            StripIsNotBlank(notes);
            RevokedCertOk(certs[c], Strip(notes), actor.value, now);
          }
      }
    }
  }

  lemma {:induction false} RunKeepsConsistent(start: Certificates, requests: seq<Request>)
    requires Consistent(start)
    ensures Consistent(Run(start, requests))
  {
    if requests != [] {
      RunKeepsConsistent(start, requests[..|requests| - 1]);
      StepKeepsConsistent(Run(start, requests[..|requests| - 1]), requests[|requests| - 1]);
    }
  }

  // ---------------------------------------------------------------- theorems

  /** In every run a certificate is revoked exactly when its revocation time, its actor and a non-blank reason are recorded. */
  lemma RevokedIffRecorded(start: Certificates, requests: seq<Request>, c: Id)
    requires Consistent(start) && c in Run(start, requests)
    ensures var cert := Run(start, requests)[c];
            && (cert.status.Revoked? <==> FullRevocation(cert.revocation))
            && (!cert.status.Revoked? <==> cert.revocation == NOT_REVOKED)
  {
    RunKeepsConsistent(start, requests);
  }

  /** Revocation is final: the row never changes again and is never publicly valid again. */
  lemma {:induction false} RevocationIsFinal(start: Certificates, requests: seq<Request>, c: Id, today: int)
    requires Consistent(start) && c in start && start[c].status.Revoked?
    ensures c in Run(start, requests) && Run(start, requests)[c] == start[c]
    ensures !PubliclyValid(Run(start, requests)[c], today)
  {
    if requests != [] {
      var n := |requests| - 1;
      RevocationIsFinal(start, requests[..n], c, today);
      RunKeepsConsistent(start, requests[..n]);
      StepKeepsConsistent(Run(start, requests[..n]), requests[n]);
    }
  }

  /** Public verification says valid exactly for an active, unrevoked certificate that has not expired. */
  lemma ValidIff(start: Certificates, requests: seq<Request>, c: Id, today: int)
    requires Consistent(start) && c in Run(start, requests)
    ensures var cert := Run(start, requests)[c];
            PubliclyValid(cert, today) <==> cert.status.Active? && cert.revocation.at.None? && today <= cert.expiry
  {
    RunKeepsConsistent(start, requests);
  }

  // ---------------------------------------------------------------- read, then write

  /** The second half of a status change: an UPDATE by id, whatever the row has become. */
  function WriteStatus(certs: Certificates, id: Id, status: Status): Certificates
    requires id in certs
  {
    certs[id := certs[id].(status := status)]
  }

  /**
   A request reads a suspended certificate, another revokes it, the first writes
   `active`: a certificate with a full revocation record is publicly valid.
   */
  lemma LateReactivationRevivesRevoked(today: int, now: int)
    ensures var cert := Certificate(1, 2, Suspended, today, NOT_REVOKED);
            var certs := map[0 := cert];
            var revoked := Apply(certs, ChangeStatus(0, 2, Revoked, "fraud", Some(2), now));
            var end := WriteStatus(revoked, 0, Active);
            && Consistent(certs) && !ShowsRevocation(certs[0])
            && revoked[0].status.Revoked?
            && FullRevocation(end[0].revocation) && PubliclyValid(end[0], today)
  {
  }

  /** A late status write keeps the table consistent exactly when the row is not revoked at that moment. */
  lemma LateStatusWriteIff(certs: Certificates, id: Id, status: Status)
    requires Consistent(certs) && id in certs && !status.Revoked?
    ensures Consistent(WriteStatus(certs, id, status)) <==> !certs[id].status.Revoked?
  {
    var next := WriteStatus(certs, id, status);
    if !certs[id].status.Revoked? {
      forall c | c in next ensures CertOk(next[c]) {
        assert CertOk(certs[c]);
      }
    } else {
      assert CertOk(certs[id]) && !CertOk(next[id]);
    }
  }

  /** A late revocation leaves recorded revocations alone exactly when the row is not revoked, or it repeats the record. */
  lemma LateRevocationWriteIff(certs: Certificates, id: Id, reason: string, revoker: Id, now: int)
    requires Consistent(certs) && id in certs && !IsBlank(reason)
    ensures Consistent(WriteRevocation(certs, id, reason, Some(revoker), now))
    ensures (forall c :: c in certs && certs[c].status.Revoked? ==> WriteRevocation(certs, id, reason, Some(revoker), now)[c] == certs[c])
            <==> !certs[id].status.Revoked? || certs[id].revocation == Record(reason, Some(revoker), now)
  {
    RevokedCertOk(certs[id], reason, revoker, now);
    var next := WriteRevocation(certs, id, reason, Some(revoker), now);
    forall c | c in next ensures CertOk(next[c]) {
      assert CertOk(certs[c]);
    }
    if certs[id].status.Revoked? && certs[id].revocation != Record(reason, Some(revoker), now) {
      assert next[id].revocation != certs[id].revocation;
    }
  }

  /** Two revocations that both read an unrevoked row: the second writes over the record of the first. */
  lemma LateRevocationOverwritesRecord(cert: Certificate, reason: string, another: string, now: int, later: int)
    requires !ShowsRevocation(cert) && !IsBlank(reason) && !IsBlank(another) && now != later
    ensures var certs := map[0 := cert];
            var first := AfterRevoke(certs, 0, reason, Some(cert.issuedBy), now);
            var second := WriteRevocation(first, 0, another, Some(cert.issuedBy), later);
            && RevokeCheck(certs, 0, reason, Some(cert.issuedBy)).Done? && RevokeCheck(certs, 0, another, Some(cert.issuedBy)).Done?
            && first[0].status.Revoked? && FullRevocation(first[0].revocation)
            && second[0].revocation == Record(another, Some(cert.issuedBy), later)
            && second[0].revocation != first[0].revocation
  {
    StripIsNotBlank(reason);
  }

  // ---------------------------------------------------------------- runs with late writes

  /** A request served at once, or the UPDATE of one whose checks ran at some earlier time. */
  datatype Write =
    | AtOnce(request: Request)
    | LateStatus(id: Id, status: Status)
    | LateRevocation(id: Id, reason: string, revoker: Id, now: int)

  /** What the checks before a late write settle for good: the target status and the reason. */
  predicate Checked(w: Write) {
    && (w.LateStatus? ==> !w.status.Revoked?)
    && (w.LateRevocation? ==> !IsBlank(w.reason))
  }

  function AfterWrite(certs: Certificates, w: Write): Certificates {
    match w
    case AtOnce(request) => Apply(certs, request)
    case LateStatus(id, status) => if id in certs then WriteStatus(certs, id, status) else certs
    case LateRevocation(id, reason, revoker, now) =>
      if id in certs then WriteRevocation(certs, id, reason, Some(revoker), now) else certs
  }

  function RunWrites(start: Certificates, writes: seq<Write>): Certificates {
    if writes == [] then start
    else AfterWrite(RunWrites(start, writes[..|writes| - 1]), writes[|writes| - 1])
  }

  /** A late status write of the row, or a late revocation of it with another record. */
  predicate Rewrites(w: Write, c: Id, row: Certificate) {
    || (w.LateStatus? && w.id == c)
    || (w.LateRevocation? && w.id == c && Record(w.reason, Some(w.revoker), w.now) != row.revocation)
  }

  lemma WriteKeepsRevokedRowIff(certs: Certificates, w: Write, c: Id)
    requires c in certs && certs[c].status.Revoked? && Checked(w)
    ensures c in AfterWrite(certs, w)
    ensures AfterWrite(certs, w)[c] == certs[c] <==> !Rewrites(w, c, certs[c])
  {
  }

  /** The row is there, and as given, at the start and after each of the writes. */
  predicate KeptThroughout(start: Certificates, writes: seq<Write>, c: Id, row: Certificate) {
    && c in RunWrites(start, writes) && RunWrites(start, writes)[c] == row
    && (writes == [] || KeptThroughout(start, writes[..|writes| - 1], c, row))
  }

  /** In every interleaving a revoked row, record and all, stays as it is exactly until a late write of that row rewrites it. */
  lemma {:induction false} RevokedUntilRewrittenIff(start: Certificates, writes: seq<Write>, c: Id)
    requires c in start && start[c].status.Revoked?
    requires forall i | 0 <= i < |writes| :: Checked(writes[i])
    ensures KeptThroughout(start, writes, c, start[c])
            <==> forall i | 0 <= i < |writes| :: !Rewrites(writes[i], c, start[c])
  {
    if writes != [] {
      var last := |writes| - 1;
      RevokedUntilRewrittenIff(start, writes[..last], c);
      if KeptThroughout(start, writes[..last], c, start[c]) {
        WriteKeepsRevokedRowIff(RunWrites(start, writes[..last]), writes[last], c);
      }
    }
  }

  /** The table is consistent at the start and after each of the writes. */
  ghost predicate ConsistentThroughout(start: Certificates, writes: seq<Write>) {
    Consistent(RunWrites(start, writes)) && (writes == [] || ConsistentThroughout(start, writes[..|writes| - 1]))
  }

  /** Every late status write finds its row unrevoked. */
  predicate StatusWritesInTime(start: Certificates, writes: seq<Write>) {
    writes == []
    || (var before, w := RunWrites(start, writes[..|writes| - 1]), writes[|writes| - 1];
        StatusWritesInTime(start, writes[..|writes| - 1]) && (w.LateStatus? && w.id in before ==> !before[w.id].status.Revoked?))
  }

  /** An interleaving keeps status and revocation record in agreement exactly when every late status write finds its row unrevoked. */
  lemma {:induction false} ConsistentThroughoutIff(start: Certificates, writes: seq<Write>)
    requires Consistent(start) && forall i | 0 <= i < |writes| :: Checked(writes[i])
    ensures ConsistentThroughout(start, writes) <==> StatusWritesInTime(start, writes)
  {
    if writes != [] {
      var last := |writes| - 1;
      ConsistentThroughoutIff(start, writes[..last]);
      var before := RunWrites(start, writes[..last]);
      if Consistent(before) {
        match writes[last] {
          case AtOnce(request) =>
            StepKeepsConsistent(before, request);
          case LateStatus(id, status) =>
            if id in before {
              LateStatusWriteIff(before, id, status);
            }
          case LateRevocation(id, reason, revoker, now) =>
            if id in before {
              LateRevocationWriteIff(before, id, reason, revoker, now);
            }
        }
      }
    }
  }
}
