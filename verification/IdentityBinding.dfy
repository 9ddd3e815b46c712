/**
 Binding Keycloak subjects to rows of the users table:
 `get_or_reconcile_user_from_keycloak_claims` in `backend/auth/identity.py` and the row
 selection of `enrich_keycloak_claims` in `backend/auth/keycloak_validator.py`.

 A reconciliation is one atomic step, except in the last two sections, where its final
 statement comes after statements of other sessions.  When several rows match an email, the row the
 database returns first is an input, `pick`; so is the id of a new row, `unused`.
 */
module IdentityBinding {
  import opened Common
  import opened Strings

  type Id = nat
  type Subject = nat

  datatype User = User(email: string, subject: Option<Subject>, role: string, status: string,
                       isOwner: bool, tenant: Option<Id>)

  type Users = map<Id, User>

  datatype OwnerFlag = Missing | Flag(flag: bool) | Text(text: string)

  /** An absent email, role or status is the empty string; an absent or malformed subject is `None`. */
  datatype Claims = Claims(email: string, subject: Option<Subject>, role: string, status: string, owner: OwnerFlag)

  datatype Outcome = Row(id: Id) | Unauthorized | Conflict | Forbidden | BadStatus

  const STATUSES := {"pending", "active", "suspended"}

  function RoleOf(c: Claims): string {
    if c.role == "platform_admin" || c.role == "provider" then "provider" else "business"
  }

  function StatusOf(c: Claims): string {
    if c.status == "" then "active" else c.status
  }

  function OwnerOf(c: Claims): bool {
    match c.owner
    case Missing => true
    case Flag(flag) => flag
    case Text(text) => Lower(text) in {"1", "true", "yes", "y"}
  }

  function EmailOf(c: Claims): string {
    Lower(Strip(c.email))
  }

  // ---------------------------------------------------------------- lookups

  ghost predicate UniqueSubjects(users: Users) {
    forall a, b | a in users && b in users && users[a].subject.Some? && users[a].subject == users[b].subject :: a == b
  }

  ghost predicate UniqueEmails(users: Users) {
    forall a, b | a in users && b in users && users[a].email == users[b].email :: a == b
  }

  ghost predicate IsBound(users: Users, s: Subject, id: Id) {
    id in users && users[id].subject == Some(s)
  }

  ghost function BySubject(users: Users, s: Subject): (r: Option<Id>)
    ensures r.Some? ==> IsBound(users, s, r.value)
    ensures r.None? ==> forall id :: !IsBound(users, s, id)
  {
    if id :| IsBound(users, s, id) then Some(id) else None
  }

  predicate Matches(users: Users, email: string, id: Id) {
    id in users && Lower(users[id].email) == email
  }

  /** `pick` is a row whose lower-cased email is `email`, or `None` when there is no such row. */
  ghost predicate LegalPick(users: Users, email: string, pick: Option<Id>) {
    if pick.Some? then Matches(users, email, pick.value) else forall id :: !Matches(users, email, id)
  }

  /** The row both lookups agree on: none when they name different rows or the row is bound to another subject. */
  ghost function Selected(users: Users, s: Subject, pick: Option<Id>): Option<Id>
    requires pick.Some? ==> pick.value in users
  {
    var bound := BySubject(users, s);
    if bound.Some? && pick.Some? && bound != pick then None
    else if bound.Some? then bound
    else if pick.Some? && users[pick.value].subject.Some? then None
    else pick
  }

  // ---------------------------------------------------------------- reconciliation

  ghost function Answer(users: Users, c: Claims, pick: Option<Id>, unused: Id): Outcome
    requires LegalPick(users, EmailOf(c), pick)
  {
    if EmailOf(c) == "" || c.subject.None? then Unauthorized
    else
      var bound := BySubject(users, c.subject.value);
      var chosen := Selected(users, c.subject.value, pick);
      if chosen.None? && (bound.Some? || pick.Some?) then Conflict
      else if chosen.None? && !OwnerOf(c) then Forbidden
      else if StatusOf(c) !in STATUSES then BadStatus
      else Row(if chosen.Some? then chosen.value else unused)
  }

  function Projected(row: User, id: Id, c: Claims): User {
    row.(subject := c.subject, status := StatusOf(c), isOwner := OwnerOf(c),
         tenant := if OwnerOf(c) then Some(id) else row.tenant)
  }

  function NewOwner(c: Claims, id: Id): User {
    User(EmailOf(c), c.subject, RoleOf(c), StatusOf(c), true, Some(id))
  }

  ghost function After(users: Users, c: Claims, pick: Option<Id>, unused: Id): Users
    requires LegalPick(users, EmailOf(c), pick)
  {
    var answer := Answer(users, c, pick, unused);
    if !answer.Row? then users
    else if answer.id in users then users[answer.id := Projected(users[answer.id], answer.id, c)]
    else users[answer.id := NewOwner(c, answer.id)]
  }

  class UserTable {
    var users: Users

    constructor ()
      ensures users == map[] && UniqueSubjects(users) && UniqueEmails(users)
    {
      users := map[];
    }

    method FindBySubject(s: Subject) returns (r: Option<Id>)
      requires UniqueSubjects(users)
      ensures r == BySubject(users, s)
    {
      if id :| id in users && users[id].subject == Some(s) {
        assert IsBound(users, s, id);
        return Some(id);
      }
      return None;
    }

    method MirrorClaims(id: Id, c: Claims)
      requires id in users
      modifies this
      ensures users == old(users)[id := old(users)[id].(subject := c.subject, status := StatusOf(c), isOwner := OwnerOf(c))]
    {
      if users[id].subject != c.subject {
        users := users[id := users[id].(subject := c.subject)];
      }
      if users[id].status != StatusOf(c) {
        users := users[id := users[id].(status := StatusOf(c))];
      }
      if users[id].isOwner != OwnerOf(c) {
        users := users[id := users[id].(isOwner := OwnerOf(c))];
      }
    }

    method RepairOwner(id: Id)
      requires id in users
      modifies this
      ensures users == if old(users)[id].isOwner then old(users)[id := old(users)[id].(tenant := Some(id))] else old(users)
    {
      if users[id].isOwner && users[id].tenant != Some(id) {
        users := users[id := users[id].(tenant := Some(id))];
      }
    }

    method GetOrReconcile(c: Claims, pick: Option<Id>, unused: Id) returns (r: Outcome)
      requires UniqueSubjects(users) && LegalPick(users, EmailOf(c), pick) && unused !in users
      modifies this
      ensures r == old(Answer(users, c, pick, unused))
      ensures users == old(After(users, c, pick, unused))
    {
      var email := Lower(Strip(c.email));
      if email == "" {
        return Unauthorized;
      }
      if c.subject.None? {
        return Unauthorized;
      }
      var rowBySub := FindBySubject(c.subject.value);
      if rowBySub.Some? && pick.Some? && rowBySub.value != pick.value {
        return Conflict;
      }
      var row := if rowBySub.Some? then rowBySub else pick;
      assert forall id | id in users && users[id].subject == c.subject :: IsBound(users, c.subject.value, id);
      if row.Some? && users[row.value].subject.Some? && users[row.value].subject != c.subject {
        return Conflict;
      }
      if row.None? {
        if !OwnerOf(c) {
          return Forbidden;
        }
        if StatusOf(c) !in STATUSES {
          return BadStatus;
        }
        users := users[unused := User(email, c.subject, RoleOf(c), StatusOf(c), OwnerOf(c), None)];
        row := Some(unused);
      } else {
        if StatusOf(c) !in STATUSES {
          return BadStatus;
        }
        MirrorClaims(row.value, c);
      }
      RepairOwner(row.value);
      return Row(row.value);
    }
  }

  // ---------------------------------------------------------------- one step

  datatype Event = Event(claims: Claims, pick: Option<Id>, unused: Id)

  ghost predicate Legal(users: Users, e: Event) {
    LegalPick(users, EmailOf(e.claims), e.pick) && e.unused !in users
  }

  ghost predicate Inv(users: Users) {
    UniqueSubjects(users) && UniqueEmails(users)
  }

  /** What no reconciliation changes in a row that exists: its email, its role, and its subject once it has one. */
  predicate Kept(before: User, after: User) {
    before.email == after.email && before.role == after.role && (before.subject.Some? ==> after.subject == before.subject)
  }

  ghost predicate AllKept(before: Users, after: Users) {
    forall id :: id in before ==> id in after && Kept(before[id], after[id])
  }

  lemma PutKeepsInv(users: Users, id: Id, row: User)
    requires Inv(users)
    requires forall other | other in users && other != id :: users[other].subject != row.subject && users[other].email != row.email
    ensures Inv(users[id := row])
  {
  }

  /** A new row takes no email of the table: the lookup that found nothing looked for its lower case. */
  lemma NewEmailIsFree(users: Users, c: Claims, id: Id)
    requires LegalPick(users, EmailOf(c), None) && id in users
    ensures users[id].email != EmailOf(c)
  {
    LowerIsIdempotent(Strip(c.email));
    assert !Matches(users, EmailOf(c), id);
  }

  /** A step keeps both unique keys, so neither UNIQUE constraint of the table can fire, and rows keep their bindings. */
  lemma StepKeepsInv(users: Users, e: Event)
    requires Inv(users) && Legal(users, e)
    ensures Inv(After(users, e.claims, e.pick, e.unused))
    ensures AllKept(users, After(users, e.claims, e.pick, e.unused))
  {
    var c := e.claims;
    var answer := Answer(users, c, e.pick, e.unused);
    if answer.Row? {
      forall other | other in users && other != answer.id ensures users[other].subject != c.subject {
        assert users[other].subject == c.subject ==> IsBound(users, c.subject.value, other);
      }
      if answer.id in users {
        PutKeepsInv(users, answer.id, Projected(users[answer.id], answer.id, c));
        assert IsBound(users, c.subject.value, answer.id) || users[answer.id].subject.None?;
      } else {
        forall other | other in users ensures users[other].email != EmailOf(c) {
          NewEmailIsFree(users, c, other);
        }
        PutKeepsInv(users, answer.id, NewOwner(c, answer.id));
      }
    }
  }

  /** The row returned is bound to the token's subject, mirrors its claims, and an owner's row is its own tenant. */
  lemma ReturnedRow(users: Users, e: Event)
    requires Inv(users) && Legal(users, e)
    ensures var r := Answer(users, e.claims, e.pick, e.unused);
            var next := After(users, e.claims, e.pick, e.unused);
            r.Row? ==>
              && IsBound(next, e.claims.subject.value, r.id)
              && next[r.id].status == StatusOf(e.claims)
              && next[r.id].isOwner == OwnerOf(e.claims)
              && (next[r.id].isOwner ==> next[r.id].tenant == Some(r.id))
              && (forall id :: id in next && id != r.id ==> id in users && next[id] == users[id])
  {
  }

  /** Owners are those whose claim says so, in any of its spellings, or says nothing. */
  lemma OwnersAre(c: Claims)
    ensures OwnerOf(c) <==>
              || c.owner == Missing || c.owner == Flag(true)
              || (c.owner.Text? && (c.owner.text == "1" || Spells(c.owner.text, "true") || Spells(c.owner.text, "yes") || Spells(c.owner.text, "y")))
  {
    if c.owner.Text? {
      LowerSpells(c.owner.text, "1");
      LowerSpells(c.owner.text, "true");
      LowerSpells(c.owner.text, "yes");
      LowerSpells(c.owner.text, "y");
      assert Spells(c.owner.text, "1") ==> c.owner.text == "1";
    }
  }

  /** Some other row has the subject, or the row found by email has another subject. */
  ghost predicate Clashes(users: Users, subject: Option<Subject>, pick: Option<Id>) {
    pick.Some? && pick.value in users
    && ((exists id | id in users && id != pick.value :: users[id].subject == subject)
        || (users[pick.value].subject.Some? && users[pick.value].subject != subject))
  }

  /** Which answer a reconciliation gives, in the order of the checks. */
  lemma AnswerIs(users: Users, e: Event)
    requires Inv(users) && Legal(users, e)
    ensures var c, r := e.claims, Answer(users, e.claims, e.pick, e.unused);
            var named := Lower(Strip(c.email)) != "" && c.subject.Some?;
            var bound := exists id | id in users :: users[id].subject == c.subject;
            var clash := Clashes(users, c.subject, e.pick);
            var known := c.status in {"", "pending", "active", "suspended"};
            && (r == Unauthorized <==> !named)
            && (r == Conflict <==> named && clash)
            && (r == Forbidden <==> named && !clash && !bound && e.pick.None? && !OwnerOf(c))
            && (r == BadStatus <==> named && !clash && (bound || e.pick.Some? || OwnerOf(c)) && !known)
            && (r.Row? ==> if bound then r.id in users && users[r.id].subject == c.subject
                           else if e.pick.Some? then Some(r.id) == e.pick else r.id == e.unused)
  {
    if e.claims.subject.Some? {
      forall id | id in users && users[id].subject == e.claims.subject ensures BySubject(users, e.claims.subject.value) == Some(id) {
        assert IsBound(users, e.claims.subject.value, id);
      }
    }
  }

  /** What the answered row holds: the claims' subject, status and ownership; a new row also email and role, an old one keeps its own. */
  lemma AnsweredRowHolds(users: Users, e: Event)
    requires Inv(users) && Legal(users, e) && Answer(users, e.claims, e.pick, e.unused).Row?
    ensures var c, id := e.claims, Answer(users, e.claims, e.pick, e.unused).id;
            var next := After(users, e.claims, e.pick, e.unused);
            var status := if c.status == "" then "active" else c.status;
            && id in next && (forall x :: x != id ==> (x in next <==> x in users)) && (forall x :: x in users && x != id ==> next[x] == users[x])
            && (id in users ==>
                  next[id] == users[id].(subject := c.subject, status := status, isOwner := OwnerOf(c),
                                         tenant := if OwnerOf(c) then Some(id) else users[id].tenant))
            && (id !in users ==>
                  next[id] == User(Lower(Strip(c.email)), c.subject, if c.role in {"platform_admin", "provider"} then "provider" else "business",
                                   status, true, Some(id)))
  {
  }

  /** Any other answer changes nothing. */
  lemma RefusalKeepsUsers(users: Users, e: Event)
    requires Legal(users, e) && !Answer(users, e.claims, e.pick, e.unused).Row?
    ensures Step(users, e) == users
  {
  }

  // ---------------------------------------------------------------- runs

  ghost predicate LegalRun(users: Users, events: seq<Event>)
    decreases |events|
  {
    events == [] || (Legal(users, events[0]) && LegalRun(Step(users, events[0]), events[1..]))
  }

  ghost function Step(users: Users, e: Event): Users
    requires Legal(users, e)
  {
    After(users, e.claims, e.pick, e.unused)
  }

  ghost function Run(users: Users, events: seq<Event>): Users
    requires LegalRun(users, events)
    decreases |events|
  {
    if events == [] then users else Run(Step(users, events[0]), events[1..])
  }

  /** In every run subjects name at most one row, and a bound row never changes subject. */
  lemma {:induction false} RunKeepsBindings(users: Users, events: seq<Event>)
    requires Inv(users) && LegalRun(users, events)
    ensures Inv(Run(users, events)) && AllKept(users, Run(users, events))
    decreases |events|
  {
    if events != [] {
      StepKeepsInv(users, events[0]);
      RunKeepsBindings(Step(users, events[0]), events[1..]);
    }
  }

  /** Two successful reconciliations of one subject, any number of steps apart, return the same row. */
  lemma SameSubjectSameRow(users: Users, first: Event, middle: seq<Event>, second: Event)
    requires Inv(users) && Legal(users, first) && LegalRun(Step(users, first), middle)
    requires Legal(Run(Step(users, first), middle), second)
    requires first.claims.subject == second.claims.subject
    ensures var a := Answer(users, first.claims, first.pick, first.unused);
            var b := Answer(Run(Step(users, first), middle), second.claims, second.pick, second.unused);
            a.Row? && b.Row? ==> a.id == b.id
  {
    var a := Answer(users, first.claims, first.pick, first.unused);
    var last := Run(Step(users, first), middle);
    if a.Row? {
      ReturnedRow(users, first);
      StepKeepsInv(users, first);
      RunKeepsBindings(Step(users, first), middle);
      assert IsBound(last, first.claims.subject.value, a.id);
    }
  }

  /**
   Repeating the claims writes nothing, whatever the email lookup returns.  The repeat is
   refused exactly when that lookup returns a different row than the one bound.
   */
  lemma RepeatWritesNothing(users: Users, e: Event, again: Event)
    requires Inv(users) && Legal(users, e) && Answer(users, e.claims, e.pick, e.unused).Row?
    requires again.claims == e.claims && Legal(Step(users, e), again)
    ensures var r := Answer(users, e.claims, e.pick, e.unused);
            var next := Step(users, e);
            && Step(next, again) == next
            && Answer(next, again.claims, again.pick, again.unused)
               == (if again.pick.Some? && again.pick != Some(r.id) then Conflict else r)
  {
    var r := Answer(users, e.claims, e.pick, e.unused);
    var next := Step(users, e);
    ReturnedRow(users, e);
    StepKeepsInv(users, e);
    assert IsBound(next, e.claims.subject.value, r.id);
  }

  // ---------------------------------------------------------------- enrichment

  predicate OpenStatus(u: User) {
    u.status == "active" || u.status == "pending"
  }

  /** The existing row `enrich_keycloak_claims` chooses; its email lookup does not strip. */
  ghost function Enriched(users: Users, c: Claims, pick: Option<Id>): Option<Id>
    requires LegalPick(users, Lower(c.email), pick)
  {
    if c.email == "" || c.subject.None? then None
    else
      var chosen := Selected(users, c.subject.value, pick);
      if chosen.Some? && OpenStatus(users[chosen.value]) then chosen else None
  }

  /** Enrichment chooses the row bound to the subject, or an unbound one found by email, if it is open and the lookups do not clash. */
  lemma EnrichedIs(users: Users, c: Claims, pick: Option<Id>, a: Id)
    requires UniqueSubjects(users) && LegalPick(users, Lower(c.email), pick)
    ensures Enriched(users, c, pick) == Some(a) <==>
              && c.email != "" && c.subject.Some? && a in users && users[a].status in {"active", "pending"}
              && !Clashes(users, c.subject, pick)
              && (users[a].subject == c.subject || (pick == Some(a) && users[a].subject.None?))
  {
    if c.subject.Some? {
      forall id | id in users && users[id].subject == c.subject ensures BySubject(users, c.subject.value) == Some(id) {
        assert IsBound(users, c.subject.value, id);
      }
    }
  }

  /** What enrichment hands on to reconciliation: the row it chose, under the token's subject. */
  function Forwarded(c: Claims, row: User): Claims {
    Claims(row.email, c.subject, row.role, row.status, Flag(row.isOwner))
  }

  /** Enrichment may choose `a`, and reconciliation of what it hands on may answer with another row `b`. */
  ghost predicate MayDisagree(users: Users, c: Claims, a: Id, b: Id) {
    a in users && exists p, q, unused | LegalPick(users, Lower(c.email), p) && LegalPick(users, EmailOf(Forwarded(c, users[a])), q)
                                        && unused !in users ::
      Enriched(users, c, p) == Some(a) && Answer(users, Forwarded(c, users[a]), q, unused) == Row(b) && a != b
  }

  predicate Unbound(users: Users, email: string, id: Id) {
    Matches(users, email, id) && users[id].subject.None?
  }

  /**
   The two disagree exactly when the subject is not bound, the row chosen is unbound and
   open, and its own email, stripped, is that of another unbound row, or of no row at all:
   then reconciliation gives an owner a new row.
   */
  lemma DisagreeIff(users: Users, c: Claims, a: Id, b: Id)
    requires UniqueSubjects(users)
    ensures MayDisagree(users, c, a, b) <==>
              && a != b && c.email != ""
              && c.subject.Some? && BySubject(users, c.subject.value).None?
              && Unbound(users, Lower(c.email), a) && OpenStatus(users[a])
              && var own := Lower(Strip(users[a].email));
                 own != "" && (Unbound(users, own, b)
                               || (b !in users && users[a].isOwner && forall id :: !Matches(users, own, id)))
  {
    if a != b && c.email != "" && c.subject.Some? && BySubject(users, c.subject.value).None?
       && Unbound(users, Lower(c.email), a) && OpenStatus(users[a]) && Lower(Strip(users[a].email)) != "" {
      var own := Lower(Strip(users[a].email));
      var f := Forwarded(c, users[a]);
      assert Enriched(users, c, Some(a)) == Some(a);
      if Unbound(users, own, b) {
        assert Answer(users, f, Some(b), Unused(users)) == Row(b);
      } else if b !in users && users[a].isOwner && forall id :: !Matches(users, own, id) {
        assert Answer(users, f, None, b) == Row(b);
      }
    }
  }

  ghost function Unused(users: Users): (id: Id)
    ensures id !in users
  {
    UnusedExists(users.Keys);
    var id: Id :| id !in users.Keys;
    id
  }

  lemma {:induction false} UnusedExists(ids: set<Id>)
    ensures exists id: Id :: id !in ids && forall x :: x in ids ==> x < id
    decreases ids
  {
    if x :| x in ids {
      UnusedExists(ids - {x});
      var id: Id :| id !in ids - {x} && forall y :: y in ids - {x} ==> y < id;
      var bound := if id > x then id else x + 1;
      assert forall y :: y in ids ==> y in ids - {x} || y == x;
      assert bound !in ids && forall y :: y in ids ==> y < bound;
    } else {
      assert 0 !in ids && forall y :: y in ids ==> y < 0;
    }
  }

  /** After a reconciliation the subject is bound, and the two never disagree on any token of it. */
  lemma AgreeOnceReconciled(users: Users, e: Event, rest: seq<Event>, c: Claims, a: Id, b: Id)
    requires Inv(users) && Legal(users, e) && Answer(users, e.claims, e.pick, e.unused).Row?
    requires LegalRun(Step(users, e), rest) && c.subject == e.claims.subject
    ensures !MayDisagree(Run(Step(users, e), rest), c, a, b)
  {
    var r := Answer(users, e.claims, e.pick, e.unused);
    ReturnedRow(users, e);
    StepKeepsInv(users, e);
    RunKeepsBindings(Step(users, e), rest);
    var last := Run(Step(users, e), rest);
    assert IsBound(last, c.subject.value, r.id);
    DisagreeIff(last, c, a, b);
  }

  /** Emails that differ by case alone, which the table's UNIQUE key allows, show the disagreement. */
  lemma CaseVariantsDisagree(row: User, x: string, y: string, s: Subject)
    requires x != y && Lower(x) == Lower(y) && Strip(x) == x && Lower(x) != "" && row.subject.None? && OpenStatus(row)
    ensures var users := map[0 := row.(email := x), 1 := row.(email := y)];
            Inv(users) && MayDisagree(users, Claims(x, Some(s), "", "", Missing), 0, 1)
  {
    var users := map[0 := row.(email := x), 1 := row.(email := y)];
    DisagreeIff(users, Claims(x, Some(s), "", "", Missing), 0, 1);
  }

  /** There are such emails. */
  lemma CaseVariantsExist()
    ensures "A@x" != "a@x" && Lower("A@x") == Lower("a@x") && Strip("A@x") == "A@x" && Lower("A@x") != ""
  {
    LowerOfThree("A@x");
    LowerOfThree("a@x");
    assert "A@x"[0] == 'A' && TrimLeft("A@x") == "A@x";
  }

  /** A row whose stored email has a leading space is chosen by enrichment and doubled by reconciliation. */
  lemma UntrimmedRowIsDoubled(s: Subject)
    ensures var users := map[0 := User(" a@x", None, "business", "active", true, Some(0))];
            Inv(users) && MayDisagree(users, Claims(" a@x", Some(s), "", "", Missing), 0, 1)
  {
    var row := User(" a@x", None, "business", "active", true, Some(0));
    var users := map[0 := row];
    assert row.email[1..] == "a@x" && TrimLeft("a@x") == "a@x" && Strip(row.email) == "a@x";
    LowerOfThree("a@x");
    assert |Lower("a@x")| == 3;
    LowerKeepsLength(row.email);
    assert forall id :: !Matches(users, Lower("a@x"), id);
    DisagreeIff(users, Claims(" a@x", Some(s), "", "", Missing), 0, 1);
  }

  lemma {:induction false} LowerKeepsLength(s: string)
    ensures |Lower(s)| == |s|
  {
    if s != [] {
      LowerKeepsLength(s[1..]);
    }
  }

  lemma LowerOfThree(s: string)
    requires |s| == 3
    ensures Lower(s) == [LowerChar(s[0]), LowerChar(s[1]), LowerChar(s[2])]
  {
    assert s[1..][1..] == s[2..] && s[2..][1..] == [];
    assert Lower(s[2..]) == [LowerChar(s[2])];
    assert Lower(s[1..]) == [LowerChar(s[1])] + Lower(s[2..]);
  }

  // ---------------------------------------------------------------- read, then write

  /** The linking UPDATE on its own: it is keyed by id and does not look at the row's binding. */
  function WriteLink(users: Users, c: Claims, id: Id): Users
    requires id in users
  {
    users[id := Projected(users[id], id, c)]
  }

  /** A late link keeps every binding exactly when its row is still unbound, or bound to the same subject. */
  lemma LateLinkKeepsBindingsIff(users: Users, c: Claims, id: Id)
    requires id in users && c.subject.Some?
    ensures AllKept(users, WriteLink(users, c, id)) <==> (users[id].subject.Some? ==> users[id].subject == c.subject)
  {
  }

  /**
   Two subjects with one email read the same unbound row.  The first links it; the second
   still finds its own read in order and takes the row over.
   */
  lemma RacingLinksTransferTheRow(row: User, email: string, s: Subject, t: Subject)
    requires s != t && row.subject.None? && Lower(row.email) == email == Lower(Strip(email)) && email != ""
    ensures var users := map[0 := row];
            var first := Claims(email, Some(s), "", "", Missing);
            var second := Claims(email, Some(t), "", "", Missing);
            && LegalPick(users, EmailOf(first), Some(0)) && LegalPick(users, EmailOf(second), Some(0))
            && Answer(users, first, Some(0), 1) == Row(0) && Answer(users, second, Some(0), 1) == Row(0)
            && var linked := After(users, first, Some(0), 1);
               && IsBound(linked, s, 0)
               && Answer(linked, second, Some(0), 1) == Conflict
               && IsBound(WriteLink(linked, second, 0), t, 0)
  {
  }

  // ---------------------------------------------------------------- runs with late writes

  /**
   A reconciliation served at once, or the final statement of one whose lookups ran at some
   earlier time: the link of a row read unbound, or the insert of a row not found.
   */
  datatype Write =
    | AtOnce(event: Event)
    | LateLink(claims: Claims, id: Id)
    | LateInsert(claims: Claims, id: Id)

  /** The statement passes both UNIQUE constraints; otherwise it raises and changes nothing. */
  ghost predicate Passes(users: Users, w: Write) {
    match w
    case AtOnce(e) => Legal(users, e)
    case LateLink(c, id) => id in users && c.subject.Some? && forall x | x in users && x != id :: users[x].subject != c.subject
    case LateInsert(c, id) => id !in users && c.subject.Some?
                              && forall x | x in users :: users[x].subject != c.subject && users[x].email != EmailOf(c)
  }

  ghost function AfterWrite(users: Users, w: Write): Users {
    if !Passes(users, w) then users
    else match w
      case AtOnce(e) => Step(users, e)
      case LateLink(c, id) => WriteLink(users, c, id)
      case LateInsert(c, id) => users[id := NewOwner(c, id)]
  }

  ghost function RunWrites(start: Users, writes: seq<Write>): Users {
    if writes == [] then start
    else AfterWrite(RunWrites(start, writes[..|writes| - 1]), writes[|writes| - 1])
  }

  /** What the late statements write: nothing when a key is taken; else the link mirrors the claims, the insert is a new owner's row. */
  lemma LateStatementsWrite(users: Users, c: Claims, s: Subject, id: Id)
    requires c.subject == Some(s)
    ensures var status := if c.status == "" then "active" else c.status;
            && AfterWrite(users, LateLink(c, id))
               == (if id in users && forall x | x in users && x != id :: users[x].subject != Some(s)
                   then users[id := users[id].(subject := Some(s), status := status, isOwner := OwnerOf(c),
                                               tenant := if OwnerOf(c) then Some(id) else users[id].tenant)]
                   else users)
            && AfterWrite(users, LateInsert(c, id))
               == (if id !in users && forall x | x in users :: users[x].subject != Some(s) && users[x].email != Lower(Strip(c.email))
                   then users[id := User(Lower(Strip(c.email)), Some(s), if c.role in {"platform_admin", "provider"} then "provider" else "business",
                                         status, true, Some(id))]
                   else users)
  {
  }

  /** A late link of the row for another subject, which no other row has. */
  ghost predicate TakesOver(users: Users, w: Write, id: Id, s: Subject) {
    w.LateLink? && w.id == id && w.claims.subject != Some(s) && Passes(users, w)
  }

  lemma WriteKeepsBindingIff(users: Users, w: Write, id: Id, s: Subject)
    requires Inv(users) && IsBound(users, s, id)
    ensures Inv(AfterWrite(users, w))
    ensures IsBound(AfterWrite(users, w), s, id) <==> !TakesOver(users, w, id, s)
  {
    if Passes(users, w) {
      match w {
        case AtOnce(e) => StepKeepsInv(users, e);
        case LateLink(c, x) => LinkKeepsInv(users, c, x);
        case LateInsert(c, x) => PutKeepsInv(users, x, NewOwner(c, x));
      }
    }
  }

  lemma LinkKeepsInv(users: Users, c: Claims, id: Id)
    requires Inv(users) && Passes(users, LateLink(c, id))
    ensures Inv(WriteLink(users, c, id))
  {
    forall other | other in users && other != id ensures users[other].email != users[id].email {
    }
    PutKeepsInv(users, id, Projected(users[id], id, c));
  }

  /** The row is bound to the subject at the start and after each of the writes. */
  ghost predicate BoundThroughout(start: Users, writes: seq<Write>, id: Id, s: Subject) {
    IsBound(RunWrites(start, writes), s, id) && (writes == [] || BoundThroughout(start, writes[..|writes| - 1], id, s))
  }

  ghost predicate NeverTakenOver(start: Users, writes: seq<Write>, id: Id, s: Subject) {
    writes == []
    || (NeverTakenOver(start, writes[..|writes| - 1], id, s)
        && !TakesOver(RunWrites(start, writes[..|writes| - 1]), writes[|writes| - 1], id, s))
  }

  /** In every interleaving a row keeps its subject exactly until a late link of that row for a subject bound nowhere else. */
  lemma {:induction false} BoundUntilTakenOverIff(start: Users, writes: seq<Write>, id: Id, s: Subject)
    requires Inv(start) && IsBound(start, s, id)
    ensures BoundThroughout(start, writes, id, s) <==> NeverTakenOver(start, writes, id, s)
    ensures BoundThroughout(start, writes, id, s) ==> Inv(RunWrites(start, writes))
  {
    if writes != [] {
      var earlier := writes[..|writes| - 1];
      BoundUntilTakenOverIff(start, earlier, id, s);
      if BoundThroughout(start, earlier, id, s) {
        WriteKeepsBindingIff(RunWrites(start, earlier), writes[|writes| - 1], id, s);
      }
    }
  }
}
