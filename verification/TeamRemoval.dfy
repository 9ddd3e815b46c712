/**
 Removing a team account from the database and from Keycloak:
 `backend/auth/team_account_removal.py`.

 Rows that reference the user are its dependents.  A blocking dependent (a restricting
 foreign key, or one whose trigger refuses the SET NULL) stops the deletion; a cascading
 one goes with the user, unless something else holds it: documents are deleted with their
 owner, but not a document with an official artifact, an attachment or a child version.
 The row lock of the removal makes inserts that reference the user wait.  It does not
 cover rows that only reference a dependent, and rolling back the probe gives up the locks
 the probe took.
 */
module TeamRemoval {

  type Id = nat

  datatype Kind = Blocking | Detaching | Cascading

  /** `holds` counts the rows that keep a dependent from being deleted. */
  datatype Dependent = Dependent(kind: Kind, holds: nat)

  datatype Phase = Idle | Locked | Probed | Called | Deleted

  /**
   `user` is the committed row, `bound` whether it carries a Keycloak subject, `keycloak`
   whether that identity exists, `phase` how far the removal's transaction has come.
   */
  datatype State = State(user: bool, bound: bool, keycloak: bool, dependents: map<Id, Dependent>, phase: Phase)

  predicate Stops(d: Dependent) {
    d.kind.Blocking? || (d.kind.Cascading? && d.holds > 0)
  }

  /** A DELETE of the user's row passes the foreign keys and triggers. */
  ghost predicate Deletable(dependents: map<Id, Dependent>) {
    forall d | d in dependents :: !Stops(dependents[d])
  }

  /** Keycloak's side of the call: done (or nothing left to do), refused, or done with the reply lost. */
  datatype Reply = Done | Refused | LostReply

  datatype Step =
      // other sessions
    | Refer(id: Id, dependent: Dependent)
    | Unrefer(id: Id)
    | Hold(id: Id)
    | Release(id: Id)
      // the removal
    | Lock(eligible: bool)
    | Probe(fault: bool)
    | CallKeycloak(reply: Reply)
    | FinalDelete
    | Commit
    | Crash

  ghost predicate Enabled(s: State, step: Step) {
    match step
    case Refer(id, _) => s.phase.Idle? && s.user && id !in s.dependents
    case Unrefer(id) => !s.phase.Deleted? && id in s.dependents
    case Hold(id) => !s.phase.Deleted? && id in s.dependents
    case Release(id) => !s.phase.Deleted? && id in s.dependents && s.dependents[id].holds > 0
    case Lock(_) => s.phase.Idle?
    case Probe(_) => s.phase.Locked?
    case CallKeycloak(_) => s.phase.Probed?
    case FinalDelete => s.phase.Called?
    case Commit => s.phase.Deleted?
    case Crash => !s.phase.Idle?
  }

  ghost function After(s: State, step: Step): State
    requires Enabled(s, step)
  {
    match step
    case Refer(id, dependent) => s.(dependents := s.dependents[id := dependent])
    case Unrefer(id) => s.(dependents := s.dependents - {id})
    case Hold(id) => s.(dependents := s.dependents[id := s.dependents[id].(holds := s.dependents[id].holds + 1)])
    case Release(id) => s.(dependents := s.dependents[id := s.dependents[id].(holds := s.dependents[id].holds - 1)])
    case Lock(eligible) => if s.user && eligible then s.(phase := Locked) else s
    case Probe(fault) => s.(phase := if Deletable(s.dependents) && !fault then Probed else Idle)
    case CallKeycloak(reply) =>
      if !s.bound then s.(phase := Called)
      else
        match reply {
          case Done => s.(keycloak := false, phase := Called)
          case Refused => s.(phase := Idle)
          case LostReply => s.(keycloak := false, phase := Idle)
        }
    case FinalDelete => s.(phase := if Deletable(s.dependents) then Deleted else Idle)
    case Commit => s.(user := false, dependents := map[], phase := Idle)
    case Crash => s.(phase := Idle)
  }

  // ---------------------------------------------------------------- invariants

  ghost predicate NoBlocking(dependents: map<Id, Dependent>) {
    forall d | d in dependents :: !dependents[d].kind.Blocking?
  }

  ghost predicate Inv(s: State) {
    && (!s.phase.Idle? ==> s.user)
    && (!s.user ==> s.dependents == map[] && (s.bound ==> !s.keycloak))
    && (s.phase.Probed? || s.phase.Called? ==> NoBlocking(s.dependents))
    && (s.phase.Called? || s.phase.Deleted? ==> s.bound ==> !s.keycloak)
    && (s.phase.Deleted? ==> Deletable(s.dependents))
  }

  /** Both identities are there or both are gone, except between the call to Keycloak and the commit. */
  predicate Agreed(s: State) {
    s.bound ==>
      if s.phase.Called? || s.phase.Deleted? then s.user && !s.keycloak else s.keycloak == s.user
  }

  ghost predicate LateHold(s: State) {
    exists d | d in s.dependents :: s.dependents[d].kind.Cascading? && s.dependents[d].holds > 0
  }

  /** The steps that part the identities: the reply is lost, the removal dies after the call, or a dependent came to be held since the probe. */
  ghost predicate Spoils(s: State, step: Step) {
    s.bound &&
    match step
    case CallKeycloak(reply) => reply.LostReply?
    case Crash => s.phase.Called? || s.phase.Deleted?
    case FinalDelete => LateHold(s)
    case _ => false
  }

  /** In every interleaving: a deleted row has no identity left, and no blocking reference appears between probe and deletion. */
  lemma StepKeepsInv(s: State, step: Step)
    requires Inv(s) && Enabled(s, step)
    ensures Inv(After(s, step))
  {
  }

  /** After a successful probe the final deletion fails exactly when a cascading dependent has come to be held. */
  lemma FinalDeleteFailsIff(s: State)
    requires Inv(s) && Enabled(s, FinalDelete)
    ensures After(s, FinalDelete).phase.Idle? <==> LateHold(s)
  {
  }

  /** A step keeps the identities in agreement exactly when it is not one of the spoiling ones. */
  lemma StepAgreesIff(s: State, step: Step)
    requires Inv(s) && Agreed(s) && Enabled(s, step)
    ensures Agreed(After(s, step)) <==> !Spoils(s, step)
  {
  }

  /** What stops a DELETE: a blocking dependent, or a cascading one that something holds. A detaching one never does. */
  lemma DeletableIff(dependents: map<Id, Dependent>)
    ensures Deletable(dependents) <==>
              forall d | d in dependents :: dependents[d].kind == Detaching || dependents[d] == Dependent(Cascading, 0)
  {
    forall d | d in dependents ensures Stops(dependents[d]) <==> !(dependents[d].kind == Detaching || dependents[d] == Dependent(Cascading, 0)) {
      match dependents[d].kind
      case Blocking =>
      case Detaching =>
      case Cascading =>
    }
  }

  /**
   When each step can happen.  The row lock makes new references wait, and a reference to a
   deleted row; it stops nobody from referring to a dependent.
   */
  lemma EnabledIff(s: State, step: Step)
    ensures Enabled(s, step) <==>
              match step
              case Refer(id, _) => s.phase == Idle && s.user && id !in s.dependents
              case Unrefer(id) => s.phase in {Idle, Locked, Probed, Called} && id in s.dependents
              case Hold(id) => s.phase in {Idle, Locked, Probed, Called} && id in s.dependents
              case Release(id) => s.phase in {Idle, Locked, Probed, Called} && id in s.dependents && s.dependents[id].holds >= 1
              case Lock(_) => s.phase == Idle
              case Probe(_) => s.phase == Locked
              case CallKeycloak(_) => s.phase == Probed
              case FinalDelete => s.phase == Called
              case Commit => s.phase == Deleted
              case Crash => s.phase in {Locked, Probed, Called, Deleted}
  {
    match s.phase
    case Idle =>
    case Locked =>
    case Probed =>
    case Called =>
    case Deleted =>
  }

  /** What other sessions do: to one dependent, and to nothing else. */
  lemma OtherSessionsSteps(s: State, step: Step)
    requires Enabled(s, step) && (step.Refer? || step.Unrefer? || step.Hold? || step.Release?)
    ensures var next, id := After(s, step), step.id;
            && next == s.(dependents := next.dependents)
            && (forall d :: d != id ==> (d in next.dependents <==> d in s.dependents))
            && (forall d :: d != id && d in s.dependents ==> next.dependents[d] == s.dependents[d])
            && (id in next.dependents <==> !step.Unrefer?)
            && (step.Refer? ==> next.dependents[id] == step.dependent)
            && (step.Hold? ==> next.dependents[id] == s.dependents[id].(holds := s.dependents[id].holds + 1))
            && (step.Release? ==> s.dependents[id] == next.dependents[id].(holds := next.dependents[id].holds + 1))
  {
  }

  /** What the removal's own steps do. */
  lemma RemovalSteps(s: State, step: Step)
    requires Inv(s) && Enabled(s, step)
    ensures var next := After(s, step);
            && (step.Lock? ==> next == if s.user && step.eligible then s.(phase := Locked) else s)
            && (step.Probe? ==> next == s.(phase := if !step.fault && Deletable(s.dependents) then Probed else Idle))
            && (step.CallKeycloak? ==>
                  next == s.(keycloak := s.keycloak && (!s.bound || step.reply == Refused),
                             phase := if !s.bound || step.reply == Done then Called else Idle))
            && (step.FinalDelete? ==> next == s.(phase := if Deletable(s.dependents) then Deleted else Idle))
            && (step.Commit? ==> next == s.(user := false, dependents := map[], phase := Idle))
            && (step.Crash? ==> next == s.(phase := Idle))
  {
  }

  // ---------------------------------------------------------------- runs

  ghost predicate IsRun(s: State, steps: seq<Step>)
    decreases |steps|
  {
    steps == [] || (Enabled(s, steps[0]) && IsRun(After(s, steps[0]), steps[1..]))
  }

  ghost function Run(s: State, steps: seq<Step>): State
    requires IsRun(s, steps)
    decreases |steps|
  {
    if steps == [] then s else Run(After(s, steps[0]), steps[1..])
  }

  ghost predicate Clean(s: State, steps: seq<Step>)
    requires IsRun(s, steps)
    decreases |steps|
  {
    steps == [] || (!Spoils(s, steps[0]) && Clean(After(s, steps[0]), steps[1..]))
  }

  lemma {:induction false} RunKeepsInv(s: State, steps: seq<Step>)
    requires Inv(s) && IsRun(s, steps)
    ensures Inv(Run(s, steps))
    decreases |steps|
  {
    if steps != [] {
      StepKeepsInv(s, steps[0]);
      RunKeepsInv(After(s, steps[0]), steps[1..]);
    }
  }

  /** In every run, however it ends, the database row is never gone while the identity remains. */
  lemma RowGoneMeansIdentityGone(s: State, steps: seq<Step>)
    requires Inv(s) && IsRun(s, steps)
    ensures var end := Run(s, steps);
            !end.user && end.bound ==> !end.keycloak
  {
    RunKeepsInv(s, steps);
  }

  /** In every run without a spoiling step, whenever no removal is under way, both identities are gone or both are intact. */
  lemma {:induction false} CleanRunsAgree(s: State, steps: seq<Step>)
    requires Inv(s) && Agreed(s) && IsRun(s, steps) && Clean(s, steps)
    ensures Agreed(Run(s, steps))
    ensures var end := Run(s, steps);
            end.phase.Idle? && end.bound ==> end.keycloak == end.user
    decreases |steps|
  {
    if steps != [] {
      StepKeepsInv(s, steps[0]);
      StepAgreesIff(s, steps[0]);
      CleanRunsAgree(After(s, steps[0]), steps[1..]);
    }
  }

  /** A spoiling step ends the removal with the row intact and the identity gone. */
  lemma SpoiledRunsDisagree(s: State, steps: seq<Step>, spoiler: Step)
    requires Inv(s) && Agreed(s) && IsRun(s, steps) && Clean(s, steps)
    requires Enabled(Run(s, steps), spoiler) && Spoils(Run(s, steps), spoiler)
    ensures var end := After(Run(s, steps), spoiler);
            end.phase.Idle? && end.user && !end.keycloak
  {
    RunKeepsInv(s, steps);
    if spoiler.FinalDelete? {
      FinalDeleteFailsIff(Run(s, steps));
    }
  }

  /** The held dependent is not far-fetched: one cascading dependent, held after the probe, parts the identities. */
  lemma HoldAfterTheProbeParts(id: Id)
    ensures var s := State(true, true, true, map[id := Dependent(Cascading, 0)], Idle);
            var steps := [Lock(true), Probe(false), Hold(id), CallKeycloak(Done), FinalDelete];
            && Inv(s) && Agreed(s)
            && IsRun(s, steps) && Run(s, steps).user && !Run(s, steps).keycloak && Run(s, steps).phase.Idle?
  {
    var s0 := State(true, true, true, map[id := Dependent(Cascading, 0)], Idle);
    var steps := [Lock(true), Probe(false), Hold(id), CallKeycloak(Done), FinalDelete];
    var s1 := s0.(phase := Locked);
    var s2 := s0.(phase := Probed);
    assert Deletable(s1.dependents);
    var s3 := s2.(dependents := map[id := Dependent(Cascading, 1)]);
    assert After(s2, Hold(id)).dependents == s3.dependents;
    var s4 := s3.(keycloak := false, phase := Called);
    assert Stops(s4.dependents[id]);
    var s5 := s4.(phase := Idle);
    RunOfFive(s0, s1, s2, s3, s4, s5, steps);
  }

  lemma RunOfFive(s0: State, s1: State, s2: State, s3: State, s4: State, s5: State, steps: seq<Step>)
    requires |steps| == 5
    requires Enabled(s0, steps[0]) && s1 == After(s0, steps[0])
    requires Enabled(s1, steps[1]) && s2 == After(s1, steps[1])
    requires Enabled(s2, steps[2]) && s3 == After(s2, steps[2])
    requires Enabled(s3, steps[3]) && s4 == After(s3, steps[3])
    requires Enabled(s4, steps[4]) && s5 == After(s4, steps[4])
    ensures IsRun(s0, steps) && Run(s0, steps) == s5
  {
    assert steps[1..][1..] == steps[2..] && steps[2..][1..] == steps[3..] && steps[3..][1..] == steps[4..] && steps[4..][1..] == [];
    assert IsRun(s5, []) && Run(s5, []) == s5;
    assert IsRun(s4, steps[4..]) && Run(s4, steps[4..]) == s5;
    assert IsRun(s3, steps[3..]) && Run(s3, steps[3..]) == s5;
    assert IsRun(s2, steps[2..]) && Run(s2, steps[2..]) == s5;
    assert IsRun(s1, steps[1..]) && Run(s1, steps[1..]) == s5;
  }

  /** Whatever parted the identities, an undisturbed retry deletes what is left: Keycloak takes a missing user for success. */
  lemma RetryHeals(s: State)
    requires Inv(s) && s.phase.Idle? && s.user && Deletable(s.dependents)
    ensures var steps := [Lock(true), Probe(false), CallKeycloak(Done), FinalDelete, Commit];
            && IsRun(s, steps) && !Run(s, steps).user && (s.bound ==> !Run(s, steps).keycloak)
  {
  }

  // ---------------------------------------------------------------- one undisturbed removal

  datatype Outcome = Removed | NotFound | HasHistory | KeycloakFailed

  class Accounts {
    var user: bool
    var keycloak: bool
    var dependents: map<Id, Dependent>
    const bound: bool

    constructor (bound: bool, dependents: map<Id, Dependent>)
      ensures user && keycloak == bound && this.bound == bound && this.dependents == dependents
    {
      user, keycloak, this.bound, this.dependents := true, bound, bound, dependents;
    }

    /** DELETE FROM users: raises and changes nothing when a dependent stops it, cascades otherwise. */
    method DeleteUser() returns (raised: bool)
      modifies `user, `dependents
      ensures raised == !Deletable(old(dependents))
      ensures raised ==> user == old(user) && dependents == old(dependents)
      ensures !raised ==> !user && dependents == map[]
    {
      if d :| d in dependents && Stops(dependents[d]) {
        return true;
      }
      user := false;
      dependents := map[];
      return false;
    }

    /**
     With nobody interfering the two identities end both gone or both intact, unless
     Keycloak's reply is lost; and the final deletion is certain once the probe has passed.
     */
    method RemoveTeamAccount(eligible: bool, reply: Reply) returns (r: Outcome)
      requires bound ==> keycloak == user
      modifies this
      ensures r.NotFound? <==> !old(user) || !eligible
      ensures r.HasHistory? <==> old(user) && eligible && !Deletable(old(dependents))
      ensures r.Removed? ==> !user && dependents == map[] && (bound ==> !keycloak) && (!bound ==> keycloak == old(keycloak))
      ensures r.KeycloakFailed? && reply.LostReply? ==> !keycloak
      ensures !r.Removed? ==> user == old(user) && dependents == old(dependents)
      ensures !r.Removed? && !(r.KeycloakFailed? && reply.LostReply?) ==> keycloak == old(keycloak)
      ensures r.KeycloakFailed? <==>
                old(user) && eligible && Deletable(old(dependents)) && bound && !reply.Done?
    {
      if !user || !eligible {
        return NotFound;
      }
      var savepointUser, savepointDependents := user, dependents;
      var raised := DeleteUser();
      user, dependents := savepointUser, savepointDependents;
      if raised {
        return HasHistory;
      }
      if bound {
        if !reply.Refused? {
          keycloak := false;
        }
        if !reply.Done? {
          return KeycloakFailed;
        }
      }
      raised := DeleteUser();
      assert !raised;
      return Removed;
    }
  }
}
