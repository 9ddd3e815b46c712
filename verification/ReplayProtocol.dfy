/**
 The idempotent replay protocol, `_execute_mobile_replay_operation` in
 `backend/auth/audit_router.py`.

 One transaction inserts a receipt, runs the mutation and completes the receipt.  The
 state machine has one step per statement at which another session can run.  The unique
 index makes a second insert of a key wait for the transaction that holds it: the step
 is simply not enabled until that transaction has committed or rolled back.
 */
module ReplayProtocol {

  /** A receipt key is the tuple of unique-index columns, an opaque value here. */
  type Key = string
  type Session = nat

  datatype Receipt = Receipt(hash: string, status: int, body: string)

  const IN_PROGRESS_BODY := "mobile_replay_in_progress"
  const IN_PROGRESS_STATUS := 409
  const DONE_STATUS := 200

  /** A committed effect of a mutation. */
  datatype Effect = Effect(key: Key, hash: string, body: string, session: Session)

  datatype Outcome =
    | Success(body: string)
    | HashConflict          // 409 from the duplicate classification
    | ReservationConflict   // 409 because the duplicate receipt cannot be read
    | Failed                // the transaction rolled back

  /** Where a session stands in its transaction. */
  datatype Phase =
    | Started
    | Reserved                      // the uncommitted receipt says "in progress"
    | Mutated(body: string)         // mutation and completed receipt, both uncommitted
    | Duplicate                     // the insert returned no row
    | Finished(outcome: Outcome)

  datatype Request = Request(key: Key, hash: string, phase: Phase)

  /** Committed receipts and effects, and all sessions ever started. */
  datatype State = State(receipts: map<Key, Receipt>, effects: seq<Effect>, sessions: map<Session, Request>)

  datatype Step =
    | Begin(s: Session, key: Key, hash: string)
    | Reserve(s: Session)
    | Mutate(s: Session, result: string)
    | Commit(s: Session)
    | Read(s: Session)
    | Abort(s: Session)

  // ---------------------------------------------------------------- the protocol

  datatype Classification = StableSuccess(body: string) | Conflict

  function Classify(existing: Receipt, incomingHash: string): Classification {
    if existing.hash == incomingHash then StableSuccess(existing.body) else Conflict
  }

  /** The session has an uncommitted receipt for its key. */
  predicate Holds(r: Request) {
    r.phase.Reserved? || r.phase.Mutated?
  }

  /** The receipt row as the session's own transaction sees it. */
  function Pending(r: Request): Receipt
    requires Holds(r)
  {
    match r.phase
    case Mutated(body) => Receipt(r.hash, DONE_STATUS, body)
    case _ => Receipt(r.hash, IN_PROGRESS_STATUS, IN_PROGRESS_BODY)
  }

  ghost predicate KeyHeld(st: State, key: Key) {
    exists t :: t in st.sessions && st.sessions[t].key == key && Holds(st.sessions[t])
  }

  ghost predicate Enabled(st: State, step: Step) {
    match step
    case Begin(s, _, _) => s !in st.sessions
    case Reserve(s) =>
      && s in st.sessions && st.sessions[s].phase.Started?
      && !KeyHeld(st, st.sessions[s].key)
    case Mutate(s, _) => s in st.sessions && st.sessions[s].phase.Reserved?
    case Commit(s) => s in st.sessions && st.sessions[s].phase.Mutated?
    case Read(s) => s in st.sessions && st.sessions[s].phase.Duplicate?
    case Abort(s) => s in st.sessions && !st.sessions[s].phase.Finished?
  }

  function At(st: State, s: Session, phase: Phase): State
    requires s in st.sessions
  {
    st.(sessions := st.sessions[s := st.sessions[s].(phase := phase)])
  }

  function Apply(st: State, step: Step): State
    requires Enabled(st, step)
  {
    match step
    case Begin(s, key, hash) => st.(sessions := st.sessions[s := Request(key, hash, Started)])
    case Reserve(s) => At(st, s, if st.sessions[s].key in st.receipts then Duplicate else Reserved)
    case Mutate(s, result) => At(st, s, Mutated(result))
    case Commit(s) =>
      var r := st.sessions[s];
      At(st, s, Finished(Success(r.phase.body))).(
        receipts := st.receipts[r.key := Pending(r)],
        effects := st.effects + [Effect(r.key, r.hash, r.phase.body, s)])
    case Read(s) =>
      var r := st.sessions[s];
      At(st, s, Finished(
        if r.key !in st.receipts then ReservationConflict
        else match Classify(st.receipts[r.key], r.hash)
             case StableSuccess(body) => Success(body)
             case Conflict => HashConflict))
    case Abort(s) => At(st, s, Finished(Failed))
  }

  /** When each step can happen: a reservation waits while another session has the key's receipt uncommitted. */
  lemma EnabledIff(st: State, step: Step)
    ensures Enabled(st, step) <==>
              if step.Begin? then step.s !in st.sessions
              else
                && step.s in st.sessions
                && var r := st.sessions[step.s];
                   match step
                   case Reserve(_) =>
                     r.phase == Started &&
                     forall t :: t in st.sessions && st.sessions[t].key == r.key ==> !st.sessions[t].phase.Reserved? && !st.sessions[t].phase.Mutated?
                   case Mutate(_, _) => r.phase == Reserved
                   case Commit(_) => r.phase.Mutated?
                   case Read(_) => r.phase == Duplicate
                   case _ => !r.phase.Finished?
  {
  }

  /** What each step does to its session and, when it commits, to the tables; no step writes another session. */
  lemma StepWrites(st: State, step: Step)
    requires Inv(st) && Enabled(st, step)
    ensures var next := Apply(st, step);
            && (forall t :: t != step.s ==> (t in next.sessions <==> t in st.sessions))
            && (forall t :: t in st.sessions && t != step.s ==> next.sessions[t] == st.sessions[t])
            && step.s in next.sessions
            && (!step.Commit? ==> next.receipts == st.receipts && next.effects == st.effects)
            && (step.Begin? ==> next.sessions[step.s] == Request(step.key, step.hash, Started))
            && (!step.Begin? ==> next.sessions[step.s] == st.sessions[step.s].(phase := next.sessions[step.s].phase))
    ensures !step.Begin? ==>
              var next, r := Apply(st, step), st.sessions[step.s];
              var phase := next.sessions[step.s].phase;
              && (step.Reserve? ==> phase == if r.key in st.receipts then Duplicate else Reserved)
              && (step.Mutate? ==> phase == Mutated(step.result))
              && (step.Commit? ==> && phase == Finished(Success(r.phase.body))
                                   && next.receipts == st.receipts[r.key := Receipt(r.hash, 200, r.phase.body)]
                                   && next.effects == st.effects + [Effect(r.key, r.hash, r.phase.body, step.s)])
              && (step.Read? ==> phase == Finished(if st.receipts[r.key].hash == r.hash then Success(st.receipts[r.key].body) else HashConflict))
              && (step.Abort? ==> phase == Finished(Failed))
  {
    if step.Read? {
      assert AnswerIsJustified(st, st.sessions[step.s]);
    }
  }

  const INITIAL := State(map[], [], map[])

  /** `trace` is a run: it starts empty and every step is enabled where it happens. */
  ghost predicate IsRun(trace: seq<State>, steps: seq<Step>) {
    && |trace| == |steps| + 1
    && trace[0] == INITIAL
    && forall i :: 0 <= i < |steps| ==> Enabled(trace[i], steps[i]) && trace[i + 1] == Apply(trace[i], steps[i])
  }

  // ---------------------------------------------------------------- the invariant

  /** The committed receipts are exactly the committed effects, one of each per key. */
  ghost predicate ReceiptsMatchEffects(st: State) {
    && (forall i, j :: 0 <= i < j < |st.effects| ==> st.effects[i].key != st.effects[j].key)
    && (forall i :: 0 <= i < |st.effects| ==>
          var e := st.effects[i];
          e.key in st.receipts && st.receipts[e.key] == Receipt(e.hash, DONE_STATUS, e.body))
    && (forall k :: k in st.receipts ==> exists i :: 0 <= i < |st.effects| && st.effects[i].key == k)
  }

  /** At most one session holds a key, and only while no receipt of the key is committed. */
  ghost predicate HoldersAreExclusive(st: State) {
    && (forall s, t | s in st.sessions && t in st.sessions && Holds(st.sessions[s]) && Holds(st.sessions[t]) ::
          st.sessions[s].key == st.sessions[t].key ==> s == t)
    && (forall s :: s in st.sessions && Holds(st.sessions[s]) ==> st.sessions[s].key !in st.receipts)
  }

  /** What a session that has its answer, or knows of a duplicate, may rely on. */
  ghost predicate AnswerIsJustified(st: State, r: Request) {
    match r.phase
    case Duplicate => r.key in st.receipts
    case Finished(Success(body)) => r.key in st.receipts && st.receipts[r.key] == Receipt(r.hash, DONE_STATUS, body)
    case Finished(HashConflict) => r.key in st.receipts && st.receipts[r.key].hash != r.hash
    case Finished(ReservationConflict) => false
    case _ => true
  }

  /** Effects come from sessions that answered success. */
  ghost predicate EffectsAreAnswered(st: State) {
    forall i :: 0 <= i < |st.effects| ==>
      var e := st.effects[i];
      e.session in st.sessions && st.sessions[e.session] == Request(e.key, e.hash, Finished(Success(e.body)))
  }

  ghost predicate Inv(st: State) {
    && ReceiptsMatchEffects(st)
    && HoldersAreExclusive(st)
    && (forall s :: s in st.sessions ==> AnswerIsJustified(st, st.sessions[s]))
    && EffectsAreAnswered(st)
  }

  lemma CommitMatchesEffects(st: State, s: Session)
    requires ReceiptsMatchEffects(st) && HoldersAreExclusive(st) && Enabled(st, Commit(s))
    ensures ReceiptsMatchEffects(Apply(st, Commit(s)))
  {
    var r, next := st.sessions[s], Apply(st, Commit(s));
    var n := |st.effects|;
    assert Holds(r) && r.key !in st.receipts;
    forall k | k in next.receipts ensures exists i :: 0 <= i < |next.effects| && next.effects[i].key == k {
      if k == r.key {
        assert next.effects[n].key == k;
      } else {
        var i :| 0 <= i < n && st.effects[i].key == k;
        assert next.effects[i].key == k;
      }
    }
  }

  lemma ReserveKeepsHolders(st: State, s: Session)
    requires HoldersAreExclusive(st) && Enabled(st, Reserve(s))
    ensures HoldersAreExclusive(Apply(st, Reserve(s)))
  {
  }

  lemma CommitKeepsHolders(st: State, s: Session)
    requires HoldersAreExclusive(st) && Enabled(st, Commit(s))
    ensures HoldersAreExclusive(Apply(st, Commit(s)))
  {
  }

  lemma StepKeepsHolders(st: State, step: Step)
    requires HoldersAreExclusive(st) && Enabled(st, step)
    ensures HoldersAreExclusive(Apply(st, step))
  {
    match step {
      case Reserve(s) => ReserveKeepsHolders(st, s);
      case Commit(s) => CommitKeepsHolders(st, s);
      case _ =>
    }
  }

  lemma StepKeepsAnswers(st: State, step: Step)
    requires Inv(st) && Enabled(st, step)
    ensures var next := Apply(st, step);
            forall s :: s in next.sessions ==> AnswerIsJustified(next, next.sessions[s])
  {
    var next := Apply(st, step);
    forall s | s in next.sessions ensures AnswerIsJustified(next, next.sessions[s]) {
      if s != step.s {
        assert s in st.sessions && next.sessions[s] == st.sessions[s];
        assert AnswerIsJustified(st, st.sessions[s]);
      }
    }
  }

  lemma StepKeepsEffectsAnswered(st: State, step: Step)
    requires Inv(st) && Enabled(st, step)
    ensures EffectsAreAnswered(Apply(st, step))
  {
  }

  /** Every enabled step of every session keeps the invariant. */
  lemma {:induction false} StepKeepsInv(st: State, step: Step)
    requires Inv(st) && Enabled(st, step)
    ensures Inv(Apply(st, step))
  {
    if step.Commit? {
      CommitMatchesEffects(st, step.s);
    }
    StepKeepsHolders(st, step);
    StepKeepsAnswers(st, step);
    StepKeepsEffectsAnswered(st, step);
  }

  lemma {:induction false} RunKeepsInv(trace: seq<State>, steps: seq<Step>, i: nat)
    requires IsRun(trace, steps) && i < |trace|
    ensures Inv(trace[i])
  {
    if i > 0 {
      RunKeepsInv(trace, steps, i - 1);
      StepKeepsInv(trace[i - 1], steps[i - 1]);
    }
  }

  // ---------------------------------------------------------------- exactly once

  /** The number of committed effects of a key. */
  function EffectCount(effects: seq<Effect>, key: Key): nat {
    if effects == [] then 0 else EffectCount(effects[1..], key) + if effects[0].key == key then 1 else 0
  }

  lemma {:induction false} CountIsOneAtMost(effects: seq<Effect>, key: Key)
    requires forall i, j :: 0 <= i < j < |effects| ==> effects[i].key != effects[j].key
    ensures EffectCount(effects, key) == if exists i :: 0 <= i < |effects| && effects[i].key == key then 1 else 0
  {
    if effects != [] {
      var rest := effects[1..];
      CountIsOneAtMost(rest, key);
      if effects[0].key == key {
        assert !exists i :: 0 <= i < |rest| && rest[i].key == key;
      } else if i :| 0 <= i < |effects| && effects[i].key == key {
        assert rest[i - 1].key == key;
      }
    }
  }

  /**
   Exactly once: in every run a key's mutation has taken effect at most once, and it has
   done so exactly when the key's receipt is committed.
   */
  lemma EffectCommitsAtMostOnce(trace: seq<State>, steps: seq<Step>, i: nat, key: Key)
    requires IsRun(trace, steps) && i < |trace|
    ensures EffectCount(trace[i].effects, key) == if key in trace[i].receipts then 1 else 0
  {
    RunKeepsInv(trace, steps, i);
    CountIsOneAtMost(trace[i].effects, key);
  }

  lemma ReceiptStays(st: State, step: Step, key: Key)
    requires Inv(st) && Enabled(st, step) && key in st.receipts
    ensures key in Apply(st, step).receipts && Apply(st, step).receipts[key] == st.receipts[key]
  {
    if step.Commit? {
      assert Holds(st.sessions[step.s]);
    }
  }

  /** A committed receipt never changes, so later answers repeat the first. */
  lemma {:induction false} ReceiptsArePermanent(trace: seq<State>, steps: seq<Step>, i: nat, j: nat, key: Key)
    requires IsRun(trace, steps) && i <= j < |trace| && key in trace[i].receipts
    ensures key in trace[j].receipts && trace[j].receipts[key] == trace[i].receipts[key]
    ensures trace[i].receipts[key].status == 200
  {
    RunKeepsInv(trace, steps, i);
    if i < j {
      ReceiptsArePermanent(trace, steps, i, j - 1, key);
      RunKeepsInv(trace, steps, j - 1);
      ReceiptStays(trace[j - 1], steps[j - 1], key);
    }
  }

  /** Every success for a key, in whatever session and at whatever time, carries one and the same hash and response. */
  lemma SuccessesAgree(trace: seq<State>, steps: seq<Step>, i: nat, s: Session, j: nat, t: Session)
    requires IsRun(trace, steps) && i < |trace| && j < |trace|
    requires s in trace[i].sessions && trace[i].sessions[s].phase.Finished? && trace[i].sessions[s].phase.outcome.Success?
    requires t in trace[j].sessions && trace[j].sessions[t].phase.Finished? && trace[j].sessions[t].phase.outcome.Success?
    requires trace[i].sessions[s].key == trace[j].sessions[t].key
    ensures trace[i].sessions[s].hash == trace[j].sessions[t].hash
    ensures trace[i].sessions[s].phase == trace[j].sessions[t].phase
  {
    RunKeepsInv(trace, steps, i);
    RunKeepsInv(trace, steps, j);
    var key := trace[i].sessions[s].key;
    if i <= j {
      ReceiptsArePermanent(trace, steps, i, j, key);
    } else {
      ReceiptsArePermanent(trace, steps, j, i, key);
    }
  }

  /**
   Nobody sees an unfinished receipt: what a duplicate reads is always there, always
   complete, and answers success exactly when the hash is the committed one.
   */
  lemma DuplicatesReadFinishedReceipts(trace: seq<State>, steps: seq<Step>, i: nat)
    requires IsRun(trace, steps) && i < |steps| && steps[i].Read?
    ensures var r := trace[i].sessions[steps[i].s];
            && r.key in trace[i].receipts
            && trace[i].receipts[r.key].status == DONE_STATUS
            && (forall t :: t in trace[i].sessions && Holds(trace[i].sessions[t]) ==> trace[i].sessions[t].key != r.key)
            && trace[i + 1].sessions[steps[i].s].phase.outcome
               == (if trace[i].receipts[r.key].hash == r.hash then Success(trace[i].receipts[r.key].body) else HashConflict)
            && trace[i + 1].effects == trace[i].effects
  {
    RunKeepsInv(trace, steps, i);
    ReceiptsArePermanent(trace, steps, i, i, trace[i].sessions[steps[i].s].key);
  }

  /** Conflicts and failures leave no effect behind. */
  lemma OnlySuccessHasEffect(trace: seq<State>, steps: seq<Step>, i: nat, s: Session)
    requires IsRun(trace, steps) && i < |trace|
    requires s in trace[i].sessions && !(trace[i].sessions[s].phase.Finished? && trace[i].sessions[s].phase.outcome.Success?)
    ensures forall k :: 0 <= k < |trace[i].effects| ==> trace[i].effects[k].session != s
  {
    RunKeepsInv(trace, steps, i);
  }

  /**
   Roll back and retry: after an abort receipts and effects are what they were, and a key
   that is neither committed nor held by another session can be carried to success by a
   fresh session.
   */
  lemma AbortLeavesKeyFree(trace: seq<State>, steps: seq<Step>, i: nat, retry: Session, hash: string, result: string)
    requires IsRun(trace, steps) && i < |steps| && steps[i].Abort?
    requires var st, s := trace[i], steps[i].s; Holds(st.sessions[s]) && retry !in st.sessions
    ensures trace[i + 1].receipts == trace[i].receipts && trace[i + 1].effects == trace[i].effects
    ensures var key := trace[i].sessions[steps[i].s].key;
            var a := trace[i + 1];
            && Enabled(a, Begin(retry, key, hash))
            && var b := Apply(a, Begin(retry, key, hash));
            && Enabled(b, Reserve(retry))
            && var c := Apply(b, Reserve(retry));
            && Enabled(c, Mutate(retry, result))
            && var d := Apply(c, Mutate(retry, result));
            && Enabled(d, Commit(retry))
            && var e := Apply(d, Commit(retry));
            && e.sessions[retry].phase == Finished(Success(result))
            && e.effects == trace[i].effects + [Effect(key, hash, result, retry)]
  {
    RunKeepsInv(trace, steps, i);
  }

  // ---------------------------------------------------------------- one request at a time

  /** How the mutation ends. */
  datatype Mutation = Returns(body: string) | Raises

  /** The tables, driven by one request after another. */
  class ReplayStore {
    var receipts: map<Key, Receipt>
    var effects: seq<Effect>

    constructor ()
      ensures receipts == map[] && effects == []
    {
      receipts, effects := map[], [];
    }

    /**
     The helper itself.  With no other session inside its transaction it answers like the
     protocol: a fresh key runs the mutation, a known key never does.
     */
    method Execute(key: Key, hash: string, mutation: Mutation, session: Session) returns (outcome: Outcome)
      modifies this
      ensures key in old(receipts) ==> receipts == old(receipts) && effects == old(effects)
      ensures key in old(receipts) ==>
                outcome == if old(receipts)[key].hash == hash then Success(old(receipts)[key].body) else HashConflict
      ensures key !in old(receipts) && mutation.Raises? ==>
                outcome == Failed && receipts == old(receipts) && effects == old(effects)
      ensures key !in old(receipts) && mutation.Returns? ==>
                && outcome == Success(mutation.body)
                && receipts == old(receipts)[key := Receipt(hash, DONE_STATUS, mutation.body)]
                && effects == old(effects) + [Effect(key, hash, mutation.body, session)]
    {
      var savedReceipts, savedEffects := receipts, effects;
      if key in receipts {
        match Classify(receipts[key], hash) {
          case Conflict => return HashConflict;
          case StableSuccess(body) => return Success(body);
        }
      }
      receipts := receipts[key := Receipt(hash, IN_PROGRESS_STATUS, IN_PROGRESS_BODY)];
      match mutation {
        case Raises =>
          receipts, effects := savedReceipts, savedEffects;
          return Failed;
        case Returns(body) =>
          effects := effects + [Effect(key, hash, body, session)];
          receipts := receipts[key := Receipt(hash, DONE_STATUS, body)];
          return Success(body);
      }
    }
  }

  /** A request that runs undisturbed takes exactly the protocol's steps to the same tables and answer. */
  lemma UndisturbedRequestFollowsProtocol(st: State, s: Session, key: Key, hash: string, body: string)
    requires Inv(st) && s !in st.sessions && !KeyHeld(st, key)
    ensures var b := Apply(st, Begin(s, key, hash));
            && Enabled(b, Reserve(s))
            && var c := Apply(b, Reserve(s));
            if key in st.receipts then
              && Enabled(c, Read(s))
              && var d := Apply(c, Read(s));
              && d.receipts == st.receipts && d.effects == st.effects
              && d.sessions[s].phase.outcome
                 == (if st.receipts[key].hash == hash then Success(st.receipts[key].body) else HashConflict)
            else
              && Enabled(c, Mutate(s, body))
              && var d := Apply(Apply(c, Mutate(s, body)), Commit(s));
              && d.receipts == st.receipts[key := Receipt(hash, DONE_STATUS, body)]
              && d.effects == st.effects + [Effect(key, hash, body, s)]
              && d.sessions[s].phase.outcome == Success(body)
  {
  }
}
