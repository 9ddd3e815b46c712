/**
 Account deletion cases in `backend/app.py`: building the items of a case, its risk level,
 executing the items with retries, and removing uploaded files.

 Rows of all tables live in one map; a NULL reference is an absent column.  Which statement
 of which item fails is an input of each execution, and so is the order in which the
 database returns rows and what the file system answers.
 */
module AccountDeletion {
  import opened Common

  type Id = nat
  type Path = seq<string>

  datatype RowKey = RowKey(table: string, id: nat)

  /**
   `pinned` names the columns of the row that constraints and triggers keep as they are: the
   revoker of a revoked certificate, the file path of a document attached to a dossier.
   */
  datatype Row = Row(refs: map<string, Id>, filePath: Option<string>, fileSize: nat, pinned: set<string>)

  type Rows = map<RowKey, Row>

  /** `files` are the regular files on disk, by resolved path. */
  datatype World = World(rows: Rows, files: set<Path>)

  datatype Risk = Low | Medium | High | Blocker

  datatype Action =
    | DeleteFiles | HardDelete | Detach
    | RetainAudit | RetainBusiness
    | Block | ManualReview
    | Unsupported

  datatype Status = Pending | Running | Completed | Skipped | Blocked | Failed

  datatype Policy = Policy(action: Action, risk: Risk)

  datatype Target = Target(table: string, column: string)

  datatype Item = Item(key: string, target: Option<Target>, count: int, action: Action, risk: Risk, status: Status)

  // ---------------------------------------------------------------- policy tables

  const IMPACT_TARGETS: map<string, Target> := map[
    "documents_uploaded" := Target("documents", "user_id"),
    "documents_approved" := Target("documents", "approver_id"),
    "documents_reviewed" := Target("documents", "reviewed_by"),
    "submissions_as_provider" := Target("submissions", "provider_id"),
    "submissions_as_auditor" := Target("submissions", "auditor_id"),
    "submission_comments" := Target("submission_comments", "author_id"),
    "submission_evaluations" := Target("submission_evaluations", "auditor_id"),
    "submission_revision_requests" := Target("submission_revision_requests", "requester_id"),
    "certificates_issued" := Target("halal_certificates", "issued_by"),
    "certificates_revoked" := Target("halal_certificates", "revoked_by"),
    "audit_logs" := Target("audit_logs", "user_id"),
    "audit_visits_as_provider" := Target("audit_visits", "provider_id"),
    "audit_visits_as_auditor" := Target("audit_visits", "auditor_id"),
    "audit_ncr_closed" := Target("audit_ncr", "closed_by"),
    "notifications" := Target("notifications", "user_id"),
    "push_subscriptions" := Target("push_subscriptions", "user_id"),
    "member_invites_for_tenant" := Target("member_invites", "tenant_id"),
    "supplier_eligibility_provider_refs" := Target("supplier_eligibilities", "provider_id"),
    "supplier_eligibility_changed_by_refs" := Target("supplier_eligibilities", "changed_by"),
    "tenant_members" := Target("users", "tenant_id")
  ]

  const POLICIES: map<string, Policy> := map[
    "documents_uploaded" := Policy(DeleteFiles, Medium),
    "notifications" := Policy(HardDelete, Low),
    "push_subscriptions" := Policy(HardDelete, Low),
    "documents_approved" := Policy(Detach, Medium),
    "certificates_revoked" := Policy(Detach, Medium),
    "supplier_eligibility_provider_refs" := Policy(Detach, Medium),
    "supplier_eligibility_changed_by_refs" := Policy(Detach, Medium),
    "audit_logs" := Policy(RetainAudit, High),
    "tenant_members" := Policy(Block, Blocker)
  ]

  predicate Retains(a: Action) {
    a.RetainAudit? || a.RetainBusiness?
  }

  predicate NeedsAdmin(a: Action) {
    a.Block? || a.ManualReview?
  }

  // ---------------------------------------------------------------- building a case

  datatype Impact = Impact(key: string, count: int)

  function PolicyFor(key: string): Policy {
    if key in POLICIES then POLICIES[key] else Policy(ManualReview, High)
  }

  function TargetFor(key: string): Option<Target> {
    if key in IMPACT_TARGETS then Some(IMPACT_TARGETS[key]) else None
  }

  function BuiltItem(i: Impact, identityMissing: bool): Item {
    var p := PolicyFor(i.key);
    Item(i.key, TargetFor(i.key), i.count, p.action, p.risk,
         if !identityMissing then Blocked
         else if Retains(p.action) then Skipped
         else if NeedsAdmin(p.action) then Blocked
         else Pending)
  }

  function Build(impacts: seq<Impact>, identityMissing: bool): seq<Item> {
    if impacts == [] then []
    else
      var i := impacts[|impacts| - 1];
      Build(impacts[..|impacts| - 1], identityMissing) + (if i.count <= 0 then [] else [BuiltItem(i, identityMissing)])
  }

  method BuildCaseItems(impacts: seq<Impact>, identityMissing: bool) returns (items: seq<Item>)
    ensures items == Build(impacts, identityMissing)
  {
    items := [];
    for i := 0 to |impacts|
      invariant items == Build(impacts[..i], identityMissing)
    {
      assert impacts[..i + 1][..i] == impacts[..i];
      var impact := impacts[i];
      if impact.count <= 0 {
        assert items + [] == items;
        continue;
      }
      var policy := PolicyFor(impact.key);
      var status := Pending;
      if !identityMissing {
        status := Blocked;
      } else if Retains(policy.action) {
        status := Skipped;
      } else if NeedsAdmin(policy.action) {
        status := Blocked;
      }
      items := items + [Item(impact.key, TargetFor(impact.key), impact.count, policy.action, policy.risk, status)];
    }
    assert impacts[..|impacts|] == impacts;
  }

  function Rank(r: Risk): nat {
    match r case Low => 1 case Medium => 2 case High => 3 case Blocker => 4
  }

  /** The risk of a case is the highest among its items, and low for an empty case. */
  method CaseRiskLevel(items: seq<Item>) returns (highest: Risk)
    ensures forall i | 0 <= i < |items| :: Rank(items[i].risk) <= Rank(highest)
    ensures highest.Low? || exists i | 0 <= i < |items| :: items[i].risk == highest
  {
    highest := Low;
    for n := 0 to |items|
      invariant forall i | 0 <= i < n :: Rank(items[i].risk) <= Rank(highest)
      invariant highest.Low? || exists i | 0 <= i < n :: items[i].risk == highest
    {
      if Rank(items[n].risk) > Rank(highest) {
        highest := items[n].risk;
      }
    }
  }

  /** Every item of a built case carries the policy of its key and stands for references that exist. */
  lemma {:induction false} BuiltFromPolicy(impacts: seq<Impact>, identityMissing: bool)
    ensures forall item | item in Build(impacts, identityMissing) ::
              FollowsPolicy(item) && exists i | i in impacts :: i.count > 0 && item == BuiltItem(i, identityMissing)
  {
    if impacts != [] {
      BuiltFromPolicy(impacts[..|impacts| - 1], identityMissing);
    }
  }

  predicate DistinctKeys(items: seq<Item>) {
    forall i, j | 0 <= i < j < |items| :: items[i].key != items[j].key
  }

  /** A case has one item for each key, so an UPDATE by case and key writes one item. */
  lemma {:induction false} BuiltKeysAreDistinct(impacts: seq<Impact>, identityMissing: bool)
    requires forall i, j | 0 <= i < j < |impacts| :: impacts[i].key != impacts[j].key
    ensures DistinctKeys(Build(impacts, identityMissing))
  {
    if impacts != [] {
      var rest := impacts[..|impacts| - 1];
      BuiltKeysAreDistinct(rest, identityMissing);
      BuiltFromPolicy(rest, identityMissing);
      var before := Build(rest, identityMissing);
      forall k | 0 <= k < |before| ensures before[k].key != impacts[|impacts| - 1].key {
        assert before[k] in before;
        var i :| i in rest && i.count > 0 && before[k] == BuiltItem(i, identityMissing);
        var n :| 0 <= n < |rest| && rest[n] == i;
        assert impacts[n].key == before[k].key;
      }
      var items := Build(impacts, identityMissing);
      forall i, j | 0 <= i < j < |items| ensures items[i].key != items[j].key {
        assert items[i] == before[i];
        if j < |before| {
          assert items[j] == before[j];
          assert before[i].key != before[j].key;
        } else {
          assert j == |before|;
          assert items[j].key == impacts[|impacts| - 1].key;
        }
      }
    }
  }

  /** What is done with the references of each key, and how risky that is; a key without a policy waits for an administrator. */
  lemma PolicyTable(key: string)
    ensures var p := PolicyFor(key);
            && (p.action.DeleteFiles? <==> key == "documents_uploaded")
            && (p.action.HardDelete? <==> key in {"notifications", "push_subscriptions"})
            && (p.action.Detach? <==> key in {"documents_approved", "certificates_revoked",
                                              "supplier_eligibility_provider_refs", "supplier_eligibility_changed_by_refs"})
            && (p.action.RetainAudit? <==> key == "audit_logs") && !p.action.RetainBusiness? && !p.action.Unsupported?
            && (p.action.Block? <==> key == "tenant_members")
            && (p.risk.Low? <==> p.action.HardDelete?) && (p.risk.Medium? <==> p.action.DeleteFiles? || p.action.Detach?)
            && (p.risk.Blocker? <==> p.action.Block?)
  {
  }

  /** Where the executed actions go. */
  lemma TargetTable()
    ensures TargetFor("documents_uploaded") == Some(Target("documents", "user_id"))
    ensures TargetFor("notifications") == Some(Target("notifications", "user_id"))
    ensures TargetFor("push_subscriptions") == Some(Target("push_subscriptions", "user_id"))
    ensures TargetFor("documents_approved") == Some(Target("documents", "approver_id"))
    ensures TargetFor("certificates_revoked") == Some(Target("halal_certificates", "revoked_by"))
    ensures TargetFor("supplier_eligibility_provider_refs") == Some(Target("supplier_eligibilities", "provider_id"))
    ensures TargetFor("supplier_eligibility_changed_by_refs") == Some(Target("supplier_eligibilities", "changed_by"))
  {
  }

  /** Where the references are that wait for an administrator or are kept. */
  lemma OtherTargets()
    ensures TargetFor("documents_reviewed") == Some(Target("documents", "reviewed_by"))
    ensures TargetFor("submissions_as_provider") == Some(Target("submissions", "provider_id"))
    ensures TargetFor("submissions_as_auditor") == Some(Target("submissions", "auditor_id"))
    ensures TargetFor("submission_comments") == Some(Target("submission_comments", "author_id"))
    ensures TargetFor("submission_evaluations") == Some(Target("submission_evaluations", "auditor_id"))
    ensures TargetFor("submission_revision_requests") == Some(Target("submission_revision_requests", "requester_id"))
  {
  }

  lemma MoreTargets()
    ensures TargetFor("certificates_issued") == Some(Target("halal_certificates", "issued_by"))
    ensures TargetFor("audit_logs") == Some(Target("audit_logs", "user_id"))
    ensures TargetFor("tenant_members") == Some(Target("users", "tenant_id"))
  {
  }

  lemma AuditTargets()
    ensures TargetFor("audit_visits_as_provider") == Some(Target("audit_visits", "provider_id"))
    ensures TargetFor("audit_visits_as_auditor") == Some(Target("audit_visits", "auditor_id"))
    ensures TargetFor("audit_ncr_closed") == Some(Target("audit_ncr", "closed_by"))
    ensures TargetFor("member_invites_for_tenant") == Some(Target("member_invites", "tenant_id"))
  {
  }

  /** A case has an item exactly for each reference that exists; while the identity is still in Keycloak all are blocked. */
  lemma {:induction false} BuiltItems(impacts: seq<Impact>, identityMissing: bool, item: Item)
    ensures item in Build(impacts, identityMissing) <==>
              exists i :: && i in impacts && i.count > 0 && i.key == item.key && i.count == item.count
                          && FollowsPolicy(item)
                          && item.status == if !identityMissing || item.action in {Block, ManualReview} then Blocked
                                            else if item.action in {RetainAudit, RetainBusiness} then Skipped else Pending
  {
    if impacts != [] {
      var rest, last := impacts[..|impacts| - 1], impacts[|impacts| - 1];
      BuiltItems(rest, identityMissing, item);
      assert forall i :: i in impacts <==> i in rest || i == last;
    }
  }

  /** The order of the risks. */
  lemma RisksAscend()
    ensures Rank(Low) < Rank(Medium) < Rank(High) < Rank(Blocker)
  {
  }

  predicate FollowsPolicy(item: Item) {
    item.target == TargetFor(item.key) && Policy(item.action, item.risk) == PolicyFor(item.key)
  }

  /** A reference without a policy of its own is held for an administrator and no execution ever acts on it. */
  lemma UnknownReferencesAreBlocked(impacts: seq<Impact>, identityMissing: bool, item: Item, w: World, user: Id, fault: Fault, at: Surroundings)
    requires item in Build(impacts, identityMissing) && item.key !in POLICIES
    ensures item.status.Blocked? && item.action.ManualReview? && item.risk.High?
    ensures !Executes(item) && StatusAfter(w, user, item, fault, at).Blocked?
  {
  }

  // ---------------------------------------------------------------- removing files

  /**
   What the file system and the database bring in: `scan` is the order in which rows come
   back, `resolve` is `Path.resolve` (`None` when it raises), `stuck` the files that
   cannot be unlinked.
   */
  datatype Surroundings = Surroundings(scan: seq<RowKey>, root: Path, resolve: string -> Option<Path>, stuck: set<Path>)

  predicate References(rows: Rows, key: RowKey, column: string, user: Id) {
    key in rows && column in rows[key].refs && rows[key].refs[column] == user
  }

  predicate HasUpload(rows: Rows, key: RowKey, user: Id) {
    key.table == "documents" && References(rows, key, "user_id", user) && rows[key].filePath.Some? && rows[key].filePath.value != ""
  }

  function FileOf(rows: Rows, key: RowKey, at: Surroundings): Option<Path> {
    if key in rows && rows[key].filePath.Some? then at.resolve(rows[key].filePath.value) else None
  }

  /** The file a document row of the user points to, if it lies under the upload root and can be unlinked. */
  predicate PointsTo(rows: Rows, key: RowKey, user: Id, at: Surroundings, p: Path) {
    HasUpload(rows, key, user) && FileOf(rows, key, at) == Some(p) && at.root <= p && p !in at.stuck
  }

  datatype Sweep = Sweep(files: set<Path>, cleared: set<RowKey>)

  /** The files left and the rows to clear after the first `n` rows of the scan. */
  function Swept(w: World, user: Id, at: Surroundings, n: nat): Sweep
    requires n <= |at.scan|
  {
    if n == 0 then Sweep(w.files, {})
    else
      var s := Swept(w, user, at, n - 1);
      var key := at.scan[n - 1];
      var file := FileOf(w.rows, key, at);
      if file.Some? && PointsTo(w.rows, key, user, at, file.value) && file.value in s.files
      then Sweep(s.files - {file.value}, s.cleared + {key}) else s
  }

  function ClearPaths(rows: Rows, keys: set<RowKey>): Rows {
    map k | k in rows :: if k in keys then rows[k].(filePath := None, fileSize := 0) else rows[k]
  }

  /** After the scan a file is gone exactly when a scanned document row of the user points to it. */
  lemma {:induction false} SweptFiles(w: World, user: Id, at: Surroundings, n: nat, p: Path)
    requires n <= |at.scan|
    ensures p in Swept(w, user, at, n).files <==>
              p in w.files && forall i | 0 <= i < n :: !PointsTo(w.rows, at.scan[i], user, at, p)
  {
    if n > 0 {
      SweptFiles(w, user, at, n - 1, p);
    }
  }

  /** Cleared rows are document rows of the user whose file is gone, one row for each file. */
  lemma {:induction false} SweptRows(w: World, user: Id, at: Surroundings, n: nat)
    requires n <= |at.scan|
    ensures forall k | k in Swept(w, user, at, n).cleared ::
              && HasUpload(w.rows, k, user) && FileOf(w.rows, k, at).Some?
              && at.root <= FileOf(w.rows, k, at).value
              && FileOf(w.rows, k, at).value in w.files - Swept(w, user, at, n).files
    ensures forall p | p in w.files - Swept(w, user, at, n).files ::
              exists k :: k in Swept(w, user, at, n).cleared && FileOf(w.rows, k, at) == Some(p)
    ensures forall j, k | j in Swept(w, user, at, n).cleared && k in Swept(w, user, at, n).cleared
                          && FileOf(w.rows, j, at) == FileOf(w.rows, k, at) :: j == k
  {
    if n > 0 {
      SweptRows(w, user, at, n - 1);
      if FileOf(w.rows, at.scan[n - 1], at).Some? {
        SweptFiles(w, user, at, n - 1, FileOf(w.rows, at.scan[n - 1], at).value);
      }
      var s, t := Swept(w, user, at, n - 1), Swept(w, user, at, n);
      forall p | p in w.files - t.files ensures exists k :: k in t.cleared && FileOf(w.rows, k, at) == Some(p) {
        if p in w.files - s.files {
          var k :| k in s.cleared && FileOf(w.rows, k, at) == Some(p);
          assert k in t.cleared;
        } else {
          assert at.scan[n - 1] in t.cleared && FileOf(w.rows, at.scan[n - 1], at) == Some(p);
        }
      }
    }
  }

  /** The final UPDATE clears all collected rows or, if one of them may not change its path, none. */
  predicate ClearRefused(rows: Rows, cleared: set<RowKey>) {
    exists k | k in cleared :: k in rows && "file_path" in rows[k].pinned
  }

  /** `_cleanup_user_uploaded_document_files`; `clearFails` when the final UPDATE fails for a reason of its own. */
  function Cleanup(w: World, user: Id, at: Surroundings, clearFails: bool): World {
    var s := Swept(w, user, at, |at.scan|);
    World(if clearFails || ClearRefused(w.rows, s.cleared) then w.rows else ClearPaths(w.rows, s.cleared), s.files)
  }

  /** Any row, of whatever user, whose path resolves to `p`. */
  predicate RefersTo(rows: Rows, k: RowKey, at: Surroundings, p: Path) {
    k in rows && rows[k].filePath.Some? && at.resolve(rows[k].filePath.value) == Some(p)
  }

  lemma {:induction false} ClearedWereScanned(w: World, user: Id, at: Surroundings, n: nat, k: RowKey)
    requires n <= |at.scan| && k in Swept(w, user, at, n).cleared
    ensures exists i | 0 <= i < n :: at.scan[i] == k && FileOf(w.rows, k, at).Some? && PointsTo(w.rows, k, user, at, FileOf(w.rows, k, at).value)
  {
    if k in Swept(w, user, at, n - 1).cleared {
      ClearedWereScanned(w, user, at, n - 1, k);
    } else {
      assert at.scan[n - 1] == k;
    }
  }

  /** The row keeps a path whose file the cleanup removed. */
  predicate Dangles(w: World, user: Id, at: Surroundings, clearFails: bool, k: RowKey, p: Path) {
    p in w.files && p !in Cleanup(w, user, at, clearFails).files && RefersTo(Cleanup(w, user, at, clearFails).rows, k, at, p)
  }

  /** A scanned row of the user whose file will go, and whose path alone stands for that file and can be cleared. */
  predicate ClearsWhole(w: World, user: Id, at: Surroundings, clearFails: bool, j: RowKey, p: Path) {
    !clearFails && j in w.rows && "file_path" !in w.rows[j].pinned && forall k | k in w.rows && k != j :: !RefersTo(w.rows, k, at, p)
  }

  lemma UnsharedRowsAreCleared(w: World, user: Id, at: Surroundings, clearFails: bool)
    requires forall i, p | 0 <= i < |at.scan| && PointsTo(w.rows, at.scan[i], user, at, p) && p in w.files ::
               ClearsWhole(w, user, at, clearFails, at.scan[i], p)
    ensures forall k, p :: !Dangles(w, user, at, clearFails, k, p)
  {
    var s := Swept(w, user, at, |at.scan|);
    SweptRows(w, user, at, |at.scan|);
    forall j | j in s.cleared ensures forall p | FileOf(w.rows, j, at) == Some(p) :: ClearsWhole(w, user, at, clearFails, j, p) {
      ClearedWereScanned(w, user, at, |at.scan|, j);
    }
    forall k, p | p in w.files && p !in s.files ensures !RefersTo(Cleanup(w, user, at, clearFails).rows, k, at, p) {
      assert p in w.files - s.files;
      var j :| j in s.cleared && FileOf(w.rows, j, at) == Some(p);
      assert ClearsWhole(w, user, at, clearFails, j, p);
      assert !ClearRefused(w.rows, s.cleared);
    }
  }

  lemma OtherRowsDangle(w: World, user: Id, at: Surroundings, clearFails: bool, i: nat, p: Path)
    requires i < |at.scan| && PointsTo(w.rows, at.scan[i], user, at, p) && p in w.files
    requires !ClearsWhole(w, user, at, clearFails, at.scan[i], p)
    ensures exists k :: Dangles(w, user, at, clearFails, k, p)
  {
    var s, j := Swept(w, user, at, |at.scan|), at.scan[i];
    SweptFiles(w, user, at, |at.scan|, p);
    SweptRows(w, user, at, |at.scan|);
    if clearFails || ClearRefused(w.rows, s.cleared) || j !in s.cleared {
      assert Dangles(w, user, at, clearFails, j, p);
    } else {
      var k :| k in w.rows && k != j && RefersTo(w.rows, k, at, p);
      assert k !in s.cleared;
      assert Dangles(w, user, at, clearFails, k, p);
    }
  }

  /**
   Exactly when a cleanup leaves no row with the path of a file it removed: the final
   UPDATE must not fail, and each file that goes must be referred to by one row only, of
   whatever user, whose path is free to change.
   */
  lemma NoPathDanglesIff(w: World, user: Id, at: Surroundings, clearFails: bool)
    ensures (forall k, p :: !Dangles(w, user, at, clearFails, k, p)) <==>
              forall i, p | 0 <= i < |at.scan| && PointsTo(w.rows, at.scan[i], user, at, p) && p in w.files ::
                ClearsWhole(w, user, at, clearFails, at.scan[i], p)
  {
    if forall i, p | 0 <= i < |at.scan| && PointsTo(w.rows, at.scan[i], user, at, p) && p in w.files ::
         ClearsWhole(w, user, at, clearFails, at.scan[i], p) {
      UnsharedRowsAreCleared(w, user, at, clearFails);
    } else {
      var i, p :| 0 <= i < |at.scan| && PointsTo(w.rows, at.scan[i], user, at, p) && p in w.files
                  && !ClearsWhole(w, user, at, clearFails, at.scan[i], p);
      OtherRowsDangle(w, user, at, clearFails, i, p);
    }
  }

  /** Two rows of the user pointing to one file: only the row scanned first loses its path. */
  lemma SharedFileLeavesADanglingPath(w: World, user: Id, at: Surroundings, a: RowKey, b: RowKey, p: Path)
    requires at.scan == [a, b] && a != b && p in w.files
    requires PointsTo(w.rows, a, user, at, p) && PointsTo(w.rows, b, user, at, p)
    ensures Swept(w, user, at, 2).cleared == {a} && Dangles(w, user, at, false, b, p)
  {
    assert Swept(w, user, at, 1) == Sweep(w.files - {p}, {} + {a});
    assert Swept(w, user, at, 2) == Swept(w, user, at, 1);
  }

  lemma SecondSweepIsEmpty(w: World, user: Id, at: Surroundings, clearFails: bool)
    ensures var once := Cleanup(w, user, at, clearFails);
            Swept(once, user, at, |at.scan|) == Sweep(once.files, {})
  {
    var once := Cleanup(w, user, at, clearFails);
    var n := |at.scan|;
    forall p ensures p in Swept(once, user, at, n).files <==> p in once.files {
      SweptFiles(once, user, at, n, p);
      SweptFiles(w, user, at, n, p);
      assert forall i | 0 <= i < n && PointsTo(once.rows, at.scan[i], user, at, p) :: PointsTo(w.rows, at.scan[i], user, at, p);
    }
    SweptRows(once, user, at, n);
    assert Swept(once, user, at, n).cleared == {};
  }

  /** A second cleanup finds no file of the first and writes no row. */
  lemma SecondCleanupDoesNothing(w: World, user: Id, at: Surroundings, clearFails: bool, again: bool)
    ensures var once := Cleanup(w, user, at, clearFails);
            Cleanup(once, user, at, again) == once
  {
    SecondSweepIsEmpty(w, user, at, clearFails);
    var once := Cleanup(w, user, at, clearFails);
    assert ClearPaths(once.rows, {}) == once.rows;
  }

  // ---------------------------------------------------------------- executing an item

  /** Where the statements of an executed item fail: before its effect, between unlinking and clearing, or when its completion is recorded. */
  datatype Fault = NoFault | BeforeEffect | MidEffect | AfterEffect

  /** The executor acts on an item unless it is completed, retained or held for an administrator. */
  predicate Executes(item: Item) {
    !item.status.Completed? && !Retains(item.action) && !NeedsAdmin(item.action)
  }

  /** Some row that references the user may not give the reference up. */
  predicate DetachRefused(rows: Rows, t: Target, user: Id) {
    exists k | k in rows :: k.table == t.table && References(rows, k, t.column, user) && t.column in rows[k].pinned
  }

  /** The item's own statements fail: by a fault, for want of a table and column, or on a constraint. */
  predicate FailsEarly(w: World, user: Id, item: Item, fault: Fault, at: Surroundings) {
    || fault.BeforeEffect? || fault.MidEffect?
    || ((item.action.HardDelete? || item.action.Detach?) && item.target.None?)
    || (item.action.Detach? && item.target.Some? && DetachRefused(w.rows, item.target.value, user))
    || (item.action.DeleteFiles? && ClearRefused(w.rows, Swept(w, user, at, |at.scan|).cleared))
  }

  function Perform(w: World, user: Id, item: Item, fault: Fault, at: Surroundings): World {
    if item.action.DeleteFiles? then if fault.BeforeEffect? then w else Cleanup(w, user, at, fault.MidEffect?)
    else if FailsEarly(w, user, item, fault, at) then w
    else if item.action.HardDelete? then w.(rows := DeleteRows(w.rows, item.target.value, user))
    else if item.action.Detach? then w.(rows := DetachRows(w.rows, item.target.value, user))
    else w
  }

  function DeleteRows(rows: Rows, t: Target, user: Id): Rows {
    map k | k in rows && !(k.table == t.table && References(rows, k, t.column, user)) :: rows[k]
  }

  function DetachRows(rows: Rows, t: Target, user: Id): Rows {
    map k | k in rows :: if k.table == t.table && References(rows, k, t.column, user)
                         then rows[k].(refs := rows[k].refs - {t.column}) else rows[k]
  }

  function StatusAfter(w: World, user: Id, item: Item, fault: Fault, at: Surroundings): Status {
    if item.status.Completed? then Completed
    else if Retains(item.action) then Skipped
    else if NeedsAdmin(item.action) then Blocked
    else if FailsEarly(w, user, item, fault, at) || fault.AfterEffect? then Failed
    else if item.action.Unsupported? then Blocked
    else Completed
  }

  /** No row of the target's table references the user in the target's column. */
  predicate Unreferenced(rows: Rows, t: Target, user: Id) {
    forall k | k in rows && k.table == t.table && t.column in rows[k].refs :: rows[k].refs[t.column] != user
  }

  /** When an item ends failed, completed or otherwise. */
  lemma OutcomeIs(w: World, user: Id, item: Item, fault: Fault, at: Surroundings)
    ensures var outcome := StatusAfter(w, user, item, fault, at);
            if item.status == Completed then outcome == Completed
            else if item.action in {RetainAudit, RetainBusiness} then outcome == Skipped
            else if item.action in {Block, ManualReview} then outcome == Blocked
            else
              var stopped := || fault != NoFault
                             || (item.action in {HardDelete, Detach} && item.target.None?)
                             || (item.action == Detach && item.target.Some? &&
                                 exists k | k in w.rows :: && k.table == item.target.value.table
                                                           && item.target.value.column in w.rows[k].refs.Keys * w.rows[k].pinned
                                                           && w.rows[k].refs[item.target.value.column] == user)
                             || (item.action == DeleteFiles &&
                                 exists k | k in Swept(w, user, at, |at.scan|).cleared :: k in w.rows && "file_path" in w.rows[k].pinned);
              outcome == if stopped then Failed else if item.action == Unsupported then Blocked else Completed
  {
  }

  /** Deleting takes exactly the rows that reference the user in the target's column. */
  lemma CompletedDeleteTookEffect(w: World, user: Id, item: Item, fault: Fault, at: Surroundings)
    requires item.action.HardDelete? && Executes(item) && StatusAfter(w, user, item, fault, at).Completed?
    ensures item.target.Some?
    ensures var t, next := item.target.value, Perform(w, user, item, fault, at);
            && next.files == w.files && Unreferenced(next.rows, t, user)
            && (forall k :: k in next.rows <==> k in w.rows && !(k.table == t.table && t.column in w.rows[k].refs && w.rows[k].refs[t.column] == user))
            && (forall k | k in next.rows :: next.rows[k] == w.rows[k])
  {
  }

  /** Detaching keeps all rows and takes exactly the reference to the user out of those that have it. */
  lemma CompletedDetachTookEffect(w: World, user: Id, item: Item, fault: Fault, at: Surroundings)
    requires item.action.Detach? && Executes(item) && StatusAfter(w, user, item, fault, at).Completed?
    ensures item.target.Some?
    ensures var t, next := item.target.value, Perform(w, user, item, fault, at);
            && next.files == w.files && Unreferenced(next.rows, t, user) && next.rows.Keys == w.rows.Keys
            && (forall k | k in w.rows ::
                  if k.table == t.table && t.column in w.rows[k].refs && w.rows[k].refs[t.column] == user
                  then next.rows[k] == w.rows[k].(refs := map c | c in w.rows[k].refs && c != t.column :: w.rows[k].refs[c])
                  else next.rows[k] == w.rows[k])
  {
  }

  /** Removing uploads unlinks every file a scanned row of the user points to, and no other, and clears path and size of rows of such files. */
  lemma {:induction false} CompletedCleanupTookEffect(w: World, user: Id, item: Item, fault: Fault, at: Surroundings)
    requires item.action.DeleteFiles? && Executes(item) && StatusAfter(w, user, item, fault, at).Completed?
    ensures var next := Perform(w, user, item, fault, at);
            && (forall p :: p in next.files <==> p in w.files && forall i | 0 <= i < |at.scan| :: !PointsTo(w.rows, at.scan[i], user, at, p))
            && next.rows.Keys == w.rows.Keys
            && (forall k | k in w.rows ::
                  || next.rows[k] == w.rows[k]
                  || (next.rows[k] == w.rows[k].(filePath := None, fileSize := 0) && HasUpload(w.rows, k, user)))
            && (forall p | p in w.files && p !in next.files ::
                  exists k :: k in w.rows && FileOf(w.rows, k, at) == Some(p) && next.rows[k].filePath.None? && next.rows[k].fileSize == 0)
  {
    var s, next := Swept(w, user, at, |at.scan|), Perform(w, user, item, fault, at);
    SweptRows(w, user, at, |at.scan|);
    forall p ensures p in next.files <==> p in w.files && forall i | 0 <= i < |at.scan| :: !PointsTo(w.rows, at.scan[i], user, at, p) {
      SweptFiles(w, user, at, |at.scan|, p);
    }
    forall p | p in w.files && p !in next.files
      ensures exists k :: k in w.rows && FileOf(w.rows, k, at) == Some(p) && next.rows[k].filePath.None? && next.rows[k].fileSize == 0
    {
      assert p in w.files - s.files;
      var k :| k in s.cleared && FileOf(w.rows, k, at) == Some(p);
      assert k in w.rows && next.rows[k].filePath.None?;
    }
  }

  /** A failed item leaves rows alone; it may have unlinked files if that was its action. */
  lemma FailedItemKeepsRows(w: World, user: Id, item: Item, fault: Fault, at: Surroundings)
    requires FailsEarly(w, user, item, fault, at)
    ensures Perform(w, user, item, fault, at).rows == w.rows
    ensures !item.action.DeleteFiles? ==> Perform(w, user, item, fault, at) == w
  {
  }

  /** What counts as pointing to a file that can be removed. */
  lemma PointsToIff(rows: Rows, k: RowKey, user: Id, at: Surroundings, p: Path)
    ensures PointsTo(rows, k, user, at, p) <==>
              && k in rows && k.table == "documents" && "user_id" in rows[k].refs && rows[k].refs["user_id"] == user
              && rows[k].filePath.Some? && rows[k].filePath.value != "" && at.resolve(rows[k].filePath.value) == Some(p)
              && |at.root| <= |p| && p[..|at.root|] == at.root && p !in at.stuck
  {
  }

  /**
   An upload attached to a dossier may not change its path: its file is unlinked all the
   same, the item fails, and the next execution completes it with the path still there.
   */
  lemma AttachedUploadLosesItsFile(w: World, user: Id, item: Item, at: Surroundings, k: RowKey, p: Path)
    requires at.scan == [k] && p in w.files && PointsTo(w.rows, k, user, at, p) && "file_path" in w.rows[k].pinned
    requires item.action.DeleteFiles? && item.status.Pending?
    ensures var once := Perform(w, user, item, NoFault, at);
            && StatusAfter(w, user, item, NoFault, at).Failed? && p !in once.files && once.rows == w.rows
            && StatusAfter(once, user, item.(status := Failed), NoFault, at).Completed?
            && RefersTo(Perform(once, user, item, NoFault, at).rows, k, at, p)
  {
    assert Swept(w, user, at, 0) == Sweep(w.files, {});
    assert Swept(w, user, at, 1) == Sweep(w.files - {p}, {} + {k});
    SecondSweepIsEmpty(w, user, at, false);
    SecondCleanupDoesNothing(w, user, at, false, false);
  }

  // ---------------------------------------------------------------- counters

  datatype Tally = Tally(completed: nat, skipped: nat, blocked: nat, failed: nat) {
    function Sum(): nat {
      completed + skipped + blocked + failed
    }

    function Plus(t: Tally): Tally {
      Tally(completed + t.completed, skipped + t.skipped, blocked + t.blocked, failed + t.failed)
    }
  }

  function Bit(b: bool): nat {
    if b then 1 else 0
  }

  /** What an item adds to the counters; `failing` when its own statements fail. */
  function Counted(item: Item, failing: bool, fault: Fault): Tally {
    var acted := Executes(item) && !failing;
    Tally(Bit(acted && !item.action.Unsupported?),
          Bit(item.status.Completed? || Retains(item.action)),
          Bit((!item.status.Completed? && NeedsAdmin(item.action)) || (acted && item.action.Unsupported?)),
          Bit(Executes(item) && (failing || fault.AfterEffect?)))
  }

  datatype CaseStatus = AssessmentReady | CaseRunning | CaseCompleted | PartiallyCompleted | CaseBlocked | CaseFailed

  function Verdict(t: Tally): CaseStatus {
    if t.failed > 0 then if t.completed > 0 || t.skipped > 0 then PartiallyCompleted else CaseFailed
    else if t.blocked > 0 then CaseBlocked
    else CaseCompleted
  }

  // ---------------------------------------------------------------- one execution

  /** One execution of a case: what it starts from, and what fails on the way. */
  datatype Execution = Execution(start: World, user: Id, items: seq<Item>, faults: seq<Fault>, at: Surroundings) {

    predicate Valid() {
      |items| == |faults|
    }

    /** The data after the first `n` items. */
    function Data(n: nat): World
      requires Valid() && n <= |items|
    {
      if n == 0 then start
      else if Executes(items[n - 1]) then Perform(Data(n - 1), user, items[n - 1], faults[n - 1], at)
      else Data(n - 1)
    }

    predicate Failing(i: nat)
      requires Valid() && i < |items|
    {
      FailsEarly(Data(i), user, items[i], faults[i], at)
    }

    function Outcome(i: nat): Status
      requires Valid() && i < |items|
    {
      StatusAfter(Data(i), user, items[i], faults[i], at)
    }

    function Ended(): (r: seq<Item>)
      requires Valid()
      ensures |r| == |items|
    {
      seq(|items|, i requires 0 <= i < |items| => items[i].(status := Outcome(i)))
    }

    function Counters(n: nat): Tally
      requires Valid() && n <= |items|
    {
      if n == 0 then Tally(0, 0, 0, 0) else Counters(n - 1).Plus(Counted(items[n - 1], Failing(n - 1), faults[n - 1]))
    }

    /** Counted twice: completed (or blocked) and, when recording that failed, failed as well. */
    predicate CountedTwice(i: nat)
      requires Valid() && i < |items|
    {
      Executes(items[i]) && !Failing(i) && faults[i].AfterEffect?
    }

    /** The item ended well, or was done and not recorded. */
    predicate DoneOrSettled(i: nat)
      requires Valid() && i < |items|
    {
      Settled(Outcome(i)) || (CountedTwice(i) && !items[i].action.Unsupported?)
    }
  }

  predicate Settled(s: Status) {
    s.Completed? || s.Skipped?
  }

  class DeletionCase {
    var rows: Rows
    var files: set<Path>
    var items: seq<Item>
    var status: CaseStatus

    constructor (rows: Rows, files: set<Path>, items: seq<Item>)
      ensures this.rows == rows && this.files == files && this.items == items
      ensures status == if exists i | 0 <= i < |items| :: items[i].status.Blocked? then CaseBlocked else AssessmentReady
    {
      this.rows := rows;
      this.files := files;
      this.items := items;
      status := if exists i | 0 <= i < |items| :: items[i].status.Blocked? then CaseBlocked else AssessmentReady;
    }

    method CleanupUploadedFiles(user: Id, clearFails: bool, at: Surroundings) returns (raised: bool)
      modifies `rows, `files
      ensures World(rows, files) == Cleanup(old(World(rows, files)), user, at, clearFails)
      ensures raised == (clearFails || ClearRefused(old(rows), Swept(old(World(rows, files)), user, at, |at.scan|).cleared))
    {
      var cleared := {};
      ghost var w := World(rows, files);
      for n := 0 to |at.scan|
        invariant rows == w.rows && Sweep(files, cleared) == Swept(w, user, at, n)
      {
        var key := at.scan[n];
        if !HasUpload(rows, key, user) {
          continue;
        }
        var resolved := at.resolve(rows[key].filePath.value);
        if resolved.None? || !(at.root <= resolved.value) {
          continue;
        }
        if resolved.value !in files || resolved.value in at.stuck {
          continue;
        }
        files := files - {resolved.value};
        cleared := cleared + {key};
      }
      if clearFails || ClearRefused(rows, cleared) {
        return true;
      }
      rows := ClearPaths(rows, cleared);
      return false;
    }

    method PerformAction(user: Id, item: Item, fault: Fault, at: Surroundings) returns (raised: bool)
      requires Executes(item)
      modifies `rows, `files
      ensures raised == FailsEarly(old(World(rows, files)), user, item, fault, at)
      ensures World(rows, files) == Perform(old(World(rows, files)), user, item, fault, at)
    {
      if fault.BeforeEffect? {
        return true;
      }
      if item.action.DeleteFiles? {
        raised := CleanupUploadedFiles(user, fault.MidEffect?, at);
        return raised;
      }
      if fault.MidEffect? {
        return true;
      }
      if item.action.HardDelete? || item.action.Detach? {
        if item.target.None? {
          return true;
        }
        var t := item.target.value;
        if item.action.HardDelete? {
          rows := map k | k in rows && !(k.table == t.table && References(rows, k, t.column, user)) :: rows[k];
        } else {
          if DetachRefused(rows, t, user) {
            return true;
          }
          rows := map k | k in rows :: if k.table == t.table && References(rows, k, t.column, user)
                                       then rows[k].(refs := rows[k].refs - {t.column}) else rows[k];
        }
      }
      return false;
    }

    /** One turn of the executor's loop: the status the item ends with, and what it adds to the counters. */
    method ExecuteItem(user: Id, item: Item, fault: Fault, at: Surroundings) returns (outcome: Status, counted: Tally)
      modifies `rows, `files
      ensures var w := old(World(rows, files));
              && outcome == StatusAfter(w, user, item, fault, at)
              && counted == Counted(item, FailsEarly(w, user, item, fault, at), fault)
              && World(rows, files) == if Executes(item) then Perform(w, user, item, fault, at) else w
    {
      if item.status.Completed? {
        return Completed, Tally(0, 1, 0, 0);
      }
      if Retains(item.action) {
        return Skipped, Tally(0, 1, 0, 0);
      }
      if NeedsAdmin(item.action) {
        return Blocked, Tally(0, 0, 1, 0);
      }
      var raised := PerformAction(user, item, fault, at);
      if raised {
        return Failed, Tally(0, 0, 0, 1);
      }
      counted := if item.action.Unsupported? then Tally(0, 0, 1, 0) else Tally(1, 0, 0, 0);
      outcome := if item.action.Unsupported? then Blocked else Completed;
      if fault.AfterEffect? {
        // the counter is already up when recording the outcome fails
        counted := counted.(failed := 1);
        outcome := Failed;
      }
    }

    /** One press of the run button: refused unless the identity is gone from Keycloak, which leaves the case `running`. */
    method Execute(user: Id, identityMissing: bool, faults: seq<Fault>, at: Surroundings) returns (tally: Option<Tally>)
      requires |faults| == |items|
      modifies this
      ensures !identityMissing ==> tally.None? && status == CaseRunning && rows == old(rows) && files == old(files) && items == old(items)
      ensures identityMissing ==>
                var e := Execution(old(World(rows, files)), user, old(items), faults, at);
                && tally == Some(e.Counters(|e.items|))
                && items == e.Ended()
                && World(rows, files) == e.Data(|e.items|)
                && status == Verdict(tally.value)
    {
      status := CaseRunning;
      if !identityMissing {
        return None;
      }
      ghost var e := Execution(World(rows, files), user, items, faults, at);
      var counters := Tally(0, 0, 0, 0);
      for n := 0 to |items|
        invariant |items| == |e.items|
        invariant forall i | 0 <= i < n :: items[i] == e.items[i].(status := e.Outcome(i))
        invariant forall i | n <= i < |items| :: items[i] == e.items[i]
        invariant World(rows, files) == e.Data(n)
        invariant counters == e.Counters(n)
      {
        var item := items[n];
        var outcome, counted := ExecuteItem(user, item, faults[n], at);
        counters := counters.Plus(counted);
        items := items[n := item.(status := outcome)];
      }
      assert items == e.Ended();
      tally := Some(counters);
      status := Verdict(counters);
    }
  }

  // ---------------------------------------------------------------- theorems on one execution

  function Twice(e: Execution, n: nat): nat
    requires e.Valid() && n <= |e.items|
  {
    if n == 0 then 0 else Twice(e, n - 1) + Bit(e.CountedTwice(n - 1))
  }

  lemma CountedOnceOrTwice(item: Item, failing: bool, fault: Fault)
    ensures Counted(item, failing, fault).Sum() == 1 + Bit(Executes(item) && !failing && fault.AfterEffect?)
  {
  }

  lemma {:induction false} CountersSum(e: Execution, n: nat)
    requires e.Valid() && n <= |e.items|
    ensures e.Counters(n).Sum() == n + Twice(e, n)
    ensures Twice(e, n) == 0 <==> forall i | 0 <= i < n :: !e.CountedTwice(i)
  {
    if n > 0 {
      CountersSum(e, n - 1);
      CountedOnceOrTwice(e.items[n - 1], e.Failing(n - 1), e.faults[n - 1]);
    }
  }

  /** The four counters add up to the number of items exactly when no item's completion failed to be recorded. */
  lemma {:induction false} CountersSumToItemsIff(e: Execution)
    requires e.Valid()
    ensures e.Counters(|e.items|).Sum() == |e.items| <==> forall i | 0 <= i < |e.items| :: !e.CountedTwice(i)
  {
    CountersSum(e, |e.items|);
  }

  /** A case of one pending row deletion that commits and whose record fails: two counts for one item. */
  lemma {:induction false} UnrecordedCompletionCountsTwice(e: Execution)
    requires |e.items| == |e.faults| == 1 && e.items[0].status.Pending? && e.items[0].action.HardDelete? && e.items[0].target.Some?
    requires e.faults[0].AfterEffect?
    ensures e.Counters(|e.items|) == Tally(1, 0, 0, 1)
  {
    var n := |e.items| - 1;
    assert Counted(e.items[n], e.Failing(n), e.faults[n]) == Tally(1, 0, 0, 1);
    assert e.Counters(n) == Tally(0, 0, 0, 0);
  }

  /** The counters start at zero, and each turn adds one to the counter of what the item came to, and one to `failed` if the item failed. */
  lemma {:induction false} TurnAdds(e: Execution, n: nat)
    requires e.Valid() && n < |e.items|
    ensures e.Counters(0) == Tally(0, 0, 0, 0)
    ensures var before, after, item := e.Counters(n), e.Counters(n + 1), e.items[n];
            var waits := item.status != Completed;
            && after.completed == before.completed
                 + (if waits && item.action in {DeleteFiles, HardDelete, Detach} && !e.Failing(n) then 1 else 0)
            && after.skipped == before.skipped + (if !waits || item.action in {RetainAudit, RetainBusiness} then 1 else 0)
            && after.blocked == before.blocked
                 + (if waits && (item.action in {Block, ManualReview} || (item.action == Unsupported && !e.Failing(n))) then 1 else 0)
            && after.failed == before.failed + (if e.Outcome(n) == Failed then 1 else 0)
  {
    var t := Counted(e.items[n], e.Failing(n), e.faults[n]);
    assert e.Counters(n + 1) == e.Counters(n).Plus(t);
  }

  lemma CountedReflectsItem(e: Execution, i: nat)
    requires e.Valid() && i < |e.items|
    ensures var t := Counted(e.items[i], e.Failing(i), e.faults[i]);
            && (t.failed > 0 <==> e.Outcome(i).Failed?)
            && (t.failed == 0 && t.blocked == 0 <==> Settled(e.Outcome(i)))
            && (t.completed > 0 || t.skipped > 0 <==> e.DoneOrSettled(i))
  {
  }

  lemma {:induction false} CountersReflectItems(e: Execution, n: nat)
    requires e.Valid() && n <= |e.items|
    ensures var t := e.Counters(n);
            && (t.failed == 0 <==> forall i | 0 <= i < n :: !e.Outcome(i).Failed?)
            && (t.failed == 0 && t.blocked == 0 <==> forall i | 0 <= i < n :: Settled(e.Outcome(i)))
            && (t.completed == 0 && t.skipped == 0 <==> forall i | 0 <= i < n :: !e.DoneOrSettled(i))
  {
    if n > 0 {
      CountersReflectItems(e, n - 1);
      CountedReflectsItem(e, n - 1);
    }
  }

  /**
   The case is completed exactly when every item ended completed or skipped.  With a failed
   item it is failed, or partially completed when an item ended well or was done and not recorded.
   */
  lemma {:induction false} CaseStatusReflectsItems(e: Execution)
    requires e.Valid()
    ensures var v, end := Verdict(e.Counters(|e.items|)), e.Ended();
            && (v.CaseCompleted? <==> forall i | 0 <= i < |end| :: Settled(end[i].status))
            && (v.CaseBlocked? <==> (forall i | 0 <= i < |end| :: !end[i].status.Failed?)
                                    && exists i | 0 <= i < |end| :: !Settled(end[i].status))
            && (v.PartiallyCompleted? <==>
                  && (exists i | 0 <= i < |end| :: end[i].status.Failed?)
                  && exists i | 0 <= i < |end| :: e.DoneOrSettled(i))
  {
    CountersReflectItems(e, |e.items|);
    assert forall i | 0 <= i < |e.items| :: e.Ended()[i].status == e.Outcome(i);
  }

  /** And it is failed when an item failed and nothing was done or settled. */
  lemma {:induction false} FailedCaseReflectsItems(e: Execution)
    requires e.Valid()
    ensures Verdict(e.Counters(|e.items|)) == CaseFailed <==>
              && (exists i | 0 <= i < |e.items| :: e.Outcome(i) == Failed)
              && forall i | 0 <= i < |e.items| :: !e.DoneOrSettled(i)
  {
    CountersReflectItems(e, |e.items|);
  }

  // ---------------------------------------------------------------- theorems on retries

  datatype Attempt = Attempt(identityMissing: bool, faults: seq<Fault>, at: Surroundings)

  datatype State = State(world: World, items: seq<Item>)

  function ExecutionOf(s: State, user: Id, a: Attempt): Execution {
    Execution(s.world, user, s.items, a.faults, a.at)
  }

  function After(s: State, user: Id, a: Attempt): State
    requires |a.faults| == |s.items|
  {
    if !a.identityMissing then s
    else State(ExecutionOf(s, user, a).Data(|s.items|), ExecutionOf(s, user, a).Ended())
  }

  predicate Fits(s: State, attempts: seq<Attempt>) {
    forall i | 0 <= i < |attempts| :: |attempts[i].faults| == |s.items|
  }

  function Retries(s: State, user: Id, attempts: seq<Attempt>): (end: State)
    requires Fits(s, attempts)
    ensures |end.items| == |s.items|
  {
    if attempts == [] then s
    else After(Retries(s, user, attempts[..|attempts| - 1]), user, attempts[|attempts| - 1])
  }

  /** A completed item stays as it is and is never executed again, however often the case is retried. */
  lemma {:induction false} CompletedItemsStay(s: State, user: Id, attempts: seq<Attempt>, i: nat)
    requires Fits(s, attempts) && i < |s.items| && s.items[i].status.Completed?
    ensures Retries(s, user, attempts).items[i] == s.items[i] && !Executes(Retries(s, user, attempts).items[i])
  {
    if attempts != [] {
      CompletedItemsStay(s, user, attempts[..|attempts| - 1], i);
    }
  }

  predicate CompletesIn(s: State, user: Id, a: Attempt, i: nat)
    requires |a.faults| == |s.items| && i < |s.items|
  {
    a.identityMissing && Executes(s.items[i]) && ExecutionOf(s, user, a).Outcome(i).Completed?
  }

  /** Of attempts that follow one another, at most one executes an item to completion. */
  lemma {:induction false} CompletesAtMostOnce(s: State, user: Id, first: Attempt, middle: seq<Attempt>, second: Attempt, i: nat)
    requires Fits(s, [first] + middle + [second]) && i < |s.items|
    ensures |first.faults| == |s.items| == |second.faults| && Fits(After(s, user, first), middle)
    ensures CompletesIn(s, user, first, i) ==> !CompletesIn(Retries(After(s, user, first), user, middle), user, second, i)
  {
    var all := [first] + middle + [second];
    assert all[0] == first && all[|all| - 1] == second;
    assert forall j | 0 <= j < |middle| :: all[j + 1] == middle[j];
    if CompletesIn(s, user, first, i) {
      CompletedItemsStay(After(s, user, first), user, middle, i);
    }
  }

  // ---------------------------------------------------------------- overlapping runs

  // Neither the case nor its items are locked, so a second run may load the items while a
  // first one is at work.  What it loads is what it goes by.

  /** The items as a second run loads them when the first has recorded `n` of them. */
  function LoadedDuring(e: Execution, n: nat): (r: seq<Item>)
    requires e.Valid() && n <= |e.items|
    ensures |r| == |e.items|
  {
    e.Ended()[..n] + e.items[n..]
  }

  /** A second run executes an item again exactly when it loaded the items before the first had recorded its completion. */
  lemma OverlappingRunExecutesAgainIff(e: Execution, n: nat, i: nat)
    requires e.Valid() && n <= |e.items| && i < |e.items| && Executes(e.items[i])
    ensures Executes(LoadedDuring(e, n)[i]) <==> !(i < n && e.Outcome(i).Completed?)
  {
  }

  /** Executing an item a second time at once changes no data, with any fault, and without one it does not fail. */
  lemma ExecutingAgainIsHarmless(w: World, user: Id, item: Item, fault: Fault, again: Fault, at: Surroundings)
    requires !FailsEarly(w, user, item, fault, at)
    ensures var once := Perform(w, user, item, fault, at);
            && Perform(once, user, item, again, at) == once
            && (!again.BeforeEffect? && !again.MidEffect? ==> !FailsEarly(once, user, item, again, at))
  {
    var once := Perform(w, user, item, fault, at);
    if item.action.DeleteFiles? {
      SecondCleanupDoesNothing(w, user, at, false, again.MidEffect?);
      SecondSweepIsEmpty(w, user, at, false);
    } else if item.action.HardDelete? {
      assert DeleteRows(once.rows, item.target.value, user) == once.rows;
    } else if item.action.Detach? {
      assert DetachRows(once.rows, item.target.value, user) == once.rows;
    }
  }

  /** The recorded status of one item, and what the runs at work loaded it as. */
  datatype Overlap = Overlap(status: Status, loaded: map<Id, Status>)

  datatype OverlapStep =
    | Load(run: Id)
      // the item is set to `running` before its own statements
    | Start(run: Id)
      // the outcome is recorded; `w` is the data the item's statements found
    | Conclude(run: Id, w: World, fault: Fault, at: Surroundings)

  /** The status the run writes; a run that loaded the item completed passes it over. */
  function Written(user: Id, item: Item, o: Overlap, step: OverlapStep): Option<Status> {
    if step.run !in o.loaded || o.loaded[step.run].Completed? then None
    else match step
      case Load(_) => None
      case Start(run) => if Executes(item.(status := o.loaded[run])) then Some(Running) else None
      case Conclude(run, w, fault, at) => Some(StatusAfter(w, user, item.(status := o.loaded[run]), fault, at))
  }

  function AfterStep(user: Id, item: Item, o: Overlap, step: OverlapStep): Overlap {
    if step.Load? then o.(loaded := o.loaded[step.run := o.status])
    else if Written(user, item, o, step).Some? then o.(status := Written(user, item, o, step).value)
    else o
  }

  /** What each statement does: loading notes the recorded status; a run that did not load `completed` writes `running`, and then its outcome. */
  lemma OverlapStepWrites(user: Id, item: Item, o: Overlap, step: OverlapStep)
    ensures var next, run := AfterStep(user, item, o, step), step.run;
            var idle := run !in o.loaded || o.loaded[run] == Completed;
            match step
            case Load(_) => next == Overlap(o.status, o.loaded[run := o.status])
            case Start(_) =>
              next == if idle || item.action in {RetainAudit, RetainBusiness, Block, ManualReview} then o else Overlap(Running, o.loaded)
            case Conclude(_, w, fault, at) =>
              next == if idle then o else Overlap(StatusAfter(w, user, item.(status := o.loaded[run]), fault, at), o.loaded)
  {
  }

  function AfterSteps(user: Id, item: Item, o: Overlap, steps: seq<OverlapStep>): Overlap {
    if steps == [] then o
    else AfterStep(user, item, AfterSteps(user, item, o, steps[..|steps| - 1]), steps[|steps| - 1])
  }

  /** The item is recorded as completed at the start and after each of the steps. */
  predicate CompletedThroughout(user: Id, item: Item, o: Overlap, steps: seq<OverlapStep>) {
    AfterSteps(user, item, o, steps).status.Completed?
    && (steps == [] || CompletedThroughout(user, item, o, steps[..|steps| - 1]))
  }

  /** A run that loaded the item before its completion writes something else. */
  predicate Overwrites(user: Id, item: Item, o: Overlap, step: OverlapStep) {
    !step.Load? && Written(user, item, o, step).Some? && !Written(user, item, o, step).value.Completed?
  }

  predicate OverwritesNever(user: Id, item: Item, o: Overlap, steps: seq<OverlapStep>) {
    steps == []
    || (OverwritesNever(user, item, o, steps[..|steps| - 1])
        && !Overwrites(user, item, AfterSteps(user, item, o, steps[..|steps| - 1]), steps[|steps| - 1]))
  }

  /** A completion stands exactly until a run that loaded the item earlier starts it again or records another outcome. */
  lemma {:induction false} CompletionStandsIff(user: Id, item: Item, o: Overlap, steps: seq<OverlapStep>)
    requires o.status.Completed?
    ensures CompletedThroughout(user, item, o, steps) <==> OverwritesNever(user, item, o, steps)
  {
    if steps != [] {
      CompletionStandsIff(user, item, o, steps[..|steps| - 1]);
    }
  }

  lemma {:induction false} LoadedCompletedOnly(user: Id, item: Item, o: Overlap, steps: seq<OverlapStep>)
    requires o.status.Completed? && forall run | run in o.loaded :: o.loaded[run].Completed?
    ensures var end := AfterSteps(user, item, o, steps);
            end.status.Completed? && forall run | run in end.loaded :: end.loaded[run].Completed?
  {
    if steps != [] {
      LoadedCompletedOnly(user, item, o, steps[..|steps| - 1]);
    }
  }

  /** Exactly when a recorded completion can still be lost: a run is at work that loaded the item before it. */
  lemma {:induction false} CompletionCanBeLostIff(user: Id, item: Item, o: Overlap)
    requires o.status.Completed?
    ensures (exists steps :: !AfterSteps(user, item, o, steps).status.Completed?)
            <==> exists run | run in o.loaded :: !o.loaded[run].Completed?
  {
    if run :| run in o.loaded && !o.loaded[run].Completed? {
      var step := if Executes(item.(status := o.loaded[run])) then Start(run)
                  else Conclude(run, World(map[], {}), NoFault, Surroundings([], [], _ => None, {}));
      var steps := [step];
      assert steps[..0] == [] && Overwrites(user, item, o, step);
      assert AfterSteps(user, item, o, steps) == AfterStep(user, item, o, step);
      assert !AfterSteps(user, item, o, steps).status.Completed?;
      assert exists lost :: !AfterSteps(user, item, o, lost).status.Completed?;
    } else {
      forall steps: seq<OverlapStep> ensures AfterSteps(user, item, o, steps).status.Completed? {
        LoadedCompletedOnly(user, item, o, steps);
      }
    }
  }

  /**
   Two runs load an item before either starts it.  The first completes it, the second fails
   and records that; a third run loads the failure and completes the item a second time.
   */
  lemma {:induction false} LateFailureUndoesCompletion(user: Id, item: Item, w: World, at: Surroundings)
    requires item.action.HardDelete? && item.target.Some?
    ensures var loaded := AfterStep(user, item, AfterStep(user, item, Overlap(Pending, map[]), Load(1)), Load(2));
            var first := AfterStep(user, item, AfterStep(user, item, loaded, Start(1)), Conclude(1, w, NoFault, at));
            var second := AfterStep(user, item, AfterStep(user, item, first, Start(2)), Conclude(2, w, BeforeEffect, at));
            var third := AfterStep(user, item, AfterStep(user, item, AfterStep(user, item, second, Load(3)), Start(3)), Conclude(3, w, NoFault, at));
            first.status.Completed? && second.status.Failed? && third.status.Completed?
  {
    var loaded := AfterStep(user, item, AfterStep(user, item, Overlap(Pending, map[]), Load(1)), Load(2));
    assert loaded == Overlap(Pending, map[1 := Pending, 2 := Pending]);
    var first := AfterStep(user, item, AfterStep(user, item, loaded, Start(1)), Conclude(1, w, NoFault, at));
    assert first == Overlap(Completed, loaded.loaded);
    var second := AfterStep(user, item, AfterStep(user, item, first, Start(2)), Conclude(2, w, BeforeEffect, at));
    assert second == Overlap(Failed, loaded.loaded);
  }

  const DELETED_TABLES := {"notifications", "push_subscriptions"}

  const DETACHED := {
    Target("documents", "approver_id"), Target("halal_certificates", "revoked_by"),
    Target("supplier_eligibilities", "provider_id"), Target("supplier_eligibilities", "changed_by")
  }

  predicate SafeRow(user: Id, table: string, before: Row, after: Row) {
    && after.pinned == before.pinned
    && after.refs.Keys <= before.refs.Keys
    && (forall c | c in after.refs :: after.refs[c] == before.refs[c])
    && (forall c | c in before.refs && c !in after.refs :: before.refs[c] == user && Target(table, c) in DETACHED)
    && ((after.filePath == before.filePath && after.fileSize == before.fileSize)
        || (table == "documents" && "user_id" in before.refs && before.refs["user_id"] == user
            && after.filePath == None && after.fileSize == 0))
  }

  predicate SafeAt(user: Id, key: RowKey, before: Rows, after: Rows)
    requires key in before
  {
    if key in after then SafeRow(user, key.table, before[key], after[key])
    else key.table in DELETED_TABLES && References(before, key, "user_id", user)
  }

  /**
   All that may happen to the data: the user's notifications and push subscriptions
   disappear, four nullable references to the user become NULL, and document rows of the
   user lose their file.
   */
  ghost predicate SafeChange(user: Id, before: Rows, after: Rows) {
    after.Keys <= before.Keys && forall k | k in before :: SafeAt(user, k, before, after)
  }

  lemma SafeChangeIsTransitive(user: Id, a: Rows, b: Rows, c: Rows)
    requires SafeChange(user, a, b) && SafeChange(user, b, c)
    ensures SafeChange(user, a, c)
  {
  }

  lemma PerformIsSafe(w: World, user: Id, item: Item, fault: Fault, at: Surroundings)
    requires FollowsPolicy(item) && Executes(item)
    ensures SafeChange(user, w.rows, Perform(w, user, item, fault, at).rows)
  {
    if item.action.DeleteFiles? {
      SweptRows(w, user, at, |at.scan|);
    } else {
      assert item.key in POLICIES;
      PolicyTargets(item);
    }
  }

  lemma PolicyTargets(item: Item)
    requires FollowsPolicy(item)
    ensures item.action.HardDelete? ==> item.target.Some? && item.target.value.table in DELETED_TABLES && item.target.value.column == "user_id"
    ensures item.action.Detach? ==> item.target.Some? && item.target.value in DETACHED
  {
  }

  predicate Built(items: seq<Item>) {
    forall i | 0 <= i < |items| :: FollowsPolicy(items[i])
  }

  lemma {:induction false} ExecutionIsSafe(e: Execution, n: nat)
    requires e.Valid() && n <= |e.items| && Built(e.items)
    ensures SafeChange(e.user, e.start.rows, e.Data(n).rows)
  {
    if n > 0 {
      ExecutionIsSafe(e, n - 1);
      if Executes(e.items[n - 1]) {
        PerformIsSafe(e.Data(n - 1), e.user, e.items[n - 1], e.faults[n - 1], e.at);
        SafeChangeIsTransitive(e.user, e.start.rows, e.Data(n - 1).rows, e.Data(n).rows);
      }
    }
  }

  /** Over any number of retries with any faults the data of a built case changes only in the ways `SafeChange` lists. */
  lemma {:induction false} RetriesAreSafe(s: State, user: Id, attempts: seq<Attempt>)
    requires Fits(s, attempts) && Built(s.items)
    ensures SafeChange(user, s.world.rows, Retries(s, user, attempts).world.rows)
    ensures Built(Retries(s, user, attempts).items)
  {
    if attempts != [] {
      var earlier := Retries(s, user, attempts[..|attempts| - 1]);
      var last := attempts[|attempts| - 1];
      RetriesAreSafe(s, user, attempts[..|attempts| - 1]);
      if last.identityMissing {
        ExecutionIsSafe(ExecutionOf(earlier, user, last), |earlier.items|);
        SafeChangeIsTransitive(user, s.world.rows, earlier.world.rows, Retries(s, user, attempts).world.rows);
      }
    }
  }

  lemma NothingSafeToChange(user: Id, before: Rows, after: Rows, k: RowKey)
    requires SafeChange(user, before, after) && k in before
    requires k.table == "audit_logs" || forall c | c in before[k].refs :: before[k].refs[c] != user
    ensures k in after && after[k] == before[k]
  {
  }

  /** Audit log rows, and rows of any table that do not reference the user, are never written. */
  lemma {:induction false} AuditLogsAndOthersUntouched(s: State, user: Id, attempts: seq<Attempt>, k: RowKey)
    requires Fits(s, attempts) && Built(s.items)
    requires k in s.world.rows
    requires k.table == "audit_logs" || forall c | c in s.world.rows[k].refs :: s.world.rows[k].refs[c] != user
    ensures var end := Retries(s, user, attempts).world.rows;
            k in end && end[k] == s.world.rows[k]
  {
    RetriesAreSafe(s, user, attempts);
    var end := Retries(s, user, attempts).world.rows;
    NothingSafeToChange(user, s.world.rows, end, k);
  }

  lemma UnreferencedStays(user: Id, before: Rows, after: Rows, t: Target)
    requires SafeChange(user, before, after) && Unreferenced(before, t, user)
    ensures Unreferenced(after, t, user)
  {
    forall k | k in after && k.table == t.table && t.column in after[k].refs ensures after[k].refs[t.column] != user {
      assert SafeAt(user, k, before, after);
    }
  }

  lemma {:induction false} LaterItemsAreSafe(e: Execution, m: nat, n: nat)
    requires e.Valid() && m <= n <= |e.items| && Built(e.items)
    ensures SafeChange(e.user, e.Data(m).rows, e.Data(n).rows)
  {
    if m < n {
      LaterItemsAreSafe(e, m, n - 1);
      if Executes(e.items[n - 1]) {
        PerformIsSafe(e.Data(n - 1), e.user, e.items[n - 1], e.faults[n - 1], e.at);
        SafeChangeIsTransitive(e.user, e.Data(m).rows, e.Data(n - 1).rows, e.Data(n).rows);
      }
    }
  }

  /** An item that a run deletes or detaches to completion has no references left when the run ends. */
  lemma {:induction false} CompletedItemLeavesNoReference(e: Execution, i: nat)
    requires e.Valid() && i < |e.items| && Built(e.items)
    requires e.items[i].action in {HardDelete, Detach} && !e.items[i].status.Completed? && e.Outcome(i).Completed?
    ensures e.items[i].target.Some? && Unreferenced(e.Data(|e.items|).rows, e.items[i].target.value, e.user)
  {
    if e.items[i].action.HardDelete? {
      CompletedDeleteTookEffect(e.Data(i), e.user, e.items[i], e.faults[i], e.at);
    } else {
      CompletedDetachTookEffect(e.Data(i), e.user, e.items[i], e.faults[i], e.at);
    }
    LaterItemsAreSafe(e, i + 1, |e.items|);
    UnreferencedStays(e.user, e.Data(i + 1).rows, e.Data(|e.items|).rows, e.items[i].target.value);
  }

  /** Over any retries: once such an item is recorded as completed, no row references the user by it. */
  lemma {:induction false} CompletedMeansNoReference(s: State, user: Id, attempts: seq<Attempt>, i: nat)
    requires Fits(s, attempts) && Built(s.items) && i < |s.items|
    requires s.items[i].action in {HardDelete, Detach} && !s.items[i].status.Completed?
    requires Retries(s, user, attempts).items[i].status.Completed?
    ensures s.items[i].target.Some? && Unreferenced(Retries(s, user, attempts).world.rows, s.items[i].target.value, user)
  {
    var before, last := attempts[..|attempts| - 1], attempts[|attempts| - 1];
    var earlier := Retries(s, user, before);
    RetriesAreSafe(s, user, before);
    RetriesKeepItems(s, user, before, i);
    if earlier.items[i].status.Completed? {
      CompletedMeansNoReference(s, user, before, i);
      if last.identityMissing {
        ExecutionIsSafe(ExecutionOf(earlier, user, last), |earlier.items|);
        UnreferencedStays(user, earlier.world.rows, Retries(s, user, attempts).world.rows, s.items[i].target.value);
      }
    } else {
      CompletedItemLeavesNoReference(ExecutionOf(earlier, user, last), i);
    }
  }

  predicate OwnUpload(rows: Rows, user: Id, at: Surroundings, p: Path) {
    at.root <= p && exists k | k in rows :: PointsTo(rows, k, user, at, p)
  }

  lemma UploadsAreInherited(user: Id, before: Rows, after: Rows, k: RowKey, at: Surroundings, p: Path)
    requires SafeChange(user, before, after) && PointsTo(after, k, user, at, p)
    ensures PointsTo(before, k, user, at, p)
  {
  }

  /** An execution unlinks only files under the upload root that a document row of the user points to. */
  lemma {:induction false} FilesLostAreOwnUploads(e: Execution, n: nat, p: Path)
    requires e.Valid() && n <= |e.items| && Built(e.items)
    requires p in e.start.files && p !in e.Data(n).files
    ensures OwnUpload(e.start.rows, e.user, e.at, p)
  {
    if n > 0 {
      var before := e.Data(n - 1);
      if p !in before.files {
        FilesLostAreOwnUploads(e, n - 1, p);
      } else {
        SweptFiles(before, e.user, e.at, |e.at.scan|, p);
        var i :| 0 <= i < |e.at.scan| && PointsTo(before.rows, e.at.scan[i], e.user, e.at, p);
        ExecutionIsSafe(e, n - 1);
        UploadsAreInherited(e.user, e.start.rows, before.rows, e.at.scan[i], e.at, p);
      }
    }
  }

  // ---------------------------------------------------------------- revoked certificates

  const REVOKER := Target("halal_certificates", "revoked_by")

  /** A certificate the user revoked: its CHECK constraint wants the revoker as long as there is a revocation time. */
  predicate RevokedBy(rows: Rows, k: RowKey, user: Id) {
    k.table == REVOKER.table && References(rows, k, REVOKER.column, user) && REVOKER.column in rows[k].pinned
  }

  lemma PerformKeepsRevoker(w: World, user: Id, item: Item, fault: Fault, at: Surroundings, k: RowKey)
    requires FollowsPolicy(item) && Executes(item) && RevokedBy(w.rows, k, user)
    ensures RevokedBy(Perform(w, user, item, fault, at).rows, k, user)
  {
    if item.action.HardDelete? || item.action.Detach? {
      assert item.key in POLICIES;
      PolicyTargets(item);
    }
  }

  lemma {:induction false} ExecutionKeepsRevoker(e: Execution, n: nat, k: RowKey)
    requires e.Valid() && n <= |e.items| && Built(e.items) && RevokedBy(e.start.rows, k, e.user)
    ensures RevokedBy(e.Data(n).rows, k, e.user)
  {
    if n > 0 {
      ExecutionKeepsRevoker(e, n - 1, k);
      if Executes(e.items[n - 1]) {
        PerformKeepsRevoker(e.Data(n - 1), e.user, e.items[n - 1], e.faults[n - 1], e.at, k);
      }
    }
  }

  /** While the user is the revoker of a revoked certificate, the item that detaches revokers fails in every execution. */
  lemma RevokerItemFails(e: Execution, i: nat, k: RowKey)
    requires e.Valid() && i < |e.items| && Built(e.items) && RevokedBy(e.start.rows, k, e.user)
    requires e.items[i].action.Detach? && e.items[i].target == Some(REVOKER) && !e.items[i].status.Completed?
    ensures e.Outcome(i).Failed?
  {
    ExecutionKeepsRevoker(e, i, k);
    assert DetachRefused(e.Data(i).rows, REVOKER, e.user);
  }

  /** And the case is not completed by that execution. */
  lemma RevokerItemBlocksCompletion(e: Execution, i: nat, k: RowKey)
    requires e.Valid() && i < |e.items| && Built(e.items) && RevokedBy(e.start.rows, k, e.user)
    requires e.items[i].action.Detach? && e.items[i].target == Some(REVOKER) && !e.items[i].status.Completed?
    ensures !Verdict(e.Counters(|e.items|)).CaseCompleted?
  {
    RevokerItemFails(e, i, k);
    CountersReflectItems(e, |e.items|);
  }

  /**
   So a case with that item never completes, however often it is retried, and the
   certificate keeps its revoker.
   */
  lemma {:induction false} RevokedCertificateKeepsTheCaseOpen(s: State, user: Id, attempts: seq<Attempt>, i: nat, k: RowKey)
    requires Fits(s, attempts) && Built(s.items) && i < |s.items| && RevokedBy(s.world.rows, k, user)
    requires s.items[i].action.Detach? && s.items[i].target == Some(REVOKER) && !s.items[i].status.Completed?
    ensures var end := Retries(s, user, attempts);
            && RevokedBy(end.world.rows, k, user)
            && end.items[i].action.Detach? && end.items[i].target == Some(REVOKER) && !end.items[i].status.Completed?
  {
    if attempts != [] {
      var earlier, last := Retries(s, user, attempts[..|attempts| - 1]), attempts[|attempts| - 1];
      RevokedCertificateKeepsTheCaseOpen(s, user, attempts[..|attempts| - 1], i, k);
      RetriesAreSafe(s, user, attempts[..|attempts| - 1]);
      if last.identityMissing {
        var e := ExecutionOf(earlier, user, last);
        RevokerItemFails(e, i, k);
        ExecutionKeepsRevoker(e, |e.items|, k);
      }
    }
  }

  predicate RevokerOfNone(rows: Rows, user: Id) {
    forall k | k in rows :: !RevokedBy(rows, k, user)
  }

  lemma RevokerOfNoneStays(user: Id, before: Rows, after: Rows)
    requires SafeChange(user, before, after) && RevokerOfNone(before, user)
    ensures RevokerOfNone(after, user) && !DetachRefused(after, REVOKER, user)
  {
    forall k | k in after ensures !RevokedBy(after, k, user) {
      assert SafeAt(user, k, before, after) && !RevokedBy(before, k, user);
    }
  }

  /** Exactly when that item fails: by a fault, or while the user is the revoker of a revoked certificate. */
  lemma RevokerItemFailsIff(e: Execution, i: nat)
    requires e.Valid() && i < |e.items| && Built(e.items)
    requires e.items[i].action.Detach? && e.items[i].target == Some(REVOKER) && !e.items[i].status.Completed?
    ensures e.Outcome(i).Failed? <==> !e.faults[i].NoFault? || !RevokerOfNone(e.start.rows, e.user)
    ensures e.Outcome(i).Failed? || e.Outcome(i).Completed?
  {
    if RevokerOfNone(e.start.rows, e.user) {
      ExecutionIsSafe(e, i);
      RevokerOfNoneStays(e.user, e.start.rows, e.Data(i).rows);
    } else {
      var k :| k in e.start.rows && RevokedBy(e.start.rows, k, e.user);
      RevokerItemFails(e, i, k);
    }
  }

  /** When every other item ends well, exactly that decides whether the case completes. */
  lemma {:induction false} RevokerDecidesCompletionIff(e: Execution, i: nat)
    requires e.Valid() && i < |e.items| && Built(e.items) && e.faults[i].NoFault?
    requires e.items[i].action.Detach? && e.items[i].target == Some(REVOKER) && !e.items[i].status.Completed?
    requires forall j | 0 <= j < |e.items| && j != i :: Settled(e.Outcome(j))
    ensures Verdict(e.Counters(|e.items|)).CaseCompleted? <==> RevokerOfNone(e.start.rows, e.user)
  {
    RevokerItemFailsIff(e, i);
    CountersReflectItems(e, |e.items|);
  }

  lemma {:induction false} RetriesKeepItems(s: State, user: Id, attempts: seq<Attempt>, i: nat)
    requires Fits(s, attempts) && i < |s.items|
    ensures Retries(s, user, attempts).items[i] == s.items[i].(status := Retries(s, user, attempts).items[i].status)
  {
    if attempts != [] {
      RetriesKeepItems(s, user, attempts[..|attempts| - 1], i);
    }
  }

  /**
   Exactly when the item is completed after any retries of which the last could run
   undisturbed: when the user was the revoker of no revoked certificate to begin with.
   */
  lemma {:induction false} RevokerItemCompletesIff(s: State, user: Id, attempts: seq<Attempt>, i: nat)
    requires Fits(s, attempts) && Built(s.items) && i < |s.items|
    requires s.items[i].action.Detach? && s.items[i].target == Some(REVOKER) && !s.items[i].status.Completed?
    requires attempts != [] && attempts[|attempts| - 1].identityMissing && attempts[|attempts| - 1].faults[i].NoFault?
    ensures Retries(s, user, attempts).items[i].status.Completed? <==> RevokerOfNone(s.world.rows, user)
  {
    if k :| k in s.world.rows && RevokedBy(s.world.rows, k, user) {
      RevokedCertificateKeepsTheCaseOpen(s, user, attempts, i, k);
    } else {
      var before, last := attempts[..|attempts| - 1], attempts[|attempts| - 1];
      var earlier := Retries(s, user, before);
      RetriesKeepItems(s, user, before, i);
      RetriesAreSafe(s, user, before);
      RevokerOfNoneStays(user, s.world.rows, earlier.world.rows);
      if !earlier.items[i].status.Completed? {
        RevokerItemFailsIff(ExecutionOf(earlier, user, last), i);
      }
    }
  }

  lemma {:induction false} SingleRevokerItem(e: Execution, k: RowKey)
    requires |e.items| == |e.faults| == 1 && e.faults[0].NoFault? && k in e.start.rows && RevokedBy(e.start.rows, k, e.user)
    requires e.items[0].action.Detach? && e.items[0].target == Some(REVOKER) && e.items[0].status.Pending?
    ensures e.Outcome(0).Failed? && e.Data(|e.items|) == e.start && Verdict(e.Counters(|e.items|)).CaseFailed?
  {
    var n := |e.items| - 1;
    assert e.Data(n) == e.start && DetachRefused(e.start.rows, REVOKER, e.user);
    assert Counted(e.items[n], e.Failing(n), e.faults[n]) == Tally(0, 0, 0, 1);
    assert e.Counters(n) == Tally(0, 0, 0, 0);
  }

  /** One certificate the user revoked, and the case built for it: the run ends with a failed case and all data as it was. */
  lemma {:induction false} RevokedCertificateFailsItsCase(user: Id, at: Surroundings)
    ensures var rows := map[RowKey(REVOKER.table, 0) := Row(map[REVOKER.column := user], None, 0, {REVOKER.column})];
            var e := Execution(World(rows, {}), user, [BuiltItem(Impact("certificates_revoked", 1), true)], [NoFault], at);
            e.Outcome(0).Failed? && e.Data(|e.items|) == e.start && Verdict(e.Counters(|e.items|)).CaseFailed?
  {
    var rows := map[RowKey(REVOKER.table, 0) := Row(map[REVOKER.column := user], None, 0, {REVOKER.column})];
    CertificatesRevokedIsThatItem(1);
    var e := Execution(World(rows, {}), user, [BuiltItem(Impact("certificates_revoked", 1), true)], [NoFault], at);
    SingleRevokerItem(e, RowKey(REVOKER.table, 0));
  }

  /** The item of the policy table is that item. */
  lemma CertificatesRevokedIsThatItem(count: int)
    ensures var item := BuiltItem(Impact("certificates_revoked", count), true);
            item.action.Detach? && item.target == Some(REVOKER) && item.status.Pending?
  {
  }
}
