/**
 The module entitlements of one tenant, `backend/auth/module_service.py`.

 A module is active when its row is `enabled` or `trial`.  Activating needs every
 dependency active, deactivating needs no active dependent; both guards look at the
 dependency rows labelled "requires".
 */
module ModuleEntitlements {
  import opened Common
  import opened Walks

  type Module = string

  datatype Status = Enabled | Trial | Disabled | Locked

  datatype Source = BusinessModelDefault | AdminOverride | Migration | Plan

  datatype Row = Row(status: Status, source: Source, enabledAt: Option<int>, disabledAt: Option<int>)

  datatype Edge = Edge(dependent: Module, dependency: Module, kind: string)

  /** The registry, its dependency table, and the tenant's business model. */
  datatype Catalog = Catalog(enabled: set<Module>, edges: set<Edge>, required: set<Module>, defaults: map<Module, bool>)

  type Rows = map<Module, Row>

  const GUARD_LABEL := "requires"

  /** The labels the table constraint of migration 041 admits. */
  const SCHEMA_LABELS: set<string> := {"required", "optional", "enhances"}

  datatype SetResult =
    | Accepted(rows: Rows)
    | InvalidStatus
    | ModuleNotFound
    | ModuleRequired
    | DependencyMissing(missing: set<Module>)
    | DependentEnabled(dependents: set<Module>)

  predicate IsActive(s: Status) {
    s.Enabled? || s.Trial?
  }

  predicate Active(rows: Rows, m: Module) {
    m in rows && IsActive(rows[m].status)
  }

  function ActiveSet(rows: Rows): set<Module> {
    set m | m in rows && IsActive(rows[m].status)
  }

  function Dependencies(cat: Catalog, m: Module, kind: string): set<Module> {
    set e | e in cat.edges && e.dependent == m && e.kind == kind :: e.dependency
  }

  function Dependents(cat: Catalog, m: Module, kind: string): set<Module> {
    set e | e in cat.edges && e.dependency == m && e.kind == kind :: e.dependent
  }

  function ParseStatus(status: string): Option<Status> {
    match status
    case "enabled" => Some(Enabled)
    case "trial" => Some(Trial)
    case "disabled" => Some(Disabled)
    case "locked" => Some(Locked)
    case _ => None
  }

  /** The final UPDATE, without any guard. */
  function Write(rows: Rows, m: Module, s: Status, now: int): Rows
    requires m in rows
  {
    rows[m := Row(s, AdminOverride,
                  if IsActive(s) then Coalesce(rows[m].enabledAt, now) else None,
                  if IsActive(s) then None else Coalesce(rows[m].disabledAt, now))]
  }

  function MissingDependencies(cat: Catalog, rows: Rows, m: Module): set<Module> {
    set d | d in Dependencies(cat, m, GUARD_LABEL) && !Active(rows, d)
  }

  function EnabledDependents(cat: Catalog, rows: Rows, m: Module): set<Module> {
    set d | d in Dependents(cat, m, GUARD_LABEL) && Active(rows, d)
  }

  /** `set_tenant_module_status` as one atomic request. */
  function SetStatus(cat: Catalog, rows: Rows, m: Module, status: string, now: int): SetResult {
    var parsed := ParseStatus(status);
    if parsed.None? then InvalidStatus
    else if m !in rows || m !in cat.enabled then ModuleNotFound
    else if m in cat.required && !IsActive(parsed.value) then ModuleRequired
    else if IsActive(parsed.value) && MissingDependencies(cat, rows, m) != {} then
      DependencyMissing(MissingDependencies(cat, rows, m))
    else if !IsActive(parsed.value) && EnabledDependents(cat, rows, m) != {} then
      DependentEnabled(EnabledDependents(cat, rows, m))
    else Accepted(Write(rows, m, parsed.value, now))
  }

  /** `provision_tenant_modules_for_industry`: one upsert, no dependency check. */
  function Provision(cat: Catalog, rows: Rows, now: int): Rows {
    map m | m in rows.Keys + ProvisionedModules(cat) ::
      if m in ProvisionedModules(cat) && !(m in rows && rows[m].source == AdminOverride) then
        Row(if cat.defaults[m] then Enabled else Disabled, BusinessModelDefault,
            if cat.defaults[m] then Coalesce(if m in rows then rows[m].enabledAt else None, now) else None,
            if cat.defaults[m] then None else Coalesce(if m in rows then rows[m].disabledAt else None, now))
      else rows[m]
  }

  function ProvisionedModules(cat: Catalog): set<Module> {
    set m | m in cat.defaults && m in cat.enabled
  }

  // ---------------------------------------------------------------- activation requests

  datatype RequestStatus = Pending | Approved | Rejected

  datatype ActivationRequest = ActivationRequest(moduleCode: Module, status: RequestStatus)

  datatype Tenant = Tenant(rows: Rows, requests: map<int, ActivationRequest>)

  datatype Step =
    | Set(moduleCode: Module, status: string, now: int)
    | Create(id: int, moduleCode: Module)
    | Review(id: int, approve: bool, now: int)

  /** A rejected request leaves everything as it was. */
  function Apply(cat: Catalog, t: Tenant, step: Step): Tenant {
    match step
    case Set(m, status, now) =>
      (match SetStatus(cat, t.rows, m, status, now)
       case Accepted(rows) => t.(rows := rows)
       case _ => t)
    case Create(id, m) =>
      if m !in t.rows || m !in cat.enabled || Active(t.rows, m) || id in t.requests then t
      else if exists other :: other in t.requests && t.requests[other] == ActivationRequest(m, Pending) then t
      else t.(requests := t.requests[id := ActivationRequest(m, Pending)])
    case Review(id, approve, now) =>
      if id !in t.requests || !t.requests[id].status.Pending? then t
      else if !approve then t.(requests := t.requests[id := t.requests[id].(status := Rejected)])
      else
        match SetStatus(cat, t.rows, t.requests[id].moduleCode, "trial", now)
        case Accepted(rows) => Tenant(rows, t.requests[id := t.requests[id].(status := Approved)])
        case _ => t
  }

  function RunSteps(cat: Catalog, t: Tenant, steps: seq<Step>): Tenant {
    if steps == [] then t else Apply(cat, RunSteps(cat, t, steps[..|steps| - 1]), steps[|steps| - 1])
  }

  class ModuleService {
    const catalog: Catalog
    var rows: Rows
    var requests: map<int, ActivationRequest>

    constructor (catalog: Catalog, rows: Rows)
      ensures this.catalog == catalog && this.rows == rows && requests == map[]
    {
      this.catalog, this.rows, requests := catalog, rows, map[];
    }

    method SetTenantModuleStatus(m: Module, status: string, now: int) returns (r: SetResult)
      modifies this
      ensures r == old(SetStatus(catalog, rows, m, status, now))
      ensures rows == (if r.Accepted? then r.rows else old(rows)) && requests == old(requests)
    {
      var parsed := ParseStatus(status);
      if parsed.None? {
        return InvalidStatus;
      }
      if m !in rows || m !in catalog.enabled {
        return ModuleNotFound;
      }
      if m in catalog.required && !IsActive(parsed.value) {
        return ModuleRequired;
      }
      var missing := MissingDependencies(catalog, rows, m);
      if IsActive(parsed.value) && missing != {} {
        return DependencyMissing(missing);
      }
      var dependents := EnabledDependents(catalog, rows, m);
      if !IsActive(parsed.value) && dependents != {} {
        return DependentEnabled(dependents);
      }
      rows := Write(rows, m, parsed.value, now);
      return Accepted(rows);
    }

    /** Approval sets the module to `trial` first; if that is refused the request stays pending. */
    method ReviewActivationRequest(id: int, approve: bool, now: int) returns (done: bool)
      modifies this
      ensures Tenant(rows, requests) == old(Apply(catalog, Tenant(rows, requests), Review(id, approve, now)))
      ensures done <==> old(id in requests && requests[id].status.Pending?) && requests[id].status == if approve then Approved else Rejected
    {
      if id !in requests || !requests[id].status.Pending? {
        return false;
      }
      if approve {
        var r := SetTenantModuleStatus(requests[id].moduleCode, "trial", now);
        if !r.Accepted? {
          return false;
        }
      }
      requests := requests[id := requests[id].(status := if approve then Approved else Rejected)];
      return true;
    }
  }

  // ---------------------------------------------------------------- what each request does

  /** Which of the six answers a call gets: the refusals in the order of the checks, with the modules they name. */
  lemma CallAnswers(cat: Catalog, rows: Rows, m: Module, status: string, now: int)
    ensures var r := SetStatus(cat, rows, m, status, now);
            var known := status in {"enabled", "trial", "disabled", "locked"};
            var on := status in {"enabled", "trial"};
            var found := m in rows && m in cat.enabled;
            var required := m in cat.required && !on;
            var missing := set e | e in cat.edges && e.dependent == m && e.kind == "requires"
                                   && !(e.dependency in rows && rows[e.dependency].status in {Enabled, Trial}) :: e.dependency;
            var dependents := set e | e in cat.edges && e.dependency == m && e.kind == "requires"
                                      && e.dependent in rows && rows[e.dependent].status in {Enabled, Trial} :: e.dependent;
            && (r.InvalidStatus? <==> !known)
            && (r.ModuleNotFound? <==> known && !found)
            && (r.ModuleRequired? <==> known && found && required)
            && (r.DependencyMissing? <==> known && found && on && missing != {})
            && (r.DependencyMissing? ==> r.missing == missing)
            && (r.DependentEnabled? <==> known && found && !required && !on && dependents != {})
            && (r.DependentEnabled? ==> r.dependents == dependents)
  {
  }

  /**
   What an accepted call stores: the status asked for, marked as an administrator's; an
   active module keeps the time it was first enabled, an inactive one the time it was
   first disabled.  No other row changes.
   */
  lemma AcceptedCallStores(cat: Catalog, rows: Rows, m: Module, status: string, now: int)
    requires SetStatus(cat, rows, m, status, now).Accepted?
    ensures var next := SetStatus(cat, rows, m, status, now).rows;
            && m in rows && next.Keys == rows.Keys && (forall x :: x in rows && x != m ==> next[x] == rows[x])
            && next[m].source.AdminOverride?
            && (status == "enabled" <==> next[m].status.Enabled?) && (status == "trial" <==> next[m].status.Trial?)
            && (status == "disabled" <==> next[m].status.Disabled?) && (status == "locked" <==> next[m].status.Locked?)
            && (status in {"enabled", "trial"} ==>
                  next[m].disabledAt.None? && next[m].enabledAt == (if rows[m].enabledAt.Some? then rows[m].enabledAt else Some(now)))
            && (status in {"disabled", "locked"} ==>
                  next[m].enabledAt.None? && next[m].disabledAt == (if rows[m].disabledAt.Some? then rows[m].disabledAt else Some(now)))
  {
  }

  /** Provisioning, under whatever business model and at whatever time, spares what an accepted call has stored. */
  lemma AcceptedCallSurvivesProvisioning(cat: Catalog, rows: Rows, m: Module, status: string, now: int, model: Catalog, later: int)
    requires SetStatus(cat, rows, m, status, now).Accepted?
    ensures var next := SetStatus(cat, rows, m, status, now).rows;
            m in next && m in Provision(model, next, later) && Provision(model, next, later)[m] == next[m]
  {
  }

  /** What provisioning does to each module: overrides and modules outside the model stay, all others follow the default. */
  lemma ProvisionedRow(cat: Catalog, rows: Rows, now: int, m: Module)
    ensures var next := Provision(cat, rows, now);
            var follows := m in cat.defaults && m in cat.enabled && (m in rows ==> !rows[m].source.AdminOverride?);
            && (m in next <==> m in rows || follows)
            && (m in rows && !follows ==> next[m] == rows[m])
            && (follows ==> && next[m].source.BusinessModelDefault?
                            && (if cat.defaults[m] then next[m].status.Enabled? && next[m].disabledAt.None?
                                else next[m].status.Disabled? && next[m].enabledAt.None?)
                            && (m !in rows ==> if cat.defaults[m] then next[m].enabledAt == Some(now) else next[m].disabledAt == Some(now))
                            && (m in rows && cat.defaults[m] ==>
                                  next[m].enabledAt == if rows[m].enabledAt.Some? then rows[m].enabledAt else Some(now))
                            && (m in rows && !cat.defaults[m] ==>
                                  next[m].disabledAt == if rows[m].disabledAt.Some? then rows[m].disabledAt else Some(now)))
  {
  }

  /** Provisioning again, at any later time, changes nothing. */
  lemma ProvisionIsIdempotent(cat: Catalog, rows: Rows, now: int, later: int)
    ensures Provision(cat, Provision(cat, rows, now), later) == Provision(cat, rows, now)
  {
    var once, twice := Provision(cat, rows, now), Provision(cat, Provision(cat, rows, now), later);
    forall m | m in once ensures m in twice && twice[m] == once[m] {
      ProvisionedRow(cat, rows, now, m);
      ProvisionedRow(cat, once, later, m);
    }
  }

  /** A set request leaves the activation requests alone, and the rows unless the call is accepted. */
  lemma SetAnswers(cat: Catalog, t: Tenant, m: Module, status: string, now: int)
    ensures var r := SetStatus(cat, t.rows, m, status, now);
            Apply(cat, t, Set(m, status, now)) == Tenant(if r.Accepted? then r.rows else t.rows, t.requests)
  {
  }

  /** What a review does: nothing unless the request is pending; a rejection closes it; an approval also puts its module on trial, or fails whole. */
  lemma ReviewAnswers(cat: Catalog, t: Tenant, id: int, approve: bool, now: int)
    ensures var next := Apply(cat, t, Review(id, approve, now));
            var pending := id in t.requests && t.requests[id].status.Pending?;
            && next.requests.Keys == t.requests.Keys
            && (forall r :: r in t.requests && r != id ==> next.requests[r] == t.requests[r])
            && (!pending ==> next == t)
            && (pending && !approve ==> next.rows == t.rows && next.requests[id] == ActivationRequest(t.requests[id].moduleCode, Rejected))
            && (pending && approve ==>
                  var m := t.requests[id].moduleCode;
                  var r := SetStatus(cat, t.rows, m, "trial", now);
                  if r.Accepted? then
                    && next.requests[id] == ActivationRequest(m, Approved) && next.rows == r.rows
                    && m in next.rows && next.rows[m].status.Trial?
                  else next == t)
  {
  }

  /** A request is created, as pending, exactly for a known inactive module without a pending request. */
  lemma CreateAnswers(cat: Catalog, t: Tenant, id: int, m: Module)
    requires id !in t.requests
    ensures var next := Apply(cat, t, Create(id, m));
            && next.rows == t.rows
            && (if && m in t.rows && m in cat.enabled && t.rows[m].status in {Disabled, Locked}
                   && forall r :: r in t.requests && t.requests[r].moduleCode == m ==> t.requests[r].status in {Approved, Rejected}
                then next.requests == t.requests[id := ActivationRequest(m, Pending)]
                else next.requests == t.requests)
  {
    forall r | r in t.requests
      ensures t.requests[r] == ActivationRequest(m, Pending) <==> t.requests[r].moduleCode == m && t.requests[r].status !in {Approved, Rejected}
    {
      match t.requests[r].status
      case Pending =>
      case Approved =>
      case Rejected =>
    }
  }

  // ---------------------------------------------------------------- closure

  /** Every dependency of an active module, through edges of one label, is active. */
  ghost predicate ClosedUnder(cat: Catalog, rows: Rows, kind: string) {
    forall e :: e in cat.edges && e.kind == kind && Active(rows, e.dependent) ==> Active(rows, e.dependency)
  }

  ghost predicate Closed(cat: Catalog, rows: Rows) {
    ClosedUnder(cat, rows, GUARD_LABEL)
  }

  /**
   Exactly when an UPDATE keeps the active set closed: the guard has to hold of the rows
   at the moment of the write, for the label in question.
   */
  lemma WriteKeepsClosedIff(cat: Catalog, rows: Rows, m: Module, s: Status, now: int, kind: string)
    requires m in rows && ClosedUnder(cat, rows, kind)
    requires m !in Dependencies(cat, m, kind)
    ensures ClosedUnder(cat, Write(rows, m, s, now), kind)
            <==> if IsActive(s) then forall d :: d in Dependencies(cat, m, kind) ==> Active(rows, d)
                 else forall d :: d in Dependents(cat, m, kind) ==> !Active(rows, d)
  {
    var next := Write(rows, m, s, now);
    assert forall x :: x != m ==> Active(next, x) == Active(rows, x);
    if ClosedUnder(cat, next, kind) {
      forall e | e in cat.edges && e.kind == kind && (e.dependent == m || e.dependency == m)
        ensures e.dependent == m && IsActive(s) ==> Active(rows, e.dependency)
        ensures e.dependency == m && !IsActive(s) ==> !Active(rows, e.dependent)
      {
        assert e.dependent == m ==> e.dependency in Dependencies(cat, m, kind);
      }
    } else {
      var e :| e in cat.edges && e.kind == kind && Active(next, e.dependent) && !Active(next, e.dependency);
      assert e.dependent == m ==> e.dependency in Dependencies(cat, m, kind);
      assert e.dependency == m ==> e.dependent in Dependents(cat, m, kind);
    }
  }

  /** No module depends on itself, as the table constraint demands. */
  ghost predicate NoSelfEdges(cat: Catalog) {
    forall e :: e in cat.edges ==> e.dependent != e.dependency
  }

  lemma SetKeepsClosed(cat: Catalog, rows: Rows, m: Module, status: string, now: int)
    requires NoSelfEdges(cat) && Closed(cat, rows) && SetStatus(cat, rows, m, status, now).Accepted?
    ensures var next := SetStatus(cat, rows, m, status, now).rows;
            && Closed(cat, next)
            && next.Keys == rows.Keys
            && (forall r :: r in cat.required && Active(rows, r) ==> Active(next, r))
            && (forall x :: x != m ==> Active(next, x) == Active(rows, x))
            && Active(next, m) == IsActive(ParseStatus(status).value)
  {
    var s := ParseStatus(status).value;
    WriteKeepsClosedIff(cat, rows, m, s, now, GUARD_LABEL);
    if IsActive(s) {
      forall d | d in Dependencies(cat, m, GUARD_LABEL) ensures Active(rows, d) {
        assert d !in MissingDependencies(cat, rows, m);
      }
    } else {
      forall d | d in Dependents(cat, m, GUARD_LABEL) ensures !Active(rows, d) {
        assert d !in EnabledDependents(cat, rows, m);
      }
    }
  }

  /** Every run of set, create and review requests keeps the active set closed and required modules active. */
  lemma {:induction false} RunKeepsClosed(cat: Catalog, t: Tenant, steps: seq<Step>)
    requires NoSelfEdges(cat) && Closed(cat, t.rows)
    ensures var after := RunSteps(cat, t, steps).rows;
            && Closed(cat, after)
            && after.Keys == t.rows.Keys
            && forall r :: r in cat.required && Active(t.rows, r) ==> Active(after, r)
  {
    if steps != [] {
      var n := |steps| - 1;
      RunKeepsClosed(cat, t, steps[..n]);
      StepSets(cat, RunSteps(cat, t, steps[..n]), steps[n]);
    }
  }

  /** A step leaves the rows alone or is one accepted call of `SetStatus`. */
  lemma StepSets(cat: Catalog, t: Tenant, step: Step)
    requires NoSelfEdges(cat) && Closed(cat, t.rows)
    ensures var next := Apply(cat, t, step).rows;
            || next == t.rows
            || exists m, status, now ::
                 && SetStatus(cat, t.rows, m, status, now) == Accepted(next)
                 && Closed(cat, next) && next.Keys == t.rows.Keys
                 && forall r :: r in cat.required && Active(t.rows, r) ==> Active(next, r)
  {
    match step {
      case Set(m, status, now) =>
        if SetStatus(cat, t.rows, m, status, now).Accepted? {
          SetKeepsClosed(cat, t.rows, m, status, now);
        }
      case Create(_, _) =>
      case Review(id, approve, now) =>
        if id in t.requests && SetStatus(cat, t.rows, t.requests[id].moduleCode, "trial", now).Accepted? {
          SetKeepsClosed(cat, t.rows, t.requests[id].moduleCode, "trial", now);
        }
    }
  }

  /** `path` follows "requires" edges. */
  ghost predicate RequiresPath(cat: Catalog, path: seq<Module>) {
    forall i :: 0 <= i < |path| - 1 ==> Edge(path[i], path[i + 1], GUARD_LABEL) in cat.edges
  }

  /** Closure reaches everything a module requires, however indirectly. */
  lemma {:induction false} ClosedIsTransitive(cat: Catalog, rows: Rows, path: seq<Module>)
    requires Closed(cat, rows) && path != [] && RequiresPath(cat, path) && Active(rows, path[0])
    ensures Active(rows, path[|path| - 1])
  {
    if |path| > 1 {
      assert Edge(path[0], path[1], GUARD_LABEL) in cat.edges;
      forall i | 0 <= i < |path| - 2 ensures Edge(path[1..][i], path[1..][i + 1], GUARD_LABEL) in cat.edges {
        assert Edge(path[i + 1], path[i + 2], GUARD_LABEL) in cat.edges;
      }
      ClosedIsTransitive(cat, rows, path[1..]);
    }
  }

  // ---------------------------------------------------------------- deadlock

  /** A set of modules each of which requires another member of the set. */
  ghost predicate Entangled(cat: Catalog, knot: set<Module>) {
    forall m {:trigger NeedsMember(cat, knot, m)} :: m in knot ==> NeedsMember(cat, knot, m)
  }

  ghost predicate NeedsMember(cat: Catalog, knot: set<Module>, m: Module) {
    exists d :: d in knot && Edge(m, d, GUARD_LABEL) in cat.edges
  }

  ghost predicate AllInactive(rows: Rows, knot: set<Module>) {
    forall m :: m in knot ==> !Active(rows, m)
  }

  lemma AcceptedCallLeavesKnot(cat: Catalog, rows: Rows, knot: set<Module>, m: Module, status: string, now: int)
    requires NoSelfEdges(cat) && Closed(cat, rows) && Entangled(cat, knot) && AllInactive(rows, knot)
    requires SetStatus(cat, rows, m, status, now).Accepted?
    ensures AllInactive(SetStatus(cat, rows, m, status, now).rows, knot)
  {
    SetKeepsClosed(cat, rows, m, status, now);
    ClosedKnotIsWhole(cat, SetStatus(cat, rows, m, status, now).rows, knot, m);
  }

  /** In a closed state one member of an entangled set cannot be active alone. */
  lemma ClosedKnotIsWhole(cat: Catalog, rows: Rows, knot: set<Module>, m: Module)
    requires NoSelfEdges(cat) && Closed(cat, rows) && Entangled(cat, knot)
    requires forall x :: x in knot && x != m ==> !Active(rows, x)
    ensures AllInactive(rows, knot)
  {
    if m in knot {
      assert NeedsMember(cat, knot, m);
      var d :| d in knot && Edge(m, d, GUARD_LABEL) in cat.edges;
      assert Edge(m, d, GUARD_LABEL).dependency == d;
    }
  }

  /** No run of requests ever activates a member of an inactive entangled set. */
  lemma {:induction false} EntangledStaysInactive(cat: Catalog, t: Tenant, knot: set<Module>, steps: seq<Step>)
    requires NoSelfEdges(cat) && Closed(cat, t.rows)
    requires Entangled(cat, knot) && AllInactive(t.rows, knot)
    ensures AllInactive(RunSteps(cat, t, steps).rows, knot)
  {
    if steps != [] {
      var n := |steps| - 1;
      var before := RunSteps(cat, t, steps[..n]);
      var after := Apply(cat, before, steps[n]);
      EntangledStaysInactive(cat, t, knot, steps[..n]);
      RunKeepsClosed(cat, t, steps[..n]);
      StepSets(cat, before, steps[n]);
      if after.rows != before.rows {
        var m, status, now :| SetStatus(cat, before.rows, m, status, now) == Accepted(after.rows);
        AcceptedCallLeavesKnot(cat, before.rows, knot, m, status, now);
      }
    }
  }

  // ---------------------------------------------------------------- reachability

  type Graph = set<(Module, Module)>

  function RequiresGraph(cat: Catalog): Graph {
    set e | e in cat.edges && e.kind == GUARD_LABEL :: (e.dependent, e.dependency)
  }

  function Reversed(g: Graph): Graph {
    set e | e in g :: (e.1, e.0)
  }

  lemma {:induction false} ReversedPath(g: Graph, p: seq<Module>) returns (q: seq<Module>)
    requires p != [] && forall i :: 0 <= i < |p| - 1 ==> (p[i], p[i + 1]) in Reversed(g)
    ensures |q| == |p| && q[0] == p[|p| - 1] && q[|q| - 1] == p[0]
    ensures forall i :: 0 <= i < |q| - 1 ==> (q[i], q[i + 1]) in g
  {
    if |p| == 1 {
      q := p;
    } else {
      var tail := p[1..];
      forall i | 0 <= i < |tail| - 1 ensures (tail[i], tail[i + 1]) in Reversed(g) {
        assert (p[i + 1], p[i + 2]) in Reversed(g);
      }
      q := ReversedPath(g, tail);
      assert (p[0], p[1]) in Reversed(g);
      q := q + [p[0]];
    }
  }

  lemma ReversedAcyclic(g: Graph)
    requires Acyclic(g)
    ensures Acyclic(Reversed(g))
  {
    forall p | IsWalk(Reversed(g), p) && |p| >= 2 ensures p[0] != p[|p| - 1] {
      var q := ReversedPath(g, p);
      assert IsWalk(g, q);
    }
  }

  lemma {:induction false} Repeats(p: seq<Module>, s: set<Module>) returns (i: nat, j: nat)
    requires |p| > |s| && forall k :: 0 <= k < |p| ==> p[k] in s
    ensures i < j < |p| && p[i] == p[j]
    decreases |p|
  {
    var last := p[|p| - 1];
    if k :| 0 <= k < |p| - 1 && p[k] == last {
      i, j := k, |p| - 1;
    } else {
      i, j := Repeats(p[..|p| - 1], s - {last});
    }
  }

  lemma LongWalkCycles(g: Graph, s: set<Module>, q: seq<Module>)
    requires |q| > |s| && forall k :: 0 <= k < |q| ==> q[k] in s
    requires forall k :: 0 <= k < |q| - 1 ==> (q[k], q[k + 1]) in g
    ensures !Acyclic(g)
  {
    var i, j := Repeats(q, s);
    assert IsWalk(g, q[i..j + 1]);
  }

  /** In a finite acyclic graph every non-empty set has a member without a successor in the set. */
  lemma HasSink(g: Graph, s: set<Module>) returns (m: Module)
    requires Acyclic(g) && s != {}
    ensures m in s && forall d :: d in s ==> (m, d) !in g
  {
    var p: seq<Module> := [];
    m :| m in s;
    p := [m];
    while exists d :: d in s && (m, d) in g
      invariant p != [] && p[|p| - 1] == m && forall k :: 0 <= k < |p| ==> p[k] in s
      invariant forall k :: 0 <= k < |p| - 1 ==> (p[k], p[k + 1]) in g
      invariant |p| <= |s|
      decreases |s| - |p|
    {
      var d :| d in s && (m, d) in g;
      var q := p + [d];
      if |q| > |s| {
        LongWalkCycles(g, s, q);
      }
      m, p := d, q;
    }
  }

  datatype Call = Call(moduleCode: Module, status: string)

  /** All calls are accepted, one after another. */
  predicate AllAccepted(cat: Catalog, rows: Rows, calls: seq<Call>, now: int) {
    calls == []
    || (var r := SetStatus(cat, rows, calls[0].moduleCode, calls[0].status, now);
        r.Accepted? && AllAccepted(cat, r.rows, calls[1..], now))
  }

  function AfterCalls(cat: Catalog, rows: Rows, calls: seq<Call>, now: int): Rows
    requires AllAccepted(cat, rows, calls, now)
  {
    if calls == [] then rows
    else AfterCalls(cat, SetStatus(cat, rows, calls[0].moduleCode, calls[0].status, now).rows, calls[1..], now)
  }

  lemma {:induction false} CallsCompose(cat: Catalog, rows: Rows, a: seq<Call>, b: seq<Call>, now: int)
    requires AllAccepted(cat, rows, a, now) && AllAccepted(cat, AfterCalls(cat, rows, a, now), b, now)
    ensures AllAccepted(cat, rows, a + b, now)
    ensures AfterCalls(cat, rows, a + b, now) == AfterCalls(cat, AfterCalls(cat, rows, a, now), b, now)
  {
    if a == [] {
      assert a + b == b;
    } else {
      assert (a + b)[0] == a[0] && (a + b)[1..] == a[1..] + b;
      CallsCompose(cat, SetStatus(cat, rows, a[0].moduleCode, a[0].status, now).rows, a[1..], b, now);
    }
  }

  /** Activate a set whose dependencies are active or in the set, in topological order. */
  lemma {:induction false} ActivateAll(cat: Catalog, rows: Rows, s: set<Module>, now: int) returns (calls: seq<Call>)
    requires NoSelfEdges(cat) && Acyclic(RequiresGraph(cat)) && Closed(cat, rows)
    requires s <= rows.Keys && s <= cat.enabled && s !! ActiveSet(rows)
    requires forall m :: m in s ==> Dependencies(cat, m, GUARD_LABEL) <= ActiveSet(rows) + s
    ensures AllAccepted(cat, rows, calls, now)
    ensures ActiveSet(AfterCalls(cat, rows, calls, now)) == ActiveSet(rows) + s
    ensures AfterCalls(cat, rows, calls, now).Keys == rows.Keys && Closed(cat, AfterCalls(cat, rows, calls, now))
    decreases s
  {
    if s == {} {
      calls := [];
    } else {
      var m := HasSink(RequiresGraph(cat), s);
      forall d | d in Dependencies(cat, m, GUARD_LABEL) ensures Active(rows, d) {
        assert (m, d) in RequiresGraph(cat);
      }
      assert MissingDependencies(cat, rows, m) == {};
      SetKeepsClosed(cat, rows, m, "enabled", now);
      var next := SetStatus(cat, rows, m, "enabled", now).rows;
      assert ActiveSet(next) == ActiveSet(rows) + {m};
      var rest := ActivateAll(cat, next, s - {m}, now);
      calls := [Call(m, "enabled")] + rest;
      assert calls[1..] == rest;
    }
  }

  /** Deactivate a set that no remaining active module needs, dependents first. */
  lemma {:induction false} DeactivateAll(cat: Catalog, rows: Rows, s: set<Module>, now: int) returns (calls: seq<Call>)
    requires NoSelfEdges(cat) && Acyclic(RequiresGraph(cat)) && Closed(cat, rows)
    requires s <= ActiveSet(rows) && s <= cat.enabled && s !! cat.required
    requires forall m :: m in ActiveSet(rows) - s ==> Dependencies(cat, m, GUARD_LABEL) !! s
    ensures AllAccepted(cat, rows, calls, now)
    ensures ActiveSet(AfterCalls(cat, rows, calls, now)) == ActiveSet(rows) - s
    decreases s
  {
    if s == {} {
      calls := [];
    } else {
      ReversedAcyclic(RequiresGraph(cat));
      var m := HasSink(Reversed(RequiresGraph(cat)), s);
      forall d | d in Dependents(cat, m, GUARD_LABEL) ensures !Active(rows, d) {
        assert (d, m) in RequiresGraph(cat) && (m, d) in Reversed(RequiresGraph(cat));
        assert m in Dependencies(cat, d, GUARD_LABEL);
      }
      assert EnabledDependents(cat, rows, m) == {};
      SetKeepsClosed(cat, rows, m, "disabled", now);
      var next := SetStatus(cat, rows, m, "disabled", now).rows;
      assert ActiveSet(next) == ActiveSet(rows) - {m};
      var rest := DeactivateAll(cat, next, s - {m}, now);
      calls := [Call(m, "disabled")] + rest;
      assert calls[1..] == rest;
    }
  }

  /** What a target has to satisfy: closed, keeping the active required modules, moving only modules that can be set. */
  ghost predicate Admissible(cat: Catalog, rows: Rows, target: set<Module>) {
    var active := ActiveSet(rows);
    && (forall m :: m in target ==> Dependencies(cat, m, GUARD_LABEL) <= target)
    && active * cat.required <= target
    && (target - active) + (active - target) <= rows.Keys * cat.enabled
  }

  ghost predicate Reaches(cat: Catalog, rows: Rows, target: set<Module>, calls: seq<Call>, now: int) {
    AllAccepted(cat, rows, calls, now) && ActiveSet(AfterCalls(cat, rows, calls, now)) == target
  }

  lemma {:induction false} ReachedIsAdmissible(cat: Catalog, rows: Rows, calls: seq<Call>, now: int)
    requires NoSelfEdges(cat) && Closed(cat, rows) && AllAccepted(cat, rows, calls, now)
    ensures Admissible(cat, rows, ActiveSet(AfterCalls(cat, rows, calls, now)))
    ensures Closed(cat, AfterCalls(cat, rows, calls, now))
  {
    if calls == [] {
      forall m, d | m in ActiveSet(rows) && d in Dependencies(cat, m, GUARD_LABEL) ensures d in ActiveSet(rows) {
      }
    } else {
      var m := calls[0].moduleCode;
      SetKeepsClosed(cat, rows, m, calls[0].status, now);
      var next := SetStatus(cat, rows, m, calls[0].status, now).rows;
      ReachedIsAdmissible(cat, next, calls[1..], now);
      assert forall x :: x != m ==> (x in ActiveSet(next) <==> x in ActiveSet(rows));
      forall r | r in ActiveSet(rows) * cat.required ensures r in ActiveSet(next) {
        assert Active(rows, r);
      }
    }
  }

  /**
   The reachability theorem: with an acyclic "requires" graph a target set of active
   modules can be reached by accepted calls exactly when it is admissible.
   */
  lemma ReachableIffAdmissible(cat: Catalog, rows: Rows, target: set<Module>, now: int)
    requires NoSelfEdges(cat) && Acyclic(RequiresGraph(cat)) && Closed(cat, rows)
    ensures (exists calls :: Reaches(cat, rows, target, calls, now)) <==> Admissible(cat, rows, target)
  {
    if calls :| Reaches(cat, rows, target, calls, now) {
      ReachedIsAdmissible(cat, rows, calls, now);
    }
    if Admissible(cat, rows, target) {
      var active := ActiveSet(rows);
      var on := ActivateAll(cat, rows, target - active, now);
      var mid := AfterCalls(cat, rows, on, now);
      var off := DeactivateAll(cat, mid, active - target, now);
      CallsCompose(cat, rows, on, off, now);
      assert Reaches(cat, rows, target, on + off, now);
    }
  }

  // ---------------------------------------------------------------- limits of the guards

  /** Provisioning keeps the active set closed exactly when no edge leads from a module it leaves active to one it does not. */
  lemma ProvisionKeepsClosedIff(cat: Catalog, rows: Rows, now: int)
    ensures Closed(cat, Provision(cat, rows, now))
            <==> forall e | e in cat.edges && e.kind == GUARD_LABEL ::
                   ActiveAfterProvision(cat, rows, e.dependent) ==> ActiveAfterProvision(cat, rows, e.dependency)
  {
  }

  /** Decided before the call: an override keeps its row, a default decides the others. */
  predicate ActiveAfterProvision(cat: Catalog, rows: Rows, m: Module) {
    if m in cat.defaults && m in cat.enabled && !(m in rows && rows[m].source == AdminOverride)
    then cat.defaults[m] else Active(rows, m)
  }

  /** A default of `disabled` for a module that an administrator's override depends on: provisioning disables it all the same. */
  lemma ProvisionBreaksClosure(now: int)
    ensures var cat := Catalog({"a", "b"}, {Edge("a", "b", GUARD_LABEL)}, {}, map["a" := false, "b" := false]);
            var rows := map["a" := Row(Enabled, AdminOverride, Some(0), None), "b" := Row(Enabled, BusinessModelDefault, Some(0), None)];
            && Closed(cat, rows)
            && Provision(cat, rows, now)["a"] == rows["a"] && Provision(cat, rows, now)["b"].status.Disabled?
            && !Closed(cat, Provision(cat, rows, now))
  {
    var cat := Catalog({"a", "b"}, {Edge("a", "b", GUARD_LABEL)}, {}, map["a" := false, "b" := false]);
    var rows := map["a" := Row(Enabled, AdminOverride, Some(0), None), "b" := Row(Enabled, BusinessModelDefault, Some(0), None)];
    var after := Provision(cat, rows, now);
    assert "a" in ProvisionedModules(cat) && "b" in ProvisionedModules(cat);
    assert Active(after, "a") && !Active(after, "b");
  }

  /** Under the labels the schema admits, neither dependency guard can ever refuse a call. */
  lemma SchemaLabelsDisarmTheGuards(cat: Catalog, rows: Rows, m: Module, status: string, now: int)
    requires forall e :: e in cat.edges ==> e.kind in SCHEMA_LABELS
    ensures !SetStatus(cat, rows, m, status, now).DependencyMissing?
    ensures !SetStatus(cat, rows, m, status, now).DependentEnabled?
  {
  }

  const SEEDED_MODULES: set<Module> := {
    "certification_dossier", "document_management", "supplier_management", "traceability", "process_digitization",
    "workforce", "daily_operations", "audit_compliance", "public_trace", "notifications"
  }

  const SEEDED_EDGES: set<Edge> := {
    Edge("traceability", "supplier_management", "required"), Edge("public_trace", "traceability", "required"),
    Edge("process_digitization", "traceability", "enhances"), Edge("daily_operations", "workforce", "enhances")
  }

  /** The modules the seed leaves optional, and off, for restaurants and hotels. */
  const HOTEL_OPTIONAL: set<Module> := {"traceability", "process_digitization", "public_trace"}

  /** The seeded registry under the business model of restaurants and hotels. */
  function SeededHotel(): Catalog {
    Catalog(SEEDED_MODULES, SEEDED_EDGES, SEEDED_MODULES - HOTEL_OPTIONAL,
            map m | m in SEEDED_MODULES :: m !in HOTEL_OPTIONAL)
  }

  /** The seven modules a restaurant or hotel must have, and has on; the other three are optional and off. */
  lemma SeededHotelIs(m: Module)
    ensures var cat := SeededHotel();
            var needed := m in {"certification_dossier", "document_management", "supplier_management", "daily_operations", "workforce",
                                "audit_compliance", "notifications"};
            var optional := m in {"traceability", "process_digitization", "public_trace"};
            && (m in cat.required <==> needed)
            && (m in cat.enabled <==> needed || optional) && (m in cat.defaults <==> needed || optional)
            && (m in cat.defaults ==> (cat.defaults[m] <==> needed))
  {
  }

  lemma SeededLabels()
    ensures forall e | e in SEEDED_EDGES :: e.kind in SCHEMA_LABELS && e.kind != GUARD_LABEL
    ensures forall e | e in SEEDED_EDGES && e.kind == "required" ::
              (e.dependent == "traceability" && e.dependency == "supplier_management")
              || (e.dependent == "public_trace" && e.dependency == "traceability")
    ensures Edge("public_trace", "traceability", "required") in SEEDED_EDGES
  {
  }

  lemma HotelModules()
    ensures "supplier_management" in SEEDED_MODULES - HOTEL_OPTIONAL
    ensures "traceability" in SEEDED_MODULES && "public_trace" in SEEDED_MODULES
    ensures "traceability" in HOTEL_OPTIONAL && "public_trace" in HOTEL_OPTIONAL && "public_trace" != "traceability"
  {
  }

  /**
   So a newly provisioned hotel, whose modules respect the seeded dependencies, may enable
   public trace without the traceability it is declared to need.
   */
  lemma SeededDependencyIsNotEnforced(now: int)
    ensures var cat := SeededHotel();
            var rows := Provision(cat, map[], now);
            && ClosedUnder(cat, rows, "required")
            && SetStatus(cat, rows, "public_trace", "enabled", now).Accepted?
            && !ClosedUnder(cat, SetStatus(cat, rows, "public_trace", "enabled", now).rows, "required")
  {
    var cat := SeededHotel();
    var rows := Provision(cat, map[], now);
    SeededLabels();
    HotelModules();
    SchemaLabelsDisarmTheGuards(cat, rows, "public_trace", "enabled", now);
    assert !Active(rows, "traceability") && !Active(rows, "public_trace") && Active(rows, "supplier_management");
    var after := SetStatus(cat, rows, "public_trace", "enabled", now).rows;
    assert "traceability" in Dependencies(cat, "public_trace", "required");
    assert Active(after, "public_trace") && !Active(after, "traceability");
  }

  /**
   Two requests whose guards both ran before either wrote: each is accepted on the rows
   it read, and the second write leaves an active module without its dependency.
   */
  lemma InterleavedWritesBreakClosure(now: int)
    ensures var on, off := Row(Enabled, AdminOverride, Some(0), None), Row(Disabled, AdminOverride, None, Some(0));
            var cat := Catalog({"a", "b"}, {Edge("a", "b", GUARD_LABEL)}, {}, map[]);
            var rows := map["a" := off, "b" := on];
            && Closed(cat, rows)
            && SetStatus(cat, rows, "a", "enabled", now).Accepted?
            && SetStatus(cat, rows, "b", "disabled", now).Accepted?
            && !Closed(cat, Write(Write(rows, "a", Enabled, now), "b", Disabled, now))
  {
  }

  /** The final UPDATE of a review, by id alone. */
  function WriteReview(t: Tenant, id: int, verdict: RequestStatus): Tenant
    requires id in t.requests
  {
    t.(requests := t.requests[id := t.requests[id].(status := verdict)])
  }

  /** A rejection that read a pending request and writes after its approval leaves the module active and the request rejected. */
  lemma LateRejectionOverturnsApproval(cat: Catalog, t: Tenant, id: int, now: int)
    requires id in t.requests && t.requests[id].status.Pending?
    requires SetStatus(cat, t.rows, t.requests[id].moduleCode, "trial", now).Accepted?
    ensures var approved := Apply(cat, t, Review(id, true, now));
            && approved.requests[id].status.Approved?
            && WriteReview(approved, id, Rejected).requests[id].status.Rejected?
            && Active(WriteReview(approved, id, Rejected).rows, t.requests[id].moduleCode)
  {
  }

  /** A late review overturns no verdict exactly when its request is still pending, or has that verdict already. */
  lemma LateReviewKeepsVerdictsIff(t: Tenant, id: int, verdict: RequestStatus)
    requires id in t.requests
    ensures (forall r | r in t.requests && !t.requests[r].status.Pending? :: WriteReview(t, id, verdict).requests[r] == t.requests[r])
            <==> t.requests[id].status.Pending? || t.requests[id].status == verdict
  {
    if !t.requests[id].status.Pending? && t.requests[id].status != verdict {
      assert WriteReview(t, id, verdict).requests[id] != t.requests[id];
    }
  }

  // ---------------------------------------------------------------- runs with late writes

  /** A request served at once, a provisioning, or an UPDATE whose checks ran at some earlier time. */
  datatype Update =
    | AtOnce(step: Step)
    | Provisioning(now: int)
    | LateSet(moduleCode: Module, target: Status, now: int)
    | LateReview(id: int, verdict: RequestStatus)

  function AfterUpdate(cat: Catalog, t: Tenant, u: Update): Tenant {
    match u
    case AtOnce(step) => Apply(cat, t, step)
    case Provisioning(now) => t.(rows := Provision(cat, t.rows, now))
    case LateSet(m, target, now) => if m in t.rows then t.(rows := Write(t.rows, m, target, now)) else t
    case LateReview(id, verdict) => if id in t.requests then WriteReview(t, id, verdict) else t
  }

  function RunUpdates(cat: Catalog, t: Tenant, updates: seq<Update>): Tenant {
    if updates == [] then t
    else AfterUpdate(cat, RunUpdates(cat, t, updates[..|updates| - 1]), updates[|updates| - 1])
  }

  /** The guard of an update holds of the rows at its time. */
  ghost predicate GuardHolds(cat: Catalog, rows: Rows, u: Update) {
    match u
    case AtOnce(_) => true
    case LateReview(_, _) => true
    case Provisioning(_) =>
      forall e | e in cat.edges && e.kind == GUARD_LABEL ::
        ActiveAfterProvision(cat, rows, e.dependent) ==> ActiveAfterProvision(cat, rows, e.dependency)
    case LateSet(m, target, _) =>
      m in rows ==>
        if IsActive(target) then forall d :: d in Dependencies(cat, m, GUARD_LABEL) ==> Active(rows, d)
        else forall d :: d in Dependents(cat, m, GUARD_LABEL) ==> !Active(rows, d)
  }

  lemma UpdateKeepsClosedIff(cat: Catalog, t: Tenant, u: Update)
    requires NoSelfEdges(cat) && Closed(cat, t.rows)
    ensures Closed(cat, AfterUpdate(cat, t, u).rows) <==> GuardHolds(cat, t.rows, u)
  {
    match u
    case AtOnce(step) => StepSets(cat, t, step);
    case Provisioning(now) => ProvisionKeepsClosedIff(cat, t.rows, now);
    case LateReview(_, _) =>
    case LateSet(m, target, now) =>
      if m in t.rows {
        WriteKeepsClosedIff(cat, t.rows, m, target, now, GUARD_LABEL);
      }
  }

  /** The active set is closed at the start and after each of the updates. */
  ghost predicate ClosedThroughout(cat: Catalog, t: Tenant, updates: seq<Update>) {
    Closed(cat, RunUpdates(cat, t, updates).rows) && (updates == [] || ClosedThroughout(cat, t, updates[..|updates| - 1]))
  }

  /** Every update meets its guard at its time. */
  ghost predicate GuardsHold(cat: Catalog, t: Tenant, updates: seq<Update>) {
    updates == []
    || (GuardsHold(cat, t, updates[..|updates| - 1])
        && GuardHolds(cat, RunUpdates(cat, t, updates[..|updates| - 1]).rows, updates[|updates| - 1]))
  }

  /** An interleaving keeps the active set closed throughout exactly when every late write and provisioning meets its guard at its time. */
  lemma {:induction false} ClosedThroughoutIff(cat: Catalog, t: Tenant, updates: seq<Update>)
    requires NoSelfEdges(cat) && Closed(cat, t.rows)
    ensures ClosedThroughout(cat, t, updates) <==> GuardsHold(cat, t, updates)
  {
    if updates != [] {
      var earlier := updates[..|updates| - 1];
      ClosedThroughoutIff(cat, t, earlier);
      if ClosedThroughout(cat, t, earlier) {
        UpdateKeepsClosedIff(cat, RunUpdates(cat, t, earlier), updates[|updates| - 1]);
      }
    }
  }

  /** The request is there, and as given, at the start and after each of the updates. */
  predicate VerdictThroughout(cat: Catalog, t: Tenant, updates: seq<Update>, id: int, r: ActivationRequest) {
    && id in RunUpdates(cat, t, updates).requests && RunUpdates(cat, t, updates).requests[id] == r
    && (updates == [] || VerdictThroughout(cat, t, updates[..|updates| - 1], id, r))
  }

  /** In every interleaving a reviewed request keeps its verdict exactly until a late review of it writes another. */
  lemma {:induction false} VerdictStandsIff(cat: Catalog, t: Tenant, updates: seq<Update>, id: int)
    requires id in t.requests && !t.requests[id].status.Pending?
    ensures VerdictThroughout(cat, t, updates, id, t.requests[id])
            <==> forall i | 0 <= i < |updates| :: !(updates[i].LateReview? && updates[i].id == id && updates[i].verdict != t.requests[id].status)
  {
    if updates != [] {
      VerdictStandsIff(cat, t, updates[..|updates| - 1], id);
    }
  }
}
