/** What the install plans of every package have in common. */
module ArmoryProperties {
  import opened Armory
  import opened CanonicalLists
  import opened Subsequences

  // ---------------------------------------------------------------------------------------------
  // Reading a plan's gates

  predicate IsInstall(op: Operation) { op.InstallExtension? }
  predicate IsLink(op: Operation) { op.LinkIntegration? }
  predicate IsValidation(op: Operation) { op.ValidateTemplate? }
  predicate IsExecution(op: Operation) { op.ExecuteTemplate? }
  predicate IsDelegation(op: Operation) { op.DelegateTemplate? }
  predicate IsPull(op: Operation) { op.PullArtifact? }

  /** The operations of the gates that `wanted` selects, in order. */
  function Held(wanted: Operation -> bool, gates: seq<Gate>): seq<Operation> {
    if gates == [] then []
    else (if wanted(gates[0].operation) then [gates[0].operation] else []) + Held(wanted, gates[1..])
  }

  lemma {:induction false} HeldAppend(wanted: Operation -> bool, a: seq<Gate>, b: seq<Gate>)
    ensures Held(wanted, a + b) == Held(wanted, a) + Held(wanted, b)
  {
    if a == [] {
      assert a + b == b;
    } else {
      var tail := a[1..];
      HeldAppend(wanted, tail, b);
      HeldAppendStep(wanted, a[0], tail, b);
      assert a == [a[0]] + tail && a + b == [a[0]] + (tail + b);
    }
  }

  lemma HeldAppendStep(wanted: Operation -> bool, gate: Gate, a: seq<Gate>, b: seq<Gate>)
    requires Held(wanted, a + b) == Held(wanted, a) + Held(wanted, b)
    ensures Held(wanted, [gate] + (a + b)) == Held(wanted, [gate] + a) + Held(wanted, b)
  {
    HeldCons(wanted, gate, a);
    HeldCons(wanted, gate, a + b);
  }

  lemma HeldCons(wanted: Operation -> bool, gate: Gate, gates: seq<Gate>)
    ensures Held(wanted, [gate] + gates)
            == (if wanted(gate.operation) then [gate.operation] else []) + Held(wanted, gates)
  {
    var all := [gate] + gates;
    assert all[0] == gate && all[1..] == gates;
  }

  lemma HeldOne(wanted: Operation -> bool, gate: Gate)
    ensures Held(wanted, [gate]) == if wanted(gate.operation) then [gate.operation] else []
  {
    assert [gate][1..] == [];
  }

  /** The operations that the parts of a plan call for. */
  function Installs(extensions: seq<ExtensionInstall>): seq<Operation> {
    seq(|extensions|, i requires 0 <= i < |extensions| => InstallExtension(extensions[i].id))
  }

  function Links(integrations: seq<Integration>): seq<Operation> {
    seq(|integrations|, i requires 0 <= i < |integrations| => LinkIntegration(integrations[i].id))
  }

  function Validations(templates: seq<Template>): seq<Operation> {
    seq(|templates|, i requires 0 <= i < |templates| => ValidateTemplate(templates[i].packageRef))
  }

  /** The dependencies that take part: the required ones, and the optional ones if asked for. */
  predicate Included(d: Dependency, includeOptional: bool) {
    d.required || includeOptional
  }

  function Delegations(deps: seq<Dependency>, includeOptional: bool): seq<Operation> {
    if deps == [] then []
    else
      Delegations(deps[..|deps| - 1], includeOptional)
      + var d := deps[|deps| - 1];
        if Included(d, includeOptional) && d.kind == ForgeTemplate then [DelegateTemplate(d.id)] else []
  }

  lemma InstallsAppend(a: seq<ExtensionInstall>, b: seq<ExtensionInstall>)
    ensures Installs(a + b) == Installs(a) + Installs(b)
  {
  }

  // ---------------------------------------------------------------------------------------------
  // Accounting

  /** All that a list of gates holds back, by kind. */
  predicate Holds(
    gates: seq<Gate>, installs: seq<Operation>, links: seq<Operation>, validations: seq<Operation>,
    executions: seq<Operation>, delegations: seq<Operation>, pulls: seq<Operation>)
  {
    && Held(IsInstall, gates) == installs
    && Held(IsLink, gates) == links
    && Held(IsValidation, gates) == validations
    && Held(IsExecution, gates) == executions
    && Held(IsDelegation, gates) == delegations
    && Held(IsPull, gates) == pulls
  }

  lemma HoldsAppend(
    a: seq<Gate>, b: seq<Gate>, i: seq<Operation>, l: seq<Operation>, v: seq<Operation>, e: seq<Operation>,
    d: seq<Operation>, i': seq<Operation>, d': seq<Operation>, p': seq<Operation>)
    requires Holds(a, i, l, v, e, d, []) && Holds(b, i', [], [], [], d', p')
    ensures Holds(a + b, i + i', l, v, e, d + d', p')
  {
    HeldAppend(IsInstall, a, b);
    HeldAppend(IsLink, a, b);
    HeldAppend(IsValidation, a, b);
    HeldAppend(IsExecution, a, b);
    HeldAppend(IsDelegation, a, b);
    HeldAppend(IsPull, a, b);
  }

  lemma HoldsOne(gate: Gate)
    ensures Holds([gate],
                  if gate.operation.InstallExtension? then [gate.operation] else [],
                  if gate.operation.LinkIntegration? then [gate.operation] else [],
                  if gate.operation.ValidateTemplate? then [gate.operation] else [],
                  if gate.operation.ExecuteTemplate? then [gate.operation] else [],
                  if gate.operation.DelegateTemplate? then [gate.operation] else [],
                  if gate.operation.PullArtifact? then [gate.operation] else [])
  {
    HeldOne(IsInstall, gate);
    HeldOne(IsLink, gate);
    HeldOne(IsValidation, gate);
    HeldOne(IsExecution, gate);
    HeldOne(IsDelegation, gate);
    HeldOne(IsPull, gate);
  }

  /** Every gate is of one kind, so the kinds add up to all the gates. */
  lemma {:induction false} KindsAddUp(gates: seq<Gate>)
    ensures |gates| == |Held(IsInstall, gates)| + |Held(IsLink, gates)| + |Held(IsValidation, gates)|
                       + |Held(IsExecution, gates)| + |Held(IsDelegation, gates)| + |Held(IsPull, gates)|
  {
    if gates != [] {
      KindsAddUp(gates[1..]);
    }
  }

  function Executions(p: Package): seq<Operation> {
    if IsDestructiveForge(p) then [ExecuteTemplate(p.packageRef)] else []
  }

  lemma InitialHolds(p: Package)
    ensures var plan := InitialPlan(p);
            Holds(plan.gates, Installs(plan.extensions), Links(plan.integrations), Validations(plan.templates),
                  Executions(p), [], [])
  {
    var plan := InitialPlan(p);
    var i, l, v := Installs(plan.extensions), Links(plan.integrations), Validations(plan.templates);
    if p.kind == ForgeTemplate {
      assert i == [] && l == [] && v == [ValidateTemplate(p.packageRef)];
      ForgeHolds(p);
    } else if p.kind == Extension && p.distribution == Registry {
      assert i == [InstallExtension(p.id)] && l == [] && v == [];
      HoldsOne(InstallGate(p.id, ChangesAuthority));
    } else if p.kind == Extension && p.distribution == External {
      assert i == [] && l == [LinkIntegration(p.id)] && v == [];
      HoldsOne(Gate(LinkIntegration(p.id), LinkedSeparately, ApprovalRequired));
    } else {
      assert i == [] && l == [] && v == [];
    }
  }

  lemma ForgeHolds(p: Package)
    requires p.kind == ForgeTemplate
    ensures Holds(PackageGates(p), [], [], [ValidateTemplate(p.packageRef)], Executions(p), [], [])
  {
    var validate := Gate(ValidateTemplate(p.packageRef), NeedsValidation, ApprovalRequired);
    var execute := Gate(ExecuteTemplate(p.packageRef), Destructive(p.destructiveCapabilities), Blocked);
    HoldsOne(validate);
    if p.destructiveCapabilities != [] {
      HoldsOne(execute);
      PairHolds(validate, execute);
    } else {
      assert [validate] + [] == [validate];
    }
  }

  lemma PairHolds(validate: Gate, execute: Gate)
    requires Holds([validate], [], [], [validate.operation], [], [], [])
    requires Holds([execute], [], [], [], [execute.operation], [], [])
    ensures Holds([validate] + [execute], [], [], [validate.operation], [execute.operation], [], [])
  {
    HeldAppend(IsInstall, [validate], [execute]);
    HeldAppend(IsLink, [validate], [execute]);
    HeldAppend(IsValidation, [validate], [execute]);
    HeldAppend(IsExecution, [validate], [execute]);
    HeldAppend(IsDelegation, [validate], [execute]);
    HeldAppend(IsPull, [validate], [execute]);
  }

  lemma DependencyHolds(d: Dependency)
    ensures Holds(DependencyGates(d), Installs(DependencyExtensions(d)), [], [], [],
                  if d.kind == ForgeTemplate then [DelegateTemplate(d.id)] else [], [])
  {
    var gates := DependencyGates(d);
    if gates != [] {
      HoldsOne(gates[0]);
      assert gates == [gates[0]];
    }
  }

  lemma ContributionHolds(d: Dependency, includeOptional: bool)
    ensures var c := Contributor(includeOptional)(d);
            Holds(c.gates, Installs(c.extensions), [], [], [],
                  if Included(d, includeOptional) && d.kind == ForgeTemplate then [DelegateTemplate(d.id)] else [], [])
  {
    if Included(d, includeOptional) {
      DependencyHolds(d);
    }
  }

  lemma {:induction false} DependenciesHold(deps: seq<Dependency>, includeOptional: bool)
    ensures var c := Collect(Contributor(includeOptional), deps);
            Holds(c.gates, Installs(c.extensions), [], [], [], Delegations(deps, includeOptional), [])
  {
    if deps != [] {
      var n := |deps| - 1;
      var before := Collect(Contributor(includeOptional), deps[..n]);
      var last := Contributor(includeOptional)(deps[n]);
      var d := deps[n];
      var delegated := if Included(d, includeOptional) && d.kind == ForgeTemplate then [DelegateTemplate(d.id)] else [];
      DependenciesHold(deps[..n], includeOptional);
      ContributionHolds(deps[n], includeOptional);
      HoldsAppend(before.gates, last.gates, Installs(before.extensions), [], [], [],
                  Delegations(deps[..n], includeOptional),
                  Installs(last.extensions), delegated, []);
      InstallsAppend(before.extensions, last.extensions);
    }
  }

  lemma PullGates(p: Package)
    ensures AnyPull(InitialPlan(p).artifacts) <==> InitialPlan(p).artifacts != []
    ensures |InitialPlan(p).artifacts| <= 1
    ensures Holds(if AnyPull(InitialPlan(p).artifacts) then [PULL_GATE] else [], [], [], [], [], [],
                  if InitialPlan(p).artifacts != [] then [PullArtifact] else [])
  {
    HoldsOne(PULL_GATE);
    if PullsArtifact(p) {
      assert InitialPlan(p).artifacts[0].ociRef != "";
    }
  }

  /**
    The gates of every plan are exactly those that its contents call for: kind by kind and in order,
    one install per extension, one link per integration, one validation per template, one delegation
    per forge template dependency that takes part, an execution for a destructive forge template and
    a pull if there is an artifact.
   */
  lemma GatesMatchContents(p: Package, includeOptional: bool)
    ensures var plan := PlanOf(p, includeOptional);
            Holds(plan.gates, Installs(plan.extensions), Links(plan.integrations), Validations(plan.templates),
                  Executions(p),
                  Delegations(p.dependencies, includeOptional), if plan.artifacts != [] then [PullArtifact] else [])
  {
    var start := InitialPlan(p);
    var c := Collect(Contributor(includeOptional), p.dependencies);
    var delegations := Delegations(p.dependencies, includeOptional);
    var pull := if AnyPull(start.artifacts) then [PULL_GATE] else [];
    InitialHolds(p);
    DependenciesHold(p.dependencies, includeOptional);
    HoldsAppend(start.gates, c.gates, Installs(start.extensions), Links(start.integrations),
                Validations(start.templates),
                Executions(p), [], Installs(c.extensions), delegations, []);
    InstallsAppend(start.extensions, c.extensions);
    PullGates(p);
    assert [] + delegations == delegations;
    HoldsAppend(start.gates + c.gates, pull, Installs(start.extensions + c.extensions), Links(start.integrations),
                Validations(start.templates), Executions(p), delegations, [], [],
                if start.artifacts != [] then [PullArtifact] else []);
    assert Installs(start.extensions + c.extensions) + [] == Installs(start.extensions + c.extensions);
    assert delegations + [] == delegations;
    FinishedParts(p, includeOptional);
  }

  lemma FinishedParts(p: Package, includeOptional: bool)
    ensures var plan := PlanOf(p, includeOptional);
            var start := InitialPlan(p);
            var c := Collect(Contributor(includeOptional), p.dependencies);
            && plan.gates == start.gates + c.gates + (if AnyPull(start.artifacts) then [PULL_GATE] else [])
            && plan.extensions == start.extensions + c.extensions
            && plan.artifacts == start.artifacts && plan.integrations == start.integrations
            && plan.templates == start.templates
            && plan.requiredSecrets == Canonical(c.requiredSecrets)
            && plan.optionalSecrets == Canonical(c.optionalSecrets)
  {
    var c := Collect(Contributor(includeOptional), p.dependencies);
    assert [] + c.requiredSecrets == c.requiredSecrets && [] + c.optionalSecrets == c.optionalSecrets;
  }

  /** The number of gates, in terms of what the plan holds. */
  lemma GateAccounting(p: Package, includeOptional: bool)
    ensures var plan := PlanOf(p, includeOptional);
            |plan.gates| == |plan.extensions| + |plan.integrations| + |plan.templates|
                            + |Delegations(p.dependencies, includeOptional)|
                            + (if plan.artifacts != [] then 1 else 0) + (if IsDestructiveForge(p) then 1 else 0)
  {
    GatesMatchContents(p, includeOptional);
    KindsAddUp(PlanOf(p, includeOptional).gates);
  }

  // ---------------------------------------------------------------------------------------------
  // Severity

  predicate NoneBlocked(gates: seq<Gate>) {
    forall i :: 0 <= i < |gates| ==> gates[i].severity == ApprovalRequired
  }

  lemma {:induction false} DependenciesNotBlocked(part: Dependency -> Contribution, deps: seq<Dependency>)
    requires forall d :: NoneBlocked(part(d).gates)
    ensures NoneBlocked(Collect(part, deps).gates)
  {
    if deps != [] {
      DependenciesNotBlocked(part, deps[..|deps| - 1]);
    }
  }

  /** A plan is blocked exactly by the execution of a destructive forge template; all else wants approval. */
  lemma BlockedExactly(p: Package, includeOptional: bool, g: Gate)
    requires g in PlanOf(p, includeOptional).gates
    ensures g.severity == Blocked <==> IsDestructiveForge(p) && g.operation == ExecuteTemplate(p.packageRef)
    ensures g.severity != Blocked ==> g.severity == ApprovalRequired
  {
    var c := Collect(Contributor(includeOptional), p.dependencies);
    FinishedParts(p, includeOptional);
    if g in c.gates {
      CollectedNotBlocked(p.dependencies, includeOptional, g);
    } else if g in PackageGates(p) {
      PackageBlocked(p, g);
    } else {
      assert g == PULL_GATE;
    }
  }

  lemma CollectedNotBlocked(deps: seq<Dependency>, includeOptional: bool, g: Gate)
    requires g in Collect(Contributor(includeOptional), deps).gates
    ensures g.severity == ApprovalRequired && !g.operation.ExecuteTemplate?
  {
    forall d
      ensures NoneBlocked(Contributor(includeOptional)(d).gates)
    {
    }
    DependenciesNotBlocked(Contributor(includeOptional), deps);
    DependenciesHold(deps, includeOptional);
    NotHeld(IsExecution, Collect(Contributor(includeOptional), deps).gates, g);
  }

  lemma PackageBlocked(p: Package, g: Gate)
    requires g in PackageGates(p)
    ensures g.severity == Blocked <==> IsDestructiveForge(p) && g.operation == ExecuteTemplate(p.packageRef)
    ensures g.severity != Blocked ==> g.severity == ApprovalRequired
  {
  }

  lemma {:induction false} NotHeld(wanted: Operation -> bool, gates: seq<Gate>, g: Gate)
    requires g in gates && Held(wanted, gates) == []
    ensures !wanted(g.operation)
  {
    if g != gates[0] {
      NotHeld(wanted, gates[1..], g);
    }
  }

  /** Some gate is blocked exactly in the plan of a destructive forge template. */
  lemma BlockedIffDestructive(p: Package, includeOptional: bool)
    ensures (exists g :: g in PlanOf(p, includeOptional).gates && g.severity == Blocked) <==> IsDestructiveForge(p)
  {
    var gates := PlanOf(p, includeOptional).gates;
    if g :| g in gates && g.severity == Blocked {
      BlockedExactly(p, includeOptional, g);
    }
    if IsDestructiveForge(p) {
      FinishedParts(p, includeOptional);
      var g := Gate(ExecuteTemplate(p.packageRef), Destructive(p.destructiveCapabilities), Blocked);
      assert PackageGates(p)[1] == g;
      assert gates[1] == g;
    }
  }

  // ---------------------------------------------------------------------------------------------
  // Optional dependencies

  lemma {:induction false} OptionalCollected(deps: seq<Dependency>)
    ensures var few := Collect(Contributor(false), deps);
            var all := Collect(Contributor(true), deps);
            && few.requiredSecrets == all.requiredSecrets && few.optionalSecrets == []
            && IsSubsequence(few.extensions, all.extensions) && IsSubsequence(few.gates, all.gates)
  {
    if deps != [] {
      var n := |deps| - 1;
      OptionalCollected(deps[..n]);
      var few, all := Collect(Contributor(false), deps[..n]), Collect(Contributor(true), deps[..n]);
      var less, more := Contributor(false)(deps[n]), Contributor(true)(deps[n]);
      SubsequenceOfSelf(more.extensions);
      SubsequenceOfSelf(more.gates);
      SubsequenceAppend(few.extensions, all.extensions, less.extensions, more.extensions);
      SubsequenceAppend(few.gates, all.gates, less.gates, more.gates);
    }
  }

  /** Including optional dependencies only adds. */
  lemma OptionalOnlyAdds(p: Package)
    ensures var few := PlanOf(p, false);
            var all := PlanOf(p, true);
            && few.requiredSecrets == all.requiredSecrets && few.optionalSecrets == []
            && IsSubsequence(few.extensions, all.extensions) && IsSubsequence(few.gates, all.gates)
            && few == all.(extensions := few.extensions, gates := few.gates, optionalSecrets := [])
  {
    OptionalCollected(p.dependencies);
    FinishedParts(p, false);
    FinishedParts(p, true);
    var start := InitialPlan(p);
    var few, all := Collect(Contributor(false), p.dependencies), Collect(Contributor(true), p.dependencies);
    var pull := if AnyPull(start.artifacts) then [PULL_GATE] else [];
    SubsequenceOfSelf(start.extensions);
    SubsequenceOfSelf(start.gates);
    SubsequenceOfSelf(pull);
    SubsequenceAppend(start.extensions, start.extensions, few.extensions, all.extensions);
    SubsequenceAppend(start.gates, start.gates, few.gates, all.gates);
    SubsequenceAppend(start.gates + few.gates, start.gates + all.gates, pull, pull);
  }

  // ---------------------------------------------------------------------------------------------
  // Secrets

  predicate Declares(d: Dependency, name: string) {
    d.secrets.Some? && SecretName(name) in d.secrets.value
  }

  lemma {:induction false} NamesExactly(values: seq<SecretValue>, name: string)
    ensures name in Names(values) <==> SecretName(name) in values
  {
    if values != [] {
      NamesExactly(values[1..], name);
      assert values == [values[0]] + values[1..];
    }
  }

  lemma SecretNamesExactly(d: Dependency, name: string)
    ensures name in SecretNames(d) <==> Declares(d, name)
  {
    if d.secrets.Some? {
      NamesExactly(d.secrets.value, name);
    }
  }

  lemma {:induction false} CollectedSecrets(part: Dependency -> Contribution, deps: seq<Dependency>, name: string)
    ensures name in Collect(part, deps).requiredSecrets <==> exists d :: d in deps && name in part(d).requiredSecrets
    ensures name in Collect(part, deps).optionalSecrets <==> exists d :: d in deps && name in part(d).optionalSecrets
  {
    if deps != [] {
      var n := |deps| - 1;
      CollectedSecrets(part, deps[..n], name);
      assert deps == deps[..n] + [deps[n]];
    }
  }

  /** A plan requires the secrets that its required dependencies declare, and no others. */
  lemma SecretsExactly(p: Package, includeOptional: bool, name: string)
    ensures name in PlanOf(p, includeOptional).requiredSecrets
            <==> exists d :: d in p.dependencies && d.required && Declares(d, name)
    ensures name in PlanOf(p, includeOptional).optionalSecrets
            <==> includeOptional && exists d :: d in p.dependencies && !d.required && Declares(d, name)
  {
    var part := Contributor(includeOptional);
    var c := Collect(part, p.dependencies);
    FinishedParts(p, includeOptional);
    CanonicalMember(c.requiredSecrets, name);
    CanonicalMember(c.optionalSecrets, name);
    CollectedSecrets(part, p.dependencies, name);
    forall d
      ensures name in part(d).requiredSecrets <==> d.required && Declares(d, name)
      ensures name in part(d).optionalSecrets <==> includeOptional && !d.required && Declares(d, name)
    {
      SecretNamesExactly(d, name);
    }
  }

  lemma CanonicalMember(s: seq<string>, x: string)
    ensures x in Canonical(s) <==> x in s
  {
    CanonicalIsCanonical(s);
    assert x in Elements(Canonical(s)) <==> x in Elements(s);
  }

  /** The secrets of a plan are strictly sorted. */
  lemma SecretsSorted(p: Package, includeOptional: bool)
    ensures StrictlySorted(PlanOf(p, includeOptional).requiredSecrets)
    ensures StrictlySorted(PlanOf(p, includeOptional).optionalSecrets)
  {
    var c := Collect(Contributor(includeOptional), p.dependencies);
    FinishedParts(p, includeOptional);
    CanonicalIsCanonical(c.requiredSecrets);
    CanonicalIsCanonical(c.optionalSecrets);
  }

  /** The order of the dependencies, and how often one is listed, make no difference to the secrets. */
  lemma SecretsIgnoreOrder(p: Package, q: Package, includeOptional: bool)
    requires forall d :: d in p.dependencies <==> d in q.dependencies
    ensures PlanOf(p, includeOptional).requiredSecrets == PlanOf(q, includeOptional).requiredSecrets
    ensures PlanOf(p, includeOptional).optionalSecrets == PlanOf(q, includeOptional).optionalSecrets
  {
    var a, b := PlanOf(p, includeOptional), PlanOf(q, includeOptional);
    SecretsSorted(p, includeOptional);
    SecretsSorted(q, includeOptional);
    forall name
      ensures name in a.requiredSecrets <==> name in b.requiredSecrets
      ensures name in a.optionalSecrets <==> name in b.optionalSecrets
    {
      SameSecret(p, q, includeOptional, name);
    }
    SameMembers(a.requiredSecrets, b.requiredSecrets);
    SameMembers(a.optionalSecrets, b.optionalSecrets);
  }

  lemma SameSecret(p: Package, q: Package, includeOptional: bool, name: string)
    requires forall d :: d in p.dependencies <==> d in q.dependencies
    ensures name in PlanOf(p, includeOptional).requiredSecrets <==> name in PlanOf(q, includeOptional).requiredSecrets
    ensures name in PlanOf(p, includeOptional).optionalSecrets <==> name in PlanOf(q, includeOptional).optionalSecrets
  {
    SecretsExactly(p, includeOptional, name);
    SecretsExactly(q, includeOptional, name);
  }

  lemma SameMembers(a: seq<string>, b: seq<string>)
    requires StrictlySorted(a) && StrictlySorted(b) && forall x :: x in a <==> x in b
    ensures a == b
  {
    assert Elements(a) == Elements(b);
    StrictlySortedUnique(a, b);
  }

  /** Merging in an overlay's secrets keeps the list strictly sorted and adds exactly those. */
  lemma OverlaySecrets(p: Package, includeOptional: bool, added: seq<string>, name: string)
    ensures var merged := Canonical(PlanOf(p, includeOptional).requiredSecrets + added);
            && StrictlySorted(merged)
            && (name in merged <==> name in added || exists d :: d in p.dependencies && d.required && Declares(d, name))
  {
    var planned := PlanOf(p, includeOptional).requiredSecrets;
    CanonicalIsCanonical(planned + added);
    CanonicalMember(planned + added, name);
    SecretsExactly(p, includeOptional, name);
  }

  lemma OverlayOptionalSecrets(p: Package, includeOptional: bool, added: seq<string>, name: string)
    ensures var merged := Canonical(PlanOf(p, includeOptional).optionalSecrets + added);
            && StrictlySorted(merged)
            && (name in merged <==>
                  || name in added
                  || (includeOptional && exists d :: d in p.dependencies && !d.required && Declares(d, name)))
  {
    var planned := PlanOf(p, includeOptional).optionalSecrets;
    CanonicalIsCanonical(planned + added);
    CanonicalMember(planned + added, name);
    SecretsExactly(p, includeOptional, name);
  }

  /** After the merge, too, neither the order of the dependencies nor that of the overlay's secrets matters. */
  lemma OverlayIgnoresOrder(p: Package, q: Package, includeOptional: bool, added: seq<string>, other: seq<string>)
    requires forall d :: d in p.dependencies <==> d in q.dependencies
    requires Elements(added) == Elements(other)
    ensures Canonical(PlanOf(p, includeOptional).requiredSecrets + added)
            == Canonical(PlanOf(q, includeOptional).requiredSecrets + other)
    ensures Canonical(PlanOf(p, includeOptional).optionalSecrets + added)
            == Canonical(PlanOf(q, includeOptional).optionalSecrets + other)
  {
    SecretsIgnoreOrder(p, q, includeOptional);
    MergedSame(PlanOf(p, includeOptional).requiredSecrets, added, other);
    MergedSame(PlanOf(p, includeOptional).optionalSecrets, added, other);
  }

  lemma MergedSame(planned: seq<string>, added: seq<string>, other: seq<string>)
    requires Elements(added) == Elements(other)
    ensures Canonical(planned + added) == Canonical(planned + other)
  {
    assert Elements(planned + added) == Elements(planned) + Elements(added);
    assert Elements(planned + other) == Elements(planned) + Elements(other);
    CanonicalSame(planned + added, planned + other);
  }

  // ---------------------------------------------------------------------------------------------
  // Reordered dependencies

  lemma {:induction false} CollectAppend(part: Dependency -> Contribution, a: seq<Dependency>, b: seq<Dependency>)
    ensures Collect(part, a + b) == Plus(Collect(part, a), Collect(part, b))
  {
    if b == [] {
      assert a + b == a;
      PlusNothing(Collect(part, a));
    } else {
      var n := |b| - 1;
      assert (a + b)[..|a + b| - 1] == a + b[..n] && (a + b)[|a + b| - 1] == b[n];
      CollectAppend(part, a, b[..n]);
      PlusAssociative(Collect(part, a), Collect(part, b[..n]), part(b[n]));
    }
  }

  lemma PlusNothing(c: Contribution)
    ensures Plus(c, NOTHING) == c && Plus(NOTHING, c) == c
  {
    assert c.extensions + [] == c.extensions && [] + c.extensions == c.extensions;
    assert c.gates + [] == c.gates && [] + c.gates == c.gates;
    assert c.requiredSecrets + [] == c.requiredSecrets && [] + c.requiredSecrets == c.requiredSecrets;
    assert c.optionalSecrets + [] == c.optionalSecrets && [] + c.optionalSecrets == c.optionalSecrets;
  }

  lemma PlusAssociative(a: Contribution, b: Contribution, c: Contribution)
    ensures Plus(Plus(a, b), c) == Plus(a, Plus(b, c))
  {
    assert (a.extensions + b.extensions) + c.extensions == a.extensions + (b.extensions + c.extensions);
    assert (a.gates + b.gates) + c.gates == a.gates + (b.gates + c.gates);
    assert (a.requiredSecrets + b.requiredSecrets) + c.requiredSecrets
           == a.requiredSecrets + (b.requiredSecrets + c.requiredSecrets);
    assert (a.optionalSecrets + b.optionalSecrets) + c.optionalSecrets
           == a.optionalSecrets + (b.optionalSecrets + c.optionalSecrets);
  }

  lemma CollectOne(part: Dependency -> Contribution, d: Dependency)
    ensures Collect(part, [d]) == part(d)
  {
    assert [d][..0] == [];
    PlusNothing(part(d));
  }

  lemma {:induction false} CollectReordered(part: Dependency -> Contribution, a: seq<Dependency>, b: seq<Dependency>)
    requires multiset(a) == multiset(b)
    ensures multiset(Collect(part, a).gates) == multiset(Collect(part, b).gates)
    ensures multiset(Collect(part, a).extensions) == multiset(Collect(part, b).extensions)
  {
    if a == [] {
      assert |multiset(b)| == 0;
    } else {
      var n := |a| - 1;
      var last := a[n];
      assert last in multiset(a);
      var i :| 0 <= i < |b| && b[i] == last;
      var rest := b[..i] + b[i + 1..];
      Removed(a, b, i);
      CollectReordered(part, a[..n], rest);
      CollectMoved(part, b, i, rest);
      CollectMoved(part, a, n, a[..n]);
    }
  }

  lemma CollectMoved(part: Dependency -> Contribution, deps: seq<Dependency>, i: nat, rest: seq<Dependency>)
    requires i < |deps| && rest == deps[..i] + deps[i + 1..]
    ensures multiset(Collect(part, deps).gates) == multiset(Collect(part, rest).gates) + multiset(part(deps[i]).gates)
    ensures multiset(Collect(part, deps).extensions)
            == multiset(Collect(part, rest).extensions) + multiset(part(deps[i]).extensions)
  {
    var left, d, right := deps[..i], deps[i], deps[i + 1..];
    assert deps == left + [d] + right;
    CollectAppend(part, left, right);
    CollectAppend(part, left + [d], right);
    CollectAppend(part, left, [d]);
    CollectOne(part, d);
  }

  lemma Removed(a: seq<Dependency>, b: seq<Dependency>, i: nat)
    requires multiset(a) == multiset(b) && a != [] && i < |b| && b[i] == a[|a| - 1]
    ensures multiset(a[..|a| - 1]) == multiset(b[..i] + b[i + 1..])
  {
    var x := b[i];
    assert a == a[..|a| - 1] + [x];
    assert b == b[..i] + [x] + b[i + 1..];
    assert multiset(a) - multiset{x} == multiset(a[..|a| - 1]);
    assert multiset(b) - multiset{x} == multiset(b[..i]) + multiset(b[i + 1..]);
  }

  /** Listing the dependencies in another order gives the same plan up to the order of gates and extensions. */
  lemma PlanReordered(p: Package, deps: seq<Dependency>, includeOptional: bool)
    requires multiset(deps) == multiset(p.dependencies)
    ensures var plan := PlanOf(p, includeOptional);
            var other := PlanOf(p.(dependencies := deps), includeOptional);
            && multiset(plan.gates) == multiset(other.gates) && multiset(plan.extensions) == multiset(other.extensions)
            && other == plan.(gates := other.gates, extensions := other.extensions)
  {
    var q := p.(dependencies := deps);
    SameDependencies(deps, p.dependencies);
    SecretsIgnoreOrder(p, q, includeOptional);
    PartsReordered(p, q, includeOptional);
  }

  lemma SameDependencies(a: seq<Dependency>, b: seq<Dependency>)
    requires multiset(a) == multiset(b)
    ensures forall d :: d in a <==> d in b
  {
    assert forall d :: d in a <==> d in multiset(a);
    assert forall d :: d in b <==> d in multiset(b);
  }

  lemma PartsReordered(p: Package, q: Package, includeOptional: bool)
    requires q == p.(dependencies := q.dependencies) && multiset(q.dependencies) == multiset(p.dependencies)
    ensures multiset(PlanOf(p, includeOptional).gates) == multiset(PlanOf(q, includeOptional).gates)
    ensures multiset(PlanOf(p, includeOptional).extensions) == multiset(PlanOf(q, includeOptional).extensions)
  {
    var a, b :=
      Collect(Contributor(includeOptional), p.dependencies), Collect(Contributor(includeOptional), q.dependencies);
    CollectReordered(Contributor(includeOptional), q.dependencies, p.dependencies);
    SameStart(p, q);
    FinishedParts(p, includeOptional);
    FinishedParts(q, includeOptional);
    var start, pull := InitialPlan(p), if AnyPull(InitialPlan(p).artifacts) then [PULL_GATE] else [];
    Enclosed(start.gates, a.gates, b.gates, pull);
    Enclosed(start.extensions, a.extensions, b.extensions, []);
  }

  lemma SameStart(p: Package, q: Package)
    requires q == p.(dependencies := q.dependencies)
    ensures InitialPlan(p) == InitialPlan(q)
  {
  }

  lemma Enclosed<T>(head: seq<T>, a: seq<T>, b: seq<T>, tail: seq<T>)
    requires multiset(a) == multiset(b)
    ensures multiset(head + a + tail) == multiset(head + b + tail)
    ensures multiset(head + a) == multiset(head + b)
  {
  }
}
