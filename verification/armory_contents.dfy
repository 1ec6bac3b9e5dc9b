/** The install plan of a package from the package alone: what it calls for, and the gates that go with it. */
module ArmoryContents {
  import opened Armory
  import opened ArmoryProperties
  import opened Outcomes
  import opened Strings

  // ---------------------------------------------------------------------------------------------
  // What a package calls for

  /** One artifact, with the package's own reference, exactly for a pulled package that has one. */
  predicate CallsForArtifact(p: Package, artifacts: seq<Artifact>) {
    if p.distribution == Oci && p.ociRef != "" then
      && |artifacts| == 1
      && artifacts[0].ociRef == p.ociRef && artifacts[0].artifactType == p.artifactType
      && artifacts[0].payloadDigest == p.payloadDigest && artifacts[0].verifyCommand == p.verifyCommand
    else artifacts == []
  }

  /** A plugin with the package's files exactly for a pulled agent or profile. */
  predicate CallsForPlugin(p: Package, plugins: seq<PluginInstall>) {
    if p.kind in {Agent, Profile} && p.distribution == Oci then
      |plugins| == 1 && plugins[0].packageRef == p.packageRef && plugins[0].entrypoints == p.files
    else plugins == []
  }

  predicate CallsForIntegration(p: Package, integrations: seq<Integration>) {
    if p.kind == Extension && p.distribution == External then
      && |integrations| == 1
      && integrations[0].id == p.id && integrations[0].interfaces == p.interfaces
      && integrations[0].installCommand == p.installCommand
    else integrations == []
  }

  predicate CallsForTemplate(p: Package, templates: seq<Template>) {
    if p.kind == ForgeTemplate then
      && |templates| == 1
      && templates[0].packageRef == p.packageRef && templates[0].canonicalFormat == p.canonicalFormat
      && templates[0].minNex == p.minNex && templates[0].destructiveCapabilities == p.destructiveCapabilities
      && templates[0].networkRequirements == p.networkRequirements
    else templates == []
  }

  /** A native extension that a dependency calls for. */
  predicate IsNative(d: Dependency, includeOptional: bool) {
    (d.required || includeOptional) && d.kind == Extension && d.nativeOnly
  }

  predicate InstallsDependency(x: ExtensionInstall, d: Dependency) {
    x.id == d.id && x.version == d.version && x.installCommand == d.installCommand && x.required == d.required
  }

  /** One extension for each native dependency that takes part, in order. */
  predicate CallsForNatives(deps: seq<Dependency>, includeOptional: bool, extensions: seq<ExtensionInstall>)
    decreases |deps|
  {
    if deps == [] then extensions == []
    else if IsNative(deps[0], includeOptional) then
      && extensions != [] && InstallsDependency(extensions[0], deps[0])
      && CallsForNatives(deps[1..], includeOptional, extensions[1..])
    else CallsForNatives(deps[1..], includeOptional, extensions)
  }

  /** The package itself if it is an extension from the registry, and then those of its dependencies. */
  predicate CallsForExtensions(p: Package, includeOptional: bool, extensions: seq<ExtensionInstall>) {
    if p.kind == Extension && p.distribution == Registry then
      && extensions != []
      && extensions[0].id == p.id && extensions[0].version == p.version
      && extensions[0].installCommand == p.installCommand && extensions[0].required
      && CallsForNatives(p.dependencies, includeOptional, extensions[1..])
    else CallsForNatives(p.dependencies, includeOptional, extensions)
  }

  // ---------------------------------------------------------------------------------------------
  // What gates it calls for

  predicate IsGate(g: Gate, operation: string, reason: Reason, severity: Severity) {
    OperationText(g.operation) == operation && g.reason == reason && g.severity == severity
  }

  /** The gates of the dependencies that take part, in order. */
  predicate GatedDependencies(deps: seq<Dependency>, includeOptional: bool, gates: seq<Gate>)
    decreases |deps|
  {
    if deps == [] then gates == []
    else if IsNative(deps[0], includeOptional) then
      && gates != []
      && IsGate(gates[0], "install native extension " + deps[0].id, NativeOnlyDependency, ApprovalRequired)
      && GatedDependencies(deps[1..], includeOptional, gates[1..])
    else if (deps[0].required || includeOptional) && deps[0].kind == ForgeTemplate then
      && gates != []
      && IsGate(gates[0], "delegate forge template dependency " + deps[0].id, HandledByNex, ApprovalRequired)
      && GatedDependencies(deps[1..], includeOptional, gates[1..])
    else GatedDependencies(deps[1..], includeOptional, gates)
  }

  /** The gates of the package itself. */
  predicate GatedPackage(p: Package, gates: seq<Gate>) {
    match (p.kind, p.distribution)
    case (Extension, Registry) =>
      |gates| == 1 && IsGate(gates[0], "install native extension " + p.id, ChangesAuthority, ApprovalRequired)
    case (Extension, External) =>
      |gates| == 1 && IsGate(gates[0], "link external integration " + p.id, LinkedSeparately, ApprovalRequired)
    case (ForgeTemplate, _) =>
      && |gates| == (if p.destructiveCapabilities == [] then 1 else 2)
      && IsGate(gates[0], "validate Nex forge template " + p.packageRef, NeedsValidation, ApprovalRequired)
      && (p.destructiveCapabilities != [] ==>
            IsGate(gates[1], "execute Nex forge template " + p.packageRef, Destructive(p.destructiveCapabilities),
                   Blocked))
    case _ => gates == []
  }

  /** The gate for the artifact, last of all. */
  predicate GatedArtifact(p: Package, gates: seq<Gate>) {
    if p.distribution == Oci && p.ociRef != "" then
      |gates| == 1 && IsGate(gates[0], "pull and verify OCI artifact", AffectsSupplyChain, ApprovalRequired)
    else gates == []
  }

  ghost predicate CallsForGates(p: Package, includeOptional: bool, gates: seq<Gate>) {
    exists own, others, pull ::
      && gates == own + others + pull
      && GatedPackage(p, own) && GatedDependencies(p.dependencies, includeOptional, others) && GatedArtifact(p, pull)
  }

  // ---------------------------------------------------------------------------------------------
  // The plan

  lemma {:induction false} CollectCons(part: Dependency -> Contribution, d: Dependency, deps: seq<Dependency>)
    ensures Collect(part, [d] + deps) == Plus(part(d), Collect(part, deps))
  {
    CollectAppend(part, [d], deps);
    CollectOne(part, d);
  }

  lemma {:induction false} NativesCollected(deps: seq<Dependency>, includeOptional: bool)
    ensures CallsForNatives(deps, includeOptional, Collect(Contributor(includeOptional), deps).extensions)
    decreases |deps|
  {
    if deps != [] {
      var rest := deps[1..];
      NativesCollected(rest, includeOptional);
      assert deps == [deps[0]] + rest;
      CollectCons(Contributor(includeOptional), deps[0], rest);
      NativesStep(deps[0], includeOptional, Collect(Contributor(includeOptional), rest).extensions);
    }
  }

  lemma NativesStep(d: Dependency, includeOptional: bool, rest: seq<ExtensionInstall>)
    ensures var all := ContributionOf(d, includeOptional).extensions + rest;
            if IsNative(d, includeOptional) then all != [] && InstallsDependency(all[0], d) && all[1..] == rest
            else all == rest
  {
  }

  lemma {:induction false} GatesCollected(deps: seq<Dependency>, includeOptional: bool)
    ensures GatedDependencies(deps, includeOptional, Collect(Contributor(includeOptional), deps).gates)
    decreases |deps|
  {
    if deps != [] {
      var rest := deps[1..];
      GatesCollected(rest, includeOptional);
      assert deps == [deps[0]] + rest;
      CollectCons(Contributor(includeOptional), deps[0], rest);
      GatesStep(deps[0], includeOptional, Collect(Contributor(includeOptional), rest).gates);
    }
  }

  lemma GatesStep(d: Dependency, includeOptional: bool, rest: seq<Gate>)
    ensures var all := ContributionOf(d, includeOptional).gates + rest;
            if IsNative(d, includeOptional) then
              && all != [] && all[1..] == rest
              && IsGate(all[0], "install native extension " + d.id, NativeOnlyDependency, ApprovalRequired)
            else if (d.required || includeOptional) && d.kind == ForgeTemplate then
              && all != [] && all[1..] == rest
              && IsGate(all[0], "delegate forge template dependency " + d.id, HandledByNex, ApprovalRequired)
            else all == rest
  {
  }

  lemma PackageGated(p: Package)
    ensures GatedPackage(p, InitialPlan(p).gates)
  {
  }

  lemma ArtifactGated(p: Package)
    ensures GatedArtifact(p, if AnyPull(InitialPlan(p).artifacts) then [PULL_GATE] else [])
  {
    PullGates(p);
  }

  lemma PackageCalls(p: Package)
    ensures var start := InitialPlan(p);
            && CallsForArtifact(p, start.artifacts) && CallsForPlugin(p, start.plugins)
            && CallsForIntegration(p, start.integrations) && CallsForTemplate(p, start.templates)
  {
  }

  /** The gates of a plan from the package alone, one by one and in order. */
  lemma GatesFromPackage(p: Package, includeOptional: bool)
    ensures CallsForGates(p, includeOptional, PlanOf(p, includeOptional).gates)
  {
    FinishedParts(p, includeOptional);
    var own, others := InitialPlan(p).gates, Collect(Contributor(includeOptional), p.dependencies).gates;
    var pull := if AnyPull(InitialPlan(p).artifacts) then [PULL_GATE] else [];
    PackageGated(p);
    GatesCollected(p.dependencies, includeOptional);
    ArtifactGated(p);
    assert PlanOf(p, includeOptional).gates == own + others + pull;
  }

  /** The contents of a plan from the package alone. */
  lemma PlanFromPackage(p: Package, includeOptional: bool)
    ensures var plan := PlanOf(p, includeOptional);
            && plan.packageRef == p.packageRef && plan.packageId == p.id
            && plan.kind == p.kind && plan.distribution == p.distribution && plan.warnings == []
            && CallsForArtifact(p, plan.artifacts) && CallsForPlugin(p, plan.plugins)
            && CallsForIntegration(p, plan.integrations) && CallsForTemplate(p, plan.templates)
            && CallsForExtensions(p, includeOptional, plan.extensions)
  {
    FinishedParts(p, includeOptional);
    PackageCalls(p);
    NativesCollected(p.dependencies, includeOptional);
    ExtensionsCalled(p, includeOptional, Collect(Contributor(includeOptional), p.dependencies).extensions);
  }

  lemma ExtensionsCalled(p: Package, includeOptional: bool, natives: seq<ExtensionInstall>)
    requires CallsForNatives(p.dependencies, includeOptional, natives)
    ensures CallsForExtensions(p, includeOptional, InitialPlan(p).extensions + natives)
  {
    var all := InitialPlan(p).extensions + natives;
    if p.kind == Extension && p.distribution == Registry {
      assert all[1..] == natives;
    } else {
      assert all == natives;
    }
  }

  // ---------------------------------------------------------------------------------------------
  // The overlay

  /** The field that an overlay is refused for: the first that is all whitespace. */
  lemma BlankField(o: Overlay)
    ensures FirstBlank(RequiredFields(o))
            == if AllWhitespace(o.id) then Some("id")
               else if AllWhitespace(o.armory) then Some("armory")
               else if AllWhitespace(o.mode) then Some("mode")
               else if AllWhitespace(o.role) then Some("role")
               else if AllWhitespace(o.image) then Some("image")
               else if AllWhitespace(o.model) then Some("model")
               else None
  {
    TrimBlank(o.id);
    TrimBlank(o.armory);
    TrimBlank(o.mode);
    TrimBlank(o.role);
    TrimBlank(o.image);
    TrimBlank(o.model);
    FirstOfSix(RequiredFields(o));
  }

  lemma FirstOfSix(fields: seq<(string, string)>)
    requires |fields| == 6
    ensures FirstBlank(fields)
            == if Trim(fields[0].1) == "" then Some(fields[0].0)
               else if Trim(fields[1].1) == "" then Some(fields[1].0)
               else if Trim(fields[2].1) == "" then Some(fields[2].0)
               else if Trim(fields[3].1) == "" then Some(fields[3].0)
               else if Trim(fields[4].1) == "" then Some(fields[4].0)
               else if Trim(fields[5].1) == "" then Some(fields[5].0)
               else None
  {
    BlankNext(fields, 0);
    BlankNext(fields, 1);
    BlankNext(fields, 2);
    BlankNext(fields, 3);
    BlankNext(fields, 4);
    BlankNext(fields, 5);
    assert fields[0..] == fields && fields[6..] == [];
  }

  lemma BlankNext(fields: seq<(string, string)>, i: nat)
    requires i < |fields|
    ensures FirstBlank(fields[i..])
            == if Trim(fields[i].1) == "" then Some(fields[i].0) else FirstBlank(fields[i + 1..])
  {
    assert fields[i..][1..] == fields[i + 1..];
  }
}
