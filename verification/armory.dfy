/**
  The Armory install planner: a dry-run plan with a policy gate for everything that changes runtime
  authority, and canonical lists of the secrets it needs.
 */
module Armory {
  import opened CanonicalLists
  import opened Outcomes
  import opened Strings

  datatype PackageKind = Skill | Persona | Tone | Profile | Agent | Extension | ForgeTemplate
  datatype Distribution = Oci | Registry | External

  /** A value of a dependency's `secrets` array: a string or anything else. */
  datatype SecretValue = SecretName(name: string) | NotAName

  /** `secrets` is none if the field is missing or no array. */
  datatype Dependency = Dependency(
    kind: PackageKind, id: string, version: string, required: bool,
    installCommand: string, nativeOnly: bool, secrets: Option<seq<SecretValue>>)

  datatype Package = Package(
    kind: PackageKind, id: string, packageRef: string, name: string, version: string,
    description: string, category: string, installCommand: string,
    ociRef: string, artifactType: string, payloadDigest: string, verifyCommand: string,
    canonicalFormat: string, minNex: string,
    destructiveCapabilities: seq<string>, networkRequirements: seq<string>, files: seq<string>,
    dependencies: seq<Dependency>, distribution: Distribution, interfaces: map<string, string>)

  datatype Artifact = Artifact(ociRef: string, artifactType: string, payloadDigest: string, verifyCommand: string)
  datatype PluginInstall = PluginInstall(packageRef: string, entrypoints: seq<string>)
  datatype ExtensionInstall = ExtensionInstall(id: string, version: string, installCommand: string, required: bool)
  datatype Integration = Integration(id: string, interfaces: map<string, string>, installCommand: string)
  datatype Template = Template(
    packageRef: string, canonicalFormat: string, minNex: string,
    destructiveCapabilities: seq<string>, networkRequirements: seq<string>)

  datatype Severity = Info | ApprovalRequired | Blocked

  /** What a gate holds back, and why; `OperationText` gives the wording of the former. */
  datatype Operation =
    | InstallExtension(id: string)
    | LinkIntegration(id: string)
    | ValidateTemplate(packageRef: string)
    | ExecuteTemplate(packageRef: string)
    | DelegateTemplate(id: string)
    | PullArtifact

  datatype Reason =
    | ChangesAuthority
    | NativeOnlyDependency
    | LinkedSeparately
    | NeedsValidation
    | Destructive(capabilities: seq<string>)
    | HandledByNex
    | AffectsSupplyChain

  datatype Gate = Gate(operation: Operation, reason: Reason, severity: Severity)

  datatype Plan = Plan(
    packageRef: string, packageId: string, kind: PackageKind, distribution: Distribution,
    artifacts: seq<Artifact>, plugins: seq<PluginInstall>, extensions: seq<ExtensionInstall>,
    integrations: seq<Integration>, templates: seq<Template>,
    requiredSecrets: seq<string>, optionalSecrets: seq<string>,
    warnings: seq<string>, gates: seq<Gate>)

  // ---------------------------------------------------------------------------------------------
  // Gates

  function OperationText(op: Operation): string {
    match op
    case InstallExtension(id) => "install native extension " + id
    case LinkIntegration(id) => "link external integration " + id
    case ValidateTemplate(packageRef) => "validate Nex forge template " + packageRef
    case ExecuteTemplate(packageRef) => "execute Nex forge template " + packageRef
    case DelegateTemplate(id) => "delegate forge template dependency " + id
    case PullArtifact => "pull and verify OCI artifact"
  }

  lemma OperationInitial(op: Operation)
    ensures OperationText(op) != ""
    ensures OperationText(op)[0] == match op
                                    case InstallExtension(_) => 'i'
                                    case LinkIntegration(_) => 'l'
                                    case ValidateTemplate(_) => 'v'
                                    case ExecuteTemplate(_) => 'e'
                                    case DelegateTemplate(_) => 'd'
                                    case PullArtifact => 'p'
  {
  }

  lemma SameHead(head: string, a: string, b: string)
    requires head + a == head + b
    ensures a == b
  {
    assert a == (head + a)[|head|..] && b == (head + b)[|head|..];
  }

  /** The wording tells all operations apart. */
  lemma OperationTextInjective(a: Operation, b: Operation)
    requires OperationText(a) == OperationText(b)
    ensures a == b
  {
    OperationInitial(a);
    OperationInitial(b);
    match a
    case InstallExtension(id) => SameHead("install native extension ", id, b.id);
    case LinkIntegration(id) => SameHead("link external integration ", id, b.id);
    case ValidateTemplate(packageRef) => SameHead("validate Nex forge template ", packageRef, b.packageRef);
    case ExecuteTemplate(packageRef) => SameHead("execute Nex forge template ", packageRef, b.packageRef);
    case DelegateTemplate(id) => SameHead("delegate forge template dependency ", id, b.id);
    case PullArtifact =>
  }

  function InstallGate(id: string, reason: Reason): Gate {
    Gate(InstallExtension(id), reason, ApprovalRequired)
  }

  const PULL_GATE := Gate(PullArtifact, AffectsSupplyChain, ApprovalRequired)

  // ---------------------------------------------------------------------------------------------
  // What a package and its dependencies contribute

  predicate IsDestructiveForge(p: Package) {
    p.kind == ForgeTemplate && p.destructiveCapabilities != []
  }

  function PackageGates(p: Package): seq<Gate> {
    if p.kind == Extension && p.distribution == Registry then [InstallGate(p.id, ChangesAuthority)]
    else if p.kind == Extension && p.distribution == External
      then [Gate(LinkIntegration(p.id), LinkedSeparately, ApprovalRequired)]
    else if p.kind == ForgeTemplate then
      [Gate(ValidateTemplate(p.packageRef), NeedsValidation, ApprovalRequired)]
      + if p.destructiveCapabilities != []
        then [Gate(ExecuteTemplate(p.packageRef), Destructive(p.destructiveCapabilities), Blocked)] else []
    else []
  }

  function PackageExtensions(p: Package): seq<ExtensionInstall> {
    if p.kind == Extension && p.distribution == Registry
      then [ExtensionInstall(p.id, p.version, p.installCommand, true)] else []
  }

  function SecretNames(d: Dependency): seq<string> {
    if d.secrets.None? then [] else Names(d.secrets.value)
  }

  function Names(values: seq<SecretValue>): seq<string> {
    if values == [] then []
    else (if values[0].SecretName? then [values[0].name] else []) + Names(values[1..])
  }

  /** What one dependency, or a list of them, adds to a plan. */
  datatype Contribution = Contribution(
    extensions: seq<ExtensionInstall>, gates: seq<Gate>, requiredSecrets: seq<string>, optionalSecrets: seq<string>)

  const NOTHING := Contribution([], [], [], [])

  function Plus(a: Contribution, b: Contribution): Contribution {
    Contribution(a.extensions + b.extensions, a.gates + b.gates,
                 a.requiredSecrets + b.requiredSecrets, a.optionalSecrets + b.optionalSecrets)
  }

  function DependencyGates(d: Dependency): seq<Gate> {
    if d.kind == Extension && d.nativeOnly then [InstallGate(d.id, NativeOnlyDependency)]
    else if d.kind == ForgeTemplate then [Gate(DelegateTemplate(d.id), HandledByNex, ApprovalRequired)]
    else []
  }

  function DependencyExtensions(d: Dependency): seq<ExtensionInstall> {
    if d.kind == Extension && d.nativeOnly
      then [ExtensionInstall(d.id, d.version, d.installCommand, d.required)] else []
  }

  function ContributionOf(d: Dependency, includeOptional: bool): Contribution {
    if !d.required && !includeOptional then NOTHING
    else
      Contribution(DependencyExtensions(d), DependencyGates(d),
                   if d.required then SecretNames(d) else [], if d.required then [] else SecretNames(d))
  }

  function Contributor(includeOptional: bool): Dependency -> Contribution {
    (d: Dependency) => ContributionOf(d, includeOptional)
  }

  /** What a list of dependencies contributes, in order. */
  function Collect(part: Dependency -> Contribution, deps: seq<Dependency>): Contribution {
    if deps == [] then NOTHING else Plus(Collect(part, deps[..|deps| - 1]), part(deps[|deps| - 1]))
  }

  function Extend(plan: Plan, c: Contribution): Plan {
    plan.(extensions := plan.extensions + c.extensions,
          gates := plan.gates + c.gates,
          requiredSecrets := plan.requiredSecrets + c.requiredSecrets,
          optionalSecrets := plan.optionalSecrets + c.optionalSecrets)
  }

  lemma ExtendTwice(plan: Plan, a: Contribution, b: Contribution)
    ensures Extend(Extend(plan, a), b) == Extend(plan, Plus(a, b))
    ensures Extend(plan, NOTHING) == plan
  {
    assert plan.extensions + a.extensions + b.extensions == plan.extensions + (a.extensions + b.extensions);
    assert plan.gates + a.gates + b.gates == plan.gates + (a.gates + b.gates);
    assert plan.requiredSecrets + a.requiredSecrets + b.requiredSecrets
           == plan.requiredSecrets + (a.requiredSecrets + b.requiredSecrets);
    assert plan.optionalSecrets + a.optionalSecrets + b.optionalSecrets
           == plan.optionalSecrets + (a.optionalSecrets + b.optionalSecrets);
  }

  predicate PullsArtifact(p: Package) {
    p.distribution == Oci && p.ociRef != ""
  }

  // ---------------------------------------------------------------------------------------------
  // The planner

  function PackageArtifacts(p: Package): seq<Artifact> {
    if PullsArtifact(p) then [Artifact(p.ociRef, p.artifactType, p.payloadDigest, p.verifyCommand)] else []
  }

  function PackagePlugins(p: Package): seq<PluginInstall> {
    if (p.kind == Agent || p.kind == Profile) && p.distribution == Oci
      then [PluginInstall(p.packageRef, p.files)] else []
  }

  function PackageIntegrations(p: Package): seq<Integration> {
    if p.kind == Extension && p.distribution == External
      then [Integration(p.id, p.interfaces, p.installCommand)] else []
  }

  function PackageTemplates(p: Package): seq<Template> {
    if p.kind == ForgeTemplate
      then [Template(p.packageRef, p.canonicalFormat, p.minNex, p.destructiveCapabilities, p.networkRequirements)]
    else []
  }

  /** The plan before dependencies are looked at. */
  function InitialPlan(p: Package): Plan {
    Plan(
      p.packageRef, p.id, p.kind, p.distribution, PackageArtifacts(p), PackagePlugins(p), PackageExtensions(p),
      PackageIntegrations(p), PackageTemplates(p), [], [], [], PackageGates(p))
  }

  method StartPlan(p: Package) returns (plan: Plan)
    ensures plan == InitialPlan(p)
  {
    plan := Plan(p.packageRef, p.id, p.kind, p.distribution, [], [], [], [], [], [], [], [], []);
    if p.distribution == Oci && p.ociRef != "" {
      var artifact := Artifact(p.ociRef, p.artifactType, p.payloadDigest, p.verifyCommand);
      plan := plan.(artifacts := plan.artifacts + [artifact]);
    }
    if (p.kind == Agent || p.kind == Profile) && p.distribution == Oci {
      plan := plan.(plugins := plan.plugins + [PluginInstall(p.packageRef, p.files)]);
    } else if p.kind == Extension {
      plan := AddExtension(plan, p);
    } else if p.kind == ForgeTemplate {
      plan := AddTemplate(plan, p);
    }
  }

  /** The two branches for extensions; one that is pulled adds nothing. */
  method AddExtension(start: Plan, p: Package) returns (plan: Plan)
    requires p.kind == Extension && start.extensions == [] && start.integrations == [] && start.gates == []
    ensures plan == start.(extensions := PackageExtensions(p), integrations := PackageIntegrations(p),
                           gates := PackageGates(p))
  {
    plan := start;
    if p.distribution == Registry {
      plan := plan.(extensions := plan.extensions + [ExtensionInstall(p.id, p.version, p.installCommand, true)]);
      plan := plan.(gates := plan.gates + [InstallGate(p.id, ChangesAuthority)]);
    } else if p.distribution == External {
      plan := plan.(integrations := plan.integrations + [Integration(p.id, p.interfaces, p.installCommand)]);
      plan := plan.(gates := plan.gates + [Gate(LinkIntegration(p.id), LinkedSeparately, ApprovalRequired)]);
    }
  }

  /** The branch for forge templates. */
  method AddTemplate(start: Plan, p: Package) returns (plan: Plan)
    requires p.kind == ForgeTemplate && start.templates == [] && start.gates == []
    ensures plan == start.(templates := PackageTemplates(p), gates := PackageGates(p))
  {
    var template :=
      Template(p.packageRef, p.canonicalFormat, p.minNex, p.destructiveCapabilities, p.networkRequirements);
    plan := start.(templates := start.templates + [template]);
    plan := plan.(gates := plan.gates + [Gate(ValidateTemplate(p.packageRef), NeedsValidation, ApprovalRequired)]);
    if p.destructiveCapabilities != [] {
      var reason := Destructive(p.destructiveCapabilities);
      plan := plan.(gates := plan.gates + [Gate(ExecuteTemplate(p.packageRef), reason, Blocked)]);
    }
  }

  /** The dependency loop. */
  method AddDependencies(start: Plan, deps: seq<Dependency>, includeOptional: bool) returns (plan: Plan)
    ensures plan == Extend(start, Collect(Contributor(includeOptional), deps))
  {
    plan := start;
    ExtendTwice(start, NOTHING, NOTHING);
    for i := 0 to |deps|
      invariant plan == Extend(start, Collect(Contributor(includeOptional), deps[..i]))
    {
      assert deps[..i + 1][..i] == deps[..i];
      ExtendTwice(start, Collect(Contributor(includeOptional), deps[..i]), ContributionOf(deps[i], includeOptional));
      plan := AddDependency(plan, deps[i], includeOptional);
    }
    assert deps[..|deps|] == deps;
  }

  method AddDependency(start: Plan, d: Dependency, includeOptional: bool) returns (plan: Plan)
    ensures plan == Extend(start, ContributionOf(d, includeOptional))
  {
    plan := start;
    if !d.required && !includeOptional {
      return;
    }
    if d.required {
      plan := plan.(requiredSecrets := plan.requiredSecrets + SecretNames(d));
    } else {
      plan := plan.(optionalSecrets := plan.optionalSecrets + SecretNames(d));
    }
    if d.kind == Extension && d.nativeOnly {
      plan := plan.(extensions := plan.extensions + [ExtensionInstall(d.id, d.version, d.installCommand, d.required)]);
      plan := plan.(gates := plan.gates + [InstallGate(d.id, NativeOnlyDependency)]);
    } else if d.kind == ForgeTemplate {
      plan := plan.(gates := plan.gates + [Gate(DelegateTemplate(d.id), HandledByNex, ApprovalRequired)]);
    }
  }

  predicate AnyPull(artifacts: seq<Artifact>) {
    exists i :: 0 <= i < |artifacts| && artifacts[i].ociRef != ""
  }

  /** The end of the planner: the gate for pulled artifacts, and the secrets put in canonical form. */
  function Finish(plan: Plan): Plan {
    plan.(gates := plan.gates + if AnyPull(plan.artifacts) then [PULL_GATE] else [],
          requiredSecrets := Canonical(plan.requiredSecrets),
          optionalSecrets := Canonical(plan.optionalSecrets))
  }

  /** The plan of a package: what it starts with, what its dependencies contribute, and the end. */
  function PlanOf(p: Package, includeOptional: bool): Plan {
    Finish(Extend(InitialPlan(p), Collect(Contributor(includeOptional), p.dependencies)))
  }

  method PlanArmoryInstall(p: Package, includeOptional: bool) returns (plan: Plan)
    ensures plan == PlanOf(p, includeOptional)
  {
    plan := StartPlan(p);
    plan := AddDependencies(plan, p.dependencies, includeOptional);
    plan := FinishPlan(plan);
  }

  method FinishPlan(start: Plan) returns (plan: Plan)
    ensures plan == Finish(start)
  {
    plan := start;
    if AnyPull(plan.artifacts) {
      plan := plan.(gates := plan.gates + [PULL_GATE]);
    }
    plan := plan.(requiredSecrets := Canonical(plan.requiredSecrets));
    plan := plan.(optionalSecrets := Canonical(plan.optionalSecrets));
  }

  // ---------------------------------------------------------------------------------------------
  // The overlay

  datatype Overlay = Overlay(
    id: string, armory: string, mode: string, role: string, image: string, model: string, posture: string,
    resources: (Option<string>, Option<string>), requiredSecrets: seq<string>, optionalSecrets: seq<string>,
    controlTlsProfile: string, meshRole: string, terminalTool: bool)

  datatype OverlayError =
    | FieldMissing(field: string)
    | OtherPackage(armory: string, packageRef: string)
    | NotAnAgent(kind: PackageKind)

  datatype AgentPackage = AgentPackage(
    id: string, name: string, description: string, domain: string, agent: string, profile: string,
    defaultModel: string, posture: string, role: string, mode: string, image: string, tags: seq<string>,
    requiredSecrets: seq<string>, optionalSecrets: seq<string>, resources: (Option<string>, Option<string>),
    controlTlsProfile: string, meshRole: string, terminalTool: bool)

  function RequiredFields(overlay: Overlay): seq<(string, string)> {
    [("id", overlay.id), ("armory", overlay.armory), ("mode", overlay.mode),
     ("role", overlay.role), ("image", overlay.image), ("model", overlay.model)]
  }

  /** The first of `fields` that is blank. */
  function FirstBlank(fields: seq<(string, string)>): Option<string> {
    if fields == [] then None
    else if Trim(fields[0].1) == "" then Some(fields[0].0)
    else FirstBlank(fields[1..])
  }

  /** No field is found exactly if none is all whitespace; otherwise it is the first that is. */
  lemma {:induction false} FirstBlankExactly(fields: seq<(string, string)>)
    ensures FirstBlank(fields).None? <==> forall i :: 0 <= i < |fields| ==> !AllWhitespace(fields[i].1)
    ensures FirstBlank(fields).Some?
            ==> exists i :: 0 <= i < |fields| && IsFirstBlank(fields, i) && FirstBlank(fields) == Some(fields[i].0)
  {
    if fields != [] {
      TrimBlank(fields[0].1);
      FirstBlankExactly(fields[1..]);
      if AllWhitespace(fields[0].1) {
        assert IsFirstBlank(fields, 0);
      } else if FirstBlank(fields).Some? {
        var rest := fields[1..];
        var i :| 0 <= i < |rest| && IsFirstBlank(rest, i) && FirstBlank(rest) == Some(rest[i].0);
        FirstBlankLater(fields, i);
      } else {
        assert forall i :: 1 <= i < |fields| ==> fields[i] == fields[1..][i - 1];
      }
    }
  }

  predicate IsFirstBlank(fields: seq<(string, string)>, i: nat) {
    i < |fields| && AllWhitespace(fields[i].1) && forall j :: 0 <= j < i ==> !AllWhitespace(fields[j].1)
  }

  lemma FirstBlankLater(fields: seq<(string, string)>, i: nat)
    requires fields != [] && !AllWhitespace(fields[0].1) && IsFirstBlank(fields[1..], i)
    ensures IsFirstBlank(fields, i + 1) && fields[i + 1] == fields[1..][i]
  {
    forall j | 0 < j < i + 1
      ensures !AllWhitespace(fields[j].1)
    {
      assert fields[j] == fields[1..][j - 1];
    }
  }

  method ValidateOverlay(overlay: Overlay) returns (missing: Option<string>)
    ensures missing == FirstBlank(RequiredFields(overlay))
  {
    var fields := RequiredFields(overlay);
    for i := 0 to |fields|
      invariant FirstBlank(fields) == FirstBlank(fields[i..])
    {
      assert fields[i..][1..] == fields[i + 1..];
      if Trim(fields[i].1) == "" {
        return Some(fields[i].0);
      }
    }
    return None;
  }

  /** What an agent package takes from the Armory package. */
  predicate ComesFromPackage(a: AgentPackage, p: Package) {
    && a.name == p.name && a.description == p.description && a.domain == p.category
    && a.agent == p.id && a.profile == p.packageRef && a.tags == ["armory:" + p.packageRef]
  }

  /** What it takes from the overlay: all that the deployment decides. */
  predicate ComesFromOverlay(a: AgentPackage, overlay: Overlay) {
    && a.id == overlay.id && a.defaultModel == overlay.model && a.role == overlay.role && a.mode == overlay.mode
    && a.image == overlay.image && a.resources == overlay.resources && a.controlTlsProfile == overlay.controlTlsProfile
    && a.meshRole == overlay.meshRole && a.terminalTool == overlay.terminalTool
    && (overlay.posture != "" ==> a.posture == overlay.posture) && (overlay.posture == "" ==> a.posture == "fabricator")
  }

  method AgentPackageFromOverlay(p: Package, overlay: Overlay, plan: Plan)
    returns (r: Result<AgentPackage, OverlayError>)
    ensures FirstBlank(RequiredFields(overlay)).Some?
            ==> r == Err(FieldMissing(FirstBlank(RequiredFields(overlay)).value))
    ensures r.Ok? <==>
              && FirstBlank(RequiredFields(overlay)).None?
              && (overlay.armory == p.packageRef || overlay.armory == p.id)
              && (p.kind == Agent || p.kind == Profile)
    ensures r.Err? && r.error.OtherPackage? ==> r.error == OtherPackage(overlay.armory, p.packageRef)
    ensures r.Err? && r.error.NotAnAgent? ==> r.error == NotAnAgent(p.kind)
    ensures r.Err? && r.error.NotAnAgent? ==> overlay.armory == p.packageRef || overlay.armory == p.id
    ensures r.Ok? ==> ComesFromPackage(r.value, p) && ComesFromOverlay(r.value, overlay)
    ensures r.Ok? ==>
              && r.value.requiredSecrets == Canonical(plan.requiredSecrets + overlay.requiredSecrets)
              && r.value.optionalSecrets == Canonical(plan.optionalSecrets + overlay.optionalSecrets)
  {
    var missing := ValidateOverlay(overlay);
    if missing.Some? {
      return Err(FieldMissing(missing.value));
    }
    if overlay.armory != p.packageRef && overlay.armory != p.id {
      return Err(OtherPackage(overlay.armory, p.packageRef));
    }
    if p.kind != Agent && p.kind != Profile {
      return Err(NotAnAgent(p.kind));
    }
    var requiredSecrets := plan.requiredSecrets + overlay.requiredSecrets;
    requiredSecrets := Canonical(requiredSecrets);
    var optionalSecrets := plan.optionalSecrets + overlay.optionalSecrets;
    optionalSecrets := Canonical(optionalSecrets);
    return Ok(AgentPackage(
      overlay.id, p.name, p.description, p.category, p.id, p.packageRef, overlay.model,
      if overlay.posture == "" then "fabricator" else overlay.posture, overlay.role, overlay.mode, overlay.image,
      ["armory:" + p.packageRef], requiredSecrets, optionalSecrets, overlay.resources,
      overlay.controlTlsProfile, overlay.meshRole, overlay.terminalTool));
  }
}
