/**
 Repositories, check results and rosters shared by the projection, the publication and the metrics.

 Only the parts other modules decide on are spelled out; the remaining payload of a value is kept
 in one opaque field, so that two values are equal exactly when all their content is.
 */
module Domain {
  import opened Wrappers

  datatype Visibility = Public | Internal | Private

  datatype Repository = Repository(
    id: string,
    nodeId: Option<string>,
    name: string,
    visibility: Visibility,
    language: Option<string>,
    defaultBranch: string,
    archived: bool,
    inventoryKey: string,
    updatedAt: Option<string>,
    hasIssues: bool,
    pushedAt: Option<string>,
    createdAt: Option<string>,
    description: Option<string>,
    fork: bool,
    isEmpty: bool,
    htmlUrl: Option<string>,
    topics: seq<string>,
    licenseSpdx: Option<string>)
  {
    /** The source's own equality, which ignores informational fields. */
    predicate SameIdentity(other: Repository) {
      && id == other.id
      && name == other.name
      && visibility == other.visibility
      && defaultBranch == other.defaultBranch
      && archived == other.archived
      && inventoryKey == other.inventoryKey
      && updatedAt == other.updatedAt
    }
  }

  datatype IndeterminateReason =
    | PermissionDenied | PermissionSuspected | Transient | RateLimited | Invalid | Pending

  datatype SecurityPolicyResult =
    | EnabledBySetting(timestamp: string)
    | EnabledByFile(path: string, timestamp: string)
    | PolicyAbsent(timestamp: string)
    | PolicyUnobservable(reason: IndeterminateReason, timestamp: string)
    | PolicyNotApplicable(timestamp: string)
  {
    function Status(): SecurityPolicyStatus {
      match this
      case EnabledBySetting(_) | EnabledByFile(_, _) => SecurityPolicyStatus.Pass
      case PolicyAbsent(_) => SecurityPolicyStatus.Fail
      case PolicyUnobservable(_, _) => SecurityPolicyStatus.Unknown
      case PolicyNotApplicable(_) => SecurityPolicyStatus.NotApplicable
    }
  }

  datatype SecurityPolicyStatus = Pass | Fail | Unknown | NotApplicable

  datatype SecretScanningStatus = Enabled | Disabled | PermissionDenied | Unknown

  /** Provenance is reduced to what is read from it: the alert flag and a denied permission. */
  datatype SecretScanningResult =
    | ScanningEnabled(openAlerts: Option<bool>, timestamp: string)
    | ScanningDisabled(timestamp: string)
    | ScanningUnobservable(denied: bool, timestamp: string)
  {
    function Status(): SecretScanningStatus {
      match this
      case ScanningEnabled(_, _) => SecretScanningStatus.Enabled
      case ScanningDisabled(_) => SecretScanningStatus.Disabled
      case ScanningUnobservable(denied, _) =>
        if denied then SecretScanningStatus.PermissionDenied else SecretScanningStatus.Unknown
    }

    function HasOpenAlerts(): Option<bool> {
      if ScanningEnabled? then openAlerts else None
    }

    predicate AlertsObservable() { HasOpenAlerts().Some? }
  }

  datatype DependabotStatus = Enabled | Paused | Disabled | Unknown

  datatype DependabotResult = DependabotResult(status: DependabotStatus, timestamp: string)

  datatype BranchProtectionResult =
    | Protected(defaultBranch: string, timestamp: string)
    | Unprotected(defaultBranch: string, gap: string, timestamp: string)
    | Unobservable(defaultBranch: string, reason: IndeterminateReason, httpStatus: Option<nat>, timestamp: string)

  datatype CodeownersStatus = Conforming | NonConforming | Absent | Unknown

  datatype CodeownersResult = CodeownersResult(status: CodeownersStatus, truncated: bool, timestamp: string)

  datatype RepositoryChecks = RepositoryChecks(
    securityPolicy: SecurityPolicyResult,
    secretScanning: SecretScanningResult,
    dependabot: DependabotResult,
    branchProtection: BranchProtectionResult,
    codeowners: CodeownersResult)
  {
    /** The timestamps of the checks that were really observed, in check order. */
    function ObservedTimestamps(): seq<string> {
      (if securityPolicy.Status() in {SecurityPolicyStatus.Pass, SecurityPolicyStatus.Fail}
       then [securityPolicy.timestamp] else [])
      + (if secretScanning.Status() in {SecretScanningStatus.Enabled, SecretScanningStatus.Disabled}
         then [secretScanning.timestamp] else [])
      + (if dependabot.status != DependabotStatus.Unknown then [dependabot.timestamp] else [])
      + (if !branchProtection.Unobservable? then [branchProtection.timestamp] else [])
      + (if codeowners.status != CodeownersStatus.Unknown then [codeowners.timestamp] else [])
    }

    /** True when the read state derived from the checks is `Observed`. */
    predicate IsObserved() { ObservedTimestamps() != [] }
  }

  datatype RepositoryEvidence = RepositoryEvidence(
    repository: Repository, checks: RepositoryChecks, rest: string)
  {
    predicate IsComplete() {
      && checks.securityPolicy.Status() != SecurityPolicyStatus.Unknown
      && checks.secretScanning.Status() != SecretScanningStatus.Unknown
      && checks.dependabot.status != DependabotStatus.Unknown
      && !checks.branchProtection.Unobservable?
      && checks.codeowners.status != CodeownersStatus.Unknown
    }

    /** Equality as the source derives it, through the coarse equality of repositories. */
    predicate SameAs(other: RepositoryEvidence) {
      repository.SameIdentity(other.repository) && checks == other.checks && rest == other.rest
    }
  }

  datatype TeamRosterStatus = Complete | Deleted | PermissionDenied | TransientError

  datatype TeamRoster = TeamRoster(
    canonicalOwner: string, teamSlug: string, status: TeamRosterStatus,
    members: seq<string>, fetchedAt: Option<string>)

  // ----- What the derived notions mean, check by check

  /** Some check was really observed, with this timestamp. */
  ghost predicate ObservedAt(checks: RepositoryChecks, stamp: string) {
    || (!checks.securityPolicy.PolicyUnobservable? && !checks.securityPolicy.PolicyNotApplicable?
        && checks.securityPolicy.timestamp == stamp)
    || (!checks.secretScanning.ScanningUnobservable? && checks.secretScanning.timestamp == stamp)
    || (checks.dependabot.status != DependabotStatus.Unknown && checks.dependabot.timestamp == stamp)
    || (!checks.branchProtection.Unobservable? && checks.branchProtection.timestamp == stamp)
    || (checks.codeowners.status != CodeownersStatus.Unknown && checks.codeowners.timestamp == stamp)
  }

  lemma ObservedTimestampsAre(checks: RepositoryChecks, stamp: string)
    ensures stamp in checks.ObservedTimestamps() <==> ObservedAt(checks, stamp)
  {}

  lemma IsObservedIff(checks: RepositoryChecks)
    ensures checks.IsObserved() <==> exists stamp :: ObservedAt(checks, stamp)
  {
    var stamps := checks.ObservedTimestamps();
    if stamps != [] {
      assert stamps[0] in stamps;
      ObservedTimestampsAre(checks, stamps[0]);
    }
    if stamp :| ObservedAt(checks, stamp) { ObservedTimestampsAre(checks, stamp); }
  }

  /** Every check reached a conclusion; a permission that is denied counts as one for secret scanning. */
  ghost predicate AllConclusive(checks: RepositoryChecks) {
    && !checks.securityPolicy.PolicyUnobservable?
    && (checks.secretScanning.ScanningUnobservable? ==> checks.secretScanning.denied)
    && checks.dependabot.status in {DependabotStatus.Enabled, DependabotStatus.Paused, DependabotStatus.Disabled}
    && (checks.branchProtection.Protected? || checks.branchProtection.Unprotected?)
    && checks.codeowners.status
       in {CodeownersStatus.Conforming, CodeownersStatus.NonConforming, CodeownersStatus.Absent}
  }

  lemma IsCompleteIff(e: RepositoryEvidence)
    ensures e.IsComplete() <==> AllConclusive(e.checks)
  {}

  /** Equal in everything but the informational fields of the repository. */
  ghost predicate SameContent(a: RepositoryEvidence, b: RepositoryEvidence) {
    && a.repository.id == b.repository.id && a.repository.name == b.repository.name
    && a.repository.visibility == b.repository.visibility && a.repository.defaultBranch == b.repository.defaultBranch
    && a.repository.archived == b.repository.archived && a.repository.inventoryKey == b.repository.inventoryKey
    && a.repository.updatedAt == b.repository.updatedAt
    && a.checks == b.checks && a.rest == b.rest
  }
}
